/** What the decoder reads at an offset, for any data: which bytes, and when it
    throws. */
module AbiReading {
  import opened Wrappers
  import opened Bytes
  import opened AbiTypes
  import opened AbiCodec
  import opened AbiRoundTrip

  /** The 32 bytes at `o` are the digits of `n`, most significant first. */
  ghost predicate Digits(data: Bytes, o: nat, n: nat) {
    && o + 32 <= |data| && n < TWO256
    && var w := data[o..o + 32]; forall i :: 0 <= i < 32 ==> w[i] == n / Pow256(31 - i) % 256
  }

  /** A word is read exactly if its 32 bytes are there. Where the sum of offset
      and size wraps around, the test passes and zero is read. */
  lemma WordRead(data: Bytes, o: nat)
    requires |data| < TWO64 && o < TWO64
    ensures o + 32 <= |data| ==> ReadWord(data, o).Some? && Digits(data, o, ReadWord(data, o).value)
    ensures |data| < o + 32 && o + 31 < TWO64 ==> ReadWord(data, o) == None
    ensures o + 31 >= TWO64 ==> ReadWord(data, o) == if o + 31 - TWO64 < |data| then Some(0) else None
  {
    hide Pow256, BeBytes;
    if o + 32 <= |data| {
      var w := data[o..o + 32];
      assert Crop(data, o, 32) == w;
      var n := BeValue(w);
      BeValueBound(w);
      Pow256Wide();
      BeBytesOfValue(w);
      forall i | 0 <= i < 32
        ensures w[i] == n / Pow256(31 - i) % 256
      {
        BeDigit(n, 32, i);
      }
    } else if o + 31 >= TWO64 {
      DivModUnique(o + 31, 1, o + 31 - TWO64, TWO64);
      assert Crop(data, o, 32) == [];
    }
  }

  /** Elementary types: the word as a number, as a truth value, or its bytes. */
  lemma NumberRead(data: Bytes, o: nat)
    requires |data| < TWO64 && o + 32 <= |data|
    ensures ReadWord(data, o).Some?
    ensures var n := ReadWord(data, o).value;
            && Decode(Uint, data, o) == Some(Num(n)) && Decode(Bool, data, o) == Some(Flag(n != 0))
            && Decode(Int, data, o) == Some(Num(if n < TWO256 / 16 * 9 then n else n - TWO256))
  {
    WordRead(data, o);
    hide ReadWord, DecodeMembers, DecodeBlob, Digits;
  }

  lemma BytesRead(data: Bytes, o: nat)
    requires |data| < TWO64 && o + 32 <= |data|
    ensures Decode(Address, data, o) == Some(Blob(data[o + 12..o + 32]))
    ensures Decode(Bytes32, data, o) == Some(Blob(data[o..o + 32]))
  {
    WordRead(data, o);
    hide ReadWord, DecodeMembers, DecodeBlob, Digits;
    assert FillTo(data[o + 12..o + 32], 20) == data[o + 12..o + 32];
    assert FillTo(data[o..o + 32], 32) == data[o..o + 32];
  }

  /** A string is as many bytes as the length word says, modulo 2^64, right after
      it, if they are all there. Where the bounds test wraps around, an empty
      string is read. */
  lemma StringRead(data: Bytes, o: nat, n: nat)
    requires |data| < TWO64 && o + 32 <= |data| && ReadWord(data, o) == Some(n)
    ensures Decode(DynBytes, data, o) == Decode(Str, data, o)
    ensures var end := o + 32 + n % TWO64;
            && (end <= |data| ==> Decode(Str, data, o) == Some(Blob(data[o + 32..end])))
            && (|data| < end <= TWO64 ==> Decode(Str, data, o) == None)
            && (TWO64 < end ==> Decode(Str, data, o) == if end - TWO64 <= |data| then Some(Blob([])) else None)
  {
    hide ReadWord, DecodeMembers;
    var last := o + 31 + n % TWO64;
    assert Size(last) == if last < TWO64 then last else last - TWO64;
    assert Decode(Str, data, o).Some? <==> DecodeBlob(data, o).Some?;
  }

  // ---- Data that is too short ----

  /** A static value is not read beyond the end of the data. */
  lemma {:induction false} StaticInside(t: AbiType, data: Bytes, o: nat)
    requires !IsDynamic(t) && Words(t) > 0 && |data| < TWO64 && o + 32 * Words(t) <= TWO64
    requires Decode(t, data, o).Some?
    ensures o + 32 * Words(t) <= |data|
    decreases Depth(t)
  {
    hide ReadWord;
    match t
    case Fixed(e, n) =>
      RepeatDepth(e, n);
      SumRepeat(e, n);
      HeadInside(Repeat(e, n), data, o, 0);
    case _ => WordRead(data, o);
  }

  /** Nor is a head: a call with less data than its fixed part throws. */
  lemma {:induction false} HeadInside(ts: seq<AbiType>, data: Bytes, base: nat, at: nat)
    requires SumWords(ts) > 0 && |data| < TWO64 && base + at + 32 * SumWords(ts) <= TWO64
    requires DecodeMembers(ts, data, base, at).Some?
    ensures base + at + 32 * SumWords(ts) <= |data|
    decreases MaxDepth(ts) + 1, |ts|
  {
    hide Decode, ReadWord, IsDynamic, Words;
    var t, rest := ts[0], ts[1..];
    if Words(t) > 0 {
      if IsDynamic(t) {
        DynamicWords(t);
        WordRead(data, base + at);
      } else {
        StaticInside(t, data, base + at);
      }
    }
    if SumWords(rest) > 0 {
      HeadInside(rest, data, base, at + WORD * Words(t));
    }
  }

  lemma ShortCallThrows(ts: seq<AbiType>, data: Bytes)
    requires |data| < 32 * SumWords(ts) <= TWO64
    ensures AbiOut(ts, data) == None
  {
    hide DecodeMembers, SumWords;
    if AbiOut(ts, data).Some? {
      HeadInside(ts, data, 0, 0);
    }
  }
}
