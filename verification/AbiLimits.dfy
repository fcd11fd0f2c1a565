/** Around the condition on tuple heads: what happens to the smallest tuples
    that do not meet it. */
module AbiLimits {
  import opened Wrappers
  import opened Bytes
  import opened AbiTypes
  import opened AbiCodec
  import opened AbiRoundTrip
  import opened AbiStandard

  const PAIR: AbiType := Fixed(Uint, 2)

  function PairValue(a: int, b: int): AbiValue {
    List([Num(a), Num(b)])
  }

  /** A two-word array in front of one dynamic member: the head has three words
      and the code counts two. */
  lemma MixedEncoding(t: AbiType, a: int, b: int, v: AbiValue)
    requires 0 <= a < TWO256 && 0 <= b < TWO256 && IsDynamic(t) && HasType(t, v)
    ensures HasType(PAIR, PairValue(a, b)) && HaveTypes([PAIR, t], [PairValue(a, b), v])
    ensures Body([PAIR, t], [PairValue(a, b), v]) == Word(a) + Word(b) + Word(64) + Serialise(t, v)
  {
    var ts, vs := [PAIR, t], [PairValue(a, b), v];
    PairEncoding(a, b);
    hide Serialise;
    assert ts[1..] == [t] && vs[1..] == [v] && ts[1..][1..] == [];
    assert Head([t], [v], 64) == Word(64) + Head([], [], 64 + |Serialise(t, v)|);
    assert Head(ts, vs, 64) == (Word(a) + Word(b)) + Head([t], [v], 64);
    assert Tail([t], [v]) == Serialise(t, v) + Tail([], []);
    assert Tail(ts, vs) == [] + Tail([t], [v]);
  }

  lemma PairEncoding(a: int, b: int)
    requires 0 <= a < TWO256 && 0 <= b < TWO256
    ensures HasType(PAIR, PairValue(a, b)) && Serialise(PAIR, PairValue(a, b)) == Word(a) + Word(b)
    ensures !IsDynamic(PAIR) && Words(PAIR) == 2
  {
    var ts, vs := Repeat(Uint, 2), [Num(a), Num(b)];
    assert ts == [Uint, Uint] && ts[1..] == [Uint] && vs[1..] == [Num(b)];
    assert Head([Uint], [Num(b)], 64) == Word(b) + Head([], [], 64);
    assert Head(ts, vs, 64) == Word(a) + Head([Uint], [Num(b)], 64);
    assert Tail([Uint], [Num(b)]) == [] + Tail([], []);
    assert Tail(ts, vs) == [] + Tail([Uint], [Num(b)]);
    assert PairValue(a, b).vs == vs;
  }

  /** One such tuple as the only argument of a call. */
  lemma MixedCall(t: AbiType, a: int, b: int, v: AbiValue)
    requires 0 <= a < TWO256 && 0 <= b < TWO256 && IsDynamic(t) && HasType(t, v)
    ensures HaveTypes([Tuple([PAIR, t])], [List([PairValue(a, b), v])])
    ensures AbiIn([Tuple([PAIR, t])], [List([PairValue(a, b), v])]) ==
            Word(32) + (Word(a) + Word(b) + Word(64) + Serialise(t, v))
  {
    hide Body, Word, AbiIn;
    MixedEncoding(t, a, b, v);
    var tuple, value := Tuple([PAIR, t]), List([PairValue(a, b), v]);
    assert HasType(tuple, value);
    CallOfOne(tuple, value);
  }

  lemma CallOfOne(t: AbiType, v: AbiValue)
    requires HasType(t, v) && IsDynamic(t)
    ensures HaveTypes([t], [v]) && AbiIn([t], [v]) == Word(32) + Serialise(t, v)
  {
    hide Serialise, HasType, IsDynamic, Word, Words;
    var enc := Serialise(t, v);
    HeadTail([t], [v], 32);
    DynamicWords(t);
    assert [t][1..] == [] && [v][1..] == [];
    assert Word(32) + [] == Word(32) && enc + [] == enc;
    assert SumWords([t]) == 1;
  }

  /** Where the words of that call are. */
  lemma MixedWords(t: AbiType, a: int, b: int, v: AbiValue, data: Bytes)
    requires 0 <= a < TWO256 && 0 <= b < TWO256 && HasType(t, v) && |data| < TWO64
    requires data == Word(32) + (Word(a) + Word(b) + Word(64) + Serialise(t, v))
    ensures ReadWord(data, 0) == Some(32) && ReadWord(data, 96) == Some(64)
    ensures At(data, 32, Word(a) + Word(b)) && At(data, 128, Serialise(t, v))
  {
    hide Serialise, HasType;
    assert At(data, 0, Word(32)) && At(data, 96, Word(64)) && At(data, 128, Serialise(t, v));
    assert At(data, 32, Word(a) + Word(b));
    WordAt(data, 0, 32);
    WordAt(data, 96, 64);
  }

  lemma OneMember(t: AbiType, data: Bytes, offset: nat, at: nat)
    ensures DecodeMembers([t], data, offset, at) ==
            var r := DecodeMember(t, data, offset, at); if r.None? then None else Some([r.value])
  {
    hide DecodeMember, Words;
    var r := DecodeMember(t, data, offset, at);
    assert [t][1..] == [];
    if r.Some? {
      assert [r.value] + [] == [r.value];
    }
  }

  lemma TwoMembers(t: AbiType, u: AbiType, data: Bytes, offset: nat, at: nat)
    ensures DecodeMembers([t, u], data, offset, at) ==
            var r := DecodeMember(t, data, offset, at);
            var q := DecodeMember(u, data, offset, at + 32 * Words(t));
            if r.None? || q.None? then None else Some([r.value, q.value])
  {
    hide DecodeMember, Words;
    assert [t, u][1..] == [u];
    OneMember(u, data, offset, at + 32 * Words(t));
    var r, q := DecodeMember(t, data, offset, at), DecodeMember(u, data, offset, at + 32 * Words(t));
    if r.Some? && q.Some? {
      assert [r.value] + [q.value] == [r.value, q.value];
    }
  }

  /** What decoding that call comes down to: the array, and the dynamic member
      read one word too early. */
  lemma MixedDecode(t: AbiType, a: int, b: int, v: AbiValue, data: Bytes)
    requires 0 <= a < TWO256 && 0 <= b < TWO256 && IsDynamic(t) && HasType(t, v) && |data| < TWO64
    requires data == Word(32) + (Word(a) + Word(b) + Word(64) + Serialise(t, v))
    ensures AbiOut([Tuple([PAIR, t])], data) ==
            var r := Decode(t, data, 96);
            if r.None? then None else Some([List([PairValue(a, b), r.value])])
  {
    hide Serialise, HasType, ReadWord, Decode, DecodeMembers, DecodeMember, Word, Words, IsDynamic, At;
    MixedWords(t, a, b, v, data);
    PairBack(a, b, data);
    TupleBack(t, data);
    TwoMembers(PAIR, t, data, 32, 0);
    OneMember(Tuple([PAIR, t]), data, 0, 0);
    MixedMembers(t, data);
  }

  lemma MixedMembers(t: AbiType, data: Bytes)
    requires IsDynamic(t) && |data| < TWO64 && ReadWord(data, 0) == Some(32) && ReadWord(data, 96) == Some(64)
    ensures DecodeMember(t, data, 32, 64) == Decode(t, data, 96)
    ensures DecodeMember(PAIR, data, 32, 0) == Decode(PAIR, data, 32)
    ensures DecodeMember(Tuple([PAIR, t]), data, 0, 0) == Decode(Tuple([PAIR, t]), data, 32)
  {
    hide ReadWord, Decode;
  }

  lemma TupleBack(t: AbiType, data: Bytes)
    ensures Decode(Tuple([PAIR, t]), data, 32) ==
            var vs := DecodeMembers([PAIR, t], data, 32, 0); if vs.None? then None else Some(List(vs.value))
  {
    hide DecodeMembers;
  }

  lemma PairBack(a: int, b: int, data: Bytes)
    requires 0 <= a < TWO256 && 0 <= b < TWO256 && |data| < TWO64 && At(data, 32, Word(a) + Word(b))
    ensures Decode(PAIR, data, 32) == Some(PairValue(a, b)) && !IsDynamic(PAIR) && Words(PAIR) == 2
  {
    PairEncoding(a, b);
    DecodeAt(PAIR, PairValue(a, b), data, 32);
    WrappedIff(PAIR, PairValue(a, b));
  }

  lemma MixedHeads(t: AbiType)
    requires IsDynamic(t)
    ensures !HeadsFit(Tuple([PAIR, t]))
  {
    var ts := [PAIR, t];
    assert ts[1..] == [t] && [t][1..] == [] && ts[1] == t;
    DynamicWords(t);
    assert Words(PAIR) == 2;
    assert SumWords([t]) == Words(t) + SumWords([]);
    assert SumWords(ts) == Words(PAIR) + SumWords([t]);
  }

  /** A string behind a two-word array comes back in one case only: when it is
      the word 64 written twice. */
  lemma MixedStringIff(a: int, b: int, s: Bytes)
    requires 0 <= a < TWO256 && 0 <= b < TWO256
    ensures !HeadsFit(Tuple([PAIR, Str]))
    ensures var ts, vs := [Tuple([PAIR, Str])], [List([PairValue(a, b), Blob(s)])];
            HaveTypes(ts, vs) &&
            (|AbiIn(ts, vs)| < TWO64 ==> (AbiOut(ts, AbiIn(ts, vs)) == Some(vs) <==> s == Word(64) + Word(64)))
  {
    MixedHeads(Str);
    MixedCall(Str, a, b, Blob(s));
    var ts, vs := [Tuple([PAIR, Str])], [List([PairValue(a, b), Blob(s)])];
    var data := AbiIn(ts, vs);
    if |data| < TWO64 {
      MixedStringBack(a, b, s, data);
    }
  }

  lemma MixedStringBack(a: int, b: int, s: Bytes, data: Bytes)
    requires 0 <= a < TWO256 && 0 <= b < TWO256 && |data| < TWO64
    requires data == Word(32) + (Word(a) + Word(b) + Word(64) + Serialise(Str, Blob(s)))
    ensures AbiOut([Tuple([PAIR, Str])], data) == Some([List([PairValue(a, b), Blob(s)])]) <==> s == Word(64) + Word(64)
  {
    hide AbiOut, DecodeBlob, ReadWord, Serialise, Word;
    MixedWords(Str, a, b, Blob(s), data);
    MixedDecode(Str, a, b, Blob(s), data);
    EarlyString(s, data);
    var r := Decode(Str, data, 96);
    if r.Some? && r.value != Blob(s) {
      assert [PairValue(a, b), r.value][1] != [PairValue(a, b), Blob(s)][1];
    }
  }

  /** The offset word itself is taken for the length, and the length word for
      the beginning of the string. */
  lemma EarlyString(s: Bytes, data: Bytes)
    requires |data| < TWO64 && ReadWord(data, 96) == Some(64) && At(data, 128, Serialise(Str, Blob(s)))
    ensures DecodeBlob(data, 96) == Some(s) <==> s == Word(64) + Word(64)
  {
    hide ReadWord, Word;
    if |s| == 64 {
      var e := Serialise(Str, Blob(s));
      assert e[..64] == Word(64) + s[..32];
      assert DecodeBlob(data, 96) == Some(data[128..192]);
      assert data[128..192] == data[128..128 + |e|][..64];
      assert s == s[..32] + s[32..];
      assert Word(64) + s[..32] == s ==> (Word(64) + s[..32])[..32] == Word(64);
    }
  }

  /** An array of one string there does come back, by coincidence: the word read
      one too early makes up for the word skipped. So the condition on heads is
      not necessary for the round trip. */
  lemma MixedArrayComesBack(a: int, b: int, s: Bytes)
    requires 0 <= a < TWO256 && 0 <= b < TWO256
    ensures !HeadsFit(Tuple([PAIR, Fixed(Str, 1)]))
    ensures var ts, vs := [Tuple([PAIR, Fixed(Str, 1)])], [List([PairValue(a, b), List([Blob(s)])])];
            HaveTypes(ts, vs) && (|AbiIn(ts, vs)| < TWO64 ==> AbiOut(ts, AbiIn(ts, vs)) == Some(vs))
  {
    var t, v := Fixed(Str, 1), List([Blob(s)]);
    MixedHeads(t);
    MixedCall(t, a, b, v);
    var ts, vs := [Tuple([PAIR, t])], [List([PairValue(a, b), v])];
    var data := AbiIn(ts, vs);
    if |data| < TWO64 {
      hide AbiOut, Serialise, Decode, DecodeMembers;
      MixedWords(t, a, b, v, data);
      MixedDecode(t, a, b, v, data);
      LateString(s, data);
    }
  }

  lemma LateString(s: Bytes, data: Bytes)
    requires |data| < TWO64 && ReadWord(data, 96) == Some(64)
    requires At(data, 128, Serialise(Fixed(Str, 1), List([Blob(s)])))
    ensures Decode(Fixed(Str, 1), data, 96) == Some(List([Blob(s)]))
  {
    hide ReadWord, DecodeBlob, Word;
    SingleString(s);
    AtSplit(data, 128, Word(32), Serialise(Str, Blob(s)));
    BlobAt(s, data, 160);
    assert Repeat(Str, 1) == [Str];
    OneMember(Str, data, 96, 0);
    assert DecodeMember(Str, data, 96, 0) == Decode(Str, data, 160);
  }

  lemma SingleString(s: Bytes)
    ensures Serialise(Fixed(Str, 1), List([Blob(s)])) == Word(32) + Serialise(Str, Blob(s))
  {
    hide Word;
    var e := Serialise(Str, Blob(s));
    assert Repeat(Str, 1) == [Str];
    assert Head([Str], [Blob(s)], 32) == Word(32) + Head([], [], 32 + |e|);
    assert Tail([Str], [Blob(s)]) == e + Tail([], []);
  }

  // ---- Values not encoded as the standard says ----

  /** A static tuple as an argument: the codec writes an offset word first. */
  lemma StaticTupleDiffers(i: int)
    requires 0 <= i < TWO256
    ensures var ts, vs := [Tuple([Uint])], [List([Num(i)])];
            HaveTypes(ts, vs) && AbiIn(ts, vs) == Word(32) + Word(i) && StdBody(ts, vs) == Word(i)
  {
    hide Word, StdWord;
    StdWordIs(i);
    var t, v := Tuple([Uint]), List([Num(i)]);
    assert [Uint][1..] == [] && [Num(i)][1..] == [];
    assert Head([Uint], [Num(i)], 32) == Word(i) + Head([], [], 32);
    assert Tail([Uint], [Num(i)]) == [] + Tail([], []);
    assert Serialise(t, v) == Word(i);
    CallOfOne(t, v);
    assert StdHead([Uint], [Num(i)], 32) == Word(i) + StdHead([], [], 32);
    assert StdTail([Uint], [Num(i)]) == [] + StdTail([], []);
    assert StdHeadSize([Uint], [Num(i)]) == 32;
    assert StdEnc(t, v) == Word(i);
    StaticArgument(t, v);
  }

  lemma StaticArgument(t: AbiType, v: AbiValue)
    requires HasType(t, v) && !StdDynamic(t)
    ensures HaveTypes([t], [v]) && StdBody([t], [v]) == StdEnc(t, v)
  {
    hide StdEnc, StdDynamic, HasType;
    var e, before := StdEnc(t, v), StdHeadSize([t], [v]);
    assert [t][1..] == [] && [v][1..] == [];
    assert StdHead([t], [v], before) == e + StdHead([], [], before);
    assert StdTail([t], [v]) == [] + StdTail([], []);
    assert e + [] == e;
  }

  /** A two-word array in front of a dynamic member: the offset is short by a
      word. */
  lemma MixedDiffers(t: AbiType, a: int, b: int, v: AbiValue)
    requires 0 <= a < TWO256 && 0 <= b < TWO256 && IsDynamic(t) && HasType(t, v)
    ensures var tuple, value := Tuple([PAIR, t]), List([PairValue(a, b), v]);
            HasType(tuple, value) &&
            (StdTyped(tuple, value) && |Serialise(tuple, value)| < TWO64 ==>
               Serialise(tuple, value) != StdEnc(tuple, value))
  {
    hide Serialise, StdEnc, StdTyped, Conforms, AbiIn, HasType;
    var tuple, value := Tuple([PAIR, t]), List([PairValue(a, b), v]);
    MixedCall(t, a, b, v);
    assert HasType([tuple][0], [value][0]);
    if |Serialise(tuple, value)| < TWO64 {
      ConformsIff(tuple, value);
      MixedDoesNotConform(t, tuple, value);
    }
  }

  lemma MixedDoesNotConform(t: AbiType, tuple: AbiType, value: AbiValue)
    requires IsDynamic(t) && tuple == Tuple([PAIR, t]) && HasType(tuple, value)
    ensures !Conforms(tuple, value)
  {
    hide AllConform, Words;
    var ts := [PAIR, t];
    assert IsDynamic(ts[1]) && AnyDynamic(ts);
    DynamicWords(t);
    assert ts[1..] == [t] && [t][1..] == [];
    assert Words(PAIR) == 2 by { PairWords(); }
    assert SumWords([t]) == Words(t) + SumWords([]);
    assert SumWords(ts) == Words(PAIR) + SumWords([t]);
  }

  lemma PairWords()
    ensures Words(PAIR) == 2
  {
  }
}
