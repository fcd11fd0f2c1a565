/** The bytes SCALE prescribes for each value, written out digit by digit and
    part by part, and what the codec does with bytes that are not so. */
module ScaleFormat {
  import opened Wrappers
  import opened Bytes
  import opened ScaleCodec
  import opened ScaleRoundTrip
  import CI = CompactInteger

  // ---- The format ----

  function LittleEndian(u: nat, n: nat): Bytes {
    seq(n, i requires 0 <= i < n => u / Pow256(i) % 256)
  }

  function BigEndian(u: nat, n: nat): Bytes {
    seq(n, i requires 0 <= i < n => u / Pow256(n - 1 - i) % 256)
  }

  /** The number of bytes of a number above 255. */
  ghost function Width(v: nat): (n: nat)
    requires v >= 256
    ensures n > 1 && Pow256(n - 1) <= v < Pow256(n)
  {
    CI.ByteCountBounds(v);
    var n: nat :| n > 1 && Pow256(n - 1) <= v < Pow256(n);
    n
  }

  /** The length in the low two bits of the first byte, in four modes. */
  ghost function CompactForm(v: nat): Bytes
    requires v < Pow256(67)
  {
    if v < 0x40 then [4 * v]
    else if v < 0x4000 then LittleEndian(4 * v + 1, 2)
    else if v < 0x4000_0000 then LittleEndian(4 * v + 2, 4)
    else
      WidthBound(v);
      [4 * (Width(v) - 4) + 3] + LittleEndian(v, Width(v))
  }

  lemma WidthUnique(v: nat, n: nat)
    requires v >= 256 && n > 1 && Pow256(n - 1) <= v < Pow256(n)
    ensures Width(v) == n
  {
    hide Pow256;
    var m := Width(v);
    if m < n {
      Pow256Mono(m, n - 1);
    } else if n < m {
      Pow256Mono(n, m - 1);
    }
  }

  lemma WidthBound(v: nat)
    requires 0x4000_0000 <= v < Pow256(67)
    ensures 4 <= Width(v) <= 67 && Width(v) == CI.ByteCount(v)
  {
    hide Pow256;
    CI.ByteCountBounds(v);
    CI.BigNeedsFour(v);
    CI.FitsIff(v, 67);
    WidthUnique(v, CI.ByteCount(v));
  }

  /** Parts one after another. */
  function Flatten(parts: seq<Bytes>): Bytes {
    if parts == [] then [] else parts[0] + Flatten(parts[1..])
  }

  ghost function Format(t: ScaleType, v: ScaleValue): Bytes
    requires HasType(t, v) && CompactsFit(t, v)
    decreases t
  {
    match t
    case Integer(size, _) => LittleEndian(if v.i >= 0 then v.i else Pow256(size) + v.i, size)
    case Boolean => [if v.b then 1 else 0]
    case Compact => CompactForm(v.i)
    case U256 => BigEndian(v.i, 32)
    case S256 => BigEndian(if v.i >= 0 then v.i else TWO256 + v.i, 32)
    case FixedBytes(_) => LengthForm(|v.s|) + v.s
    case Str => LengthForm(|v.s|) + v.s
    case Vector(e) =>
      LengthForm(|v.vs|) + Flatten(seq(|v.vs|, i requires 0 <= i < |v.vs| => Format(e, v.vs[i])))
    case Array(e, _) => Flatten(seq(|v.vs|, i requires 0 <= i < |v.vs| => Format(e, v.vs[i])))
    case Map(k, e) =>
      var es := v.entries;
      LengthForm(|es|) +
      Flatten(seq(|es|, i requires 0 <= i < |es| => Format(k, es[i].k) + Format(e, es[i].v)))
    case Optional(e) =>
      if v.o.None? then [0]
      else if e == Boolean then [if v.o.value.b then 1 else 2]
      else [1] + Format(e, v.o.value)
    case Variant(alts) => [v.which] + Format(alts[v.which], v.inner)
    case Tuple(ts) => Flatten(seq(|ts|, i requires 0 <= i < |ts| => Format(ts[i], v.vs[i])))
  }

  ghost function LengthForm(n: nat): Bytes
    requires n < TWO64
  {
    LengthFits(n);
    CompactForm(n)
  }

  lemma LengthFits(n: nat)
    requires n < TWO64
    ensures n < Pow256(67)
  {
    hide Pow256;
    Pow256Wide();
    Pow256Mono(8, 67);
  }

  // ---- The encoder writes it ----

  lemma LittleEndianIs(u: nat, n: nat)
    ensures LeBytes(u, n) == LittleEndian(u, n)
  {
    hide LeBytes;
    forall i | 0 <= i < n
      ensures LeBytes(u, n)[i] == LittleEndian(u, n)[i]
    {
      LeDigit(u, n, i);
    }
  }

  lemma BigEndianIs(u: nat, n: nat)
    ensures BeBytes(u, n) == BigEndian(u, n)
  {
    hide BeBytes;
    forall i | 0 <= i < n
      ensures BeBytes(u, n)[i] == BigEndian(u, n)[i]
    {
      BeDigit(u, n, i);
    }
  }

  lemma CompactWritten(v: nat)
    requires v < Pow256(67)
    ensures CI.EncodeCompact(v) == Some(CompactForm(v))
  {
    hide Pow256, LeBytes, CI.ByteCount;
    CI.EncodableIff(v);
    if v < 0x40 {
    } else if v < 0x4000 {
      LittleEndianIs(4 * v + 1, 2);
      TwoBytes(4 * v + 1);
    } else if v < 0x4000_0000 {
      LittleEndianIs(4 * v + 2, 4);
    } else {
      WidthBound(v);
      LittleEndianIs(v, Width(v));
    }
  }

  lemma TwoBytes(w: nat)
    requires w < 0x1_0000
    ensures LeBytes(w, 2) == [w % 256, w / 256]
  {
    assert LeBytes(w / 256, 1) == [w / 256 % 256] + LeBytes(w / 256 / 256, 0);
  }

  lemma LengthWritten(n: nat)
    requires n < TWO64
    ensures CI.EncodeCompact(n) == Some(LengthForm(n))
  {
    LengthFits(n);
    CompactWritten(n);
  }

  /** Every value the encoder accepts is written as the format says. */
  lemma {:induction false} FormatWritten(t: ScaleType, v: ScaleValue)
    requires HasType(t, v) && CompactsFit(t, v)
    ensures Encode(t, v) == Some(Format(t, v))
    decreases t
  {
    hide CI.EncodeCompact, CompactForm, LengthForm, LittleEndian, BigEndian, LeBytes, BeBytes, Flatten;
    match t
    case Integer(size, signed) => LittleEndianIs(Unsigned(size, v.i), size);
    case Boolean =>
    case Compact => CompactWritten(v.i);
    case U256 => BigEndianIs(v.i, 32);
    case S256 => BigEndianIs(S2u(v.i), 32);
    case FixedBytes(_) => LengthWritten(|v.s|);
    case Str => LengthWritten(|v.s|);
    case Vector(_) =>
      LengthWritten(|v.vs|);
      EachWritten(t, v.vs);
    case Array(_, _) => EachWritten(t, v.vs);
    case Map(_, _) =>
      LengthWritten(|v.entries|);
      EntriesWritten(t, v.entries);
    case Optional(e) => if v.o.Some? { FormatWritten(e, v.o.value); }
    case Variant(alts) => FormatWritten(alts[v.which], v.inner);
    case Tuple(ts) => MembersWritten(ts, v.vs);
  }

  lemma {:induction false} EachWritten(t: ScaleType, vs: seq<ScaleValue>)
    requires t.Vector? || t.Array?
    requires forall i :: 0 <= i < |vs| ==> HasType(t.elem, vs[i]) && CompactsFit(t.elem, vs[i])
    ensures EncodeEach(t, vs) ==
            Some(Flatten(seq(|vs|, i requires 0 <= i < |vs| => Format(t.elem, vs[i]))))
    decreases t, |vs|
  {
    hide Encode, Format, HasType, CompactsFit;
    var parts := seq(|vs|, i requires 0 <= i < |vs| => Format(t.elem, vs[i]));
    if vs != [] {
      var rest := vs[1..];
      FormatWritten(t.elem, vs[0]);
      EachWritten(t, rest);
      assert parts[1..] == seq(|rest|, i requires 0 <= i < |rest| => Format(t.elem, rest[i]));
    }
  }

  lemma {:induction false} EntriesWritten(t: ScaleType, es: seq<Entry>)
    requires t.Map?
    requires forall i :: 0 <= i < |es| ==> HasType(t.key, es[i].k) && HasType(t.val, es[i].v)
    requires forall i :: 0 <= i < |es| ==> CompactsFit(t.key, es[i].k) && CompactsFit(t.val, es[i].v)
    ensures EncodeEntries(t, es) ==
            Some(Flatten(seq(|es|, i requires 0 <= i < |es| => Format(t.key, es[i].k) + Format(t.val, es[i].v))))
    decreases t, |es|
  {
    hide Encode, Format, HasType, CompactsFit;
    var parts := seq(|es|, i requires 0 <= i < |es| => Format(t.key, es[i].k) + Format(t.val, es[i].v));
    if es != [] {
      var rest := es[1..];
      FormatWritten(t.key, es[0].k);
      FormatWritten(t.val, es[0].v);
      EntriesWritten(t, rest);
      assert parts[1..] ==
             seq(|rest|, i requires 0 <= i < |rest| => Format(t.key, rest[i].k) + Format(t.val, rest[i].v));
    }
  }

  lemma {:induction false} MembersWritten(ts: seq<ScaleType>, vs: seq<ScaleValue>)
    requires |ts| == |vs|
    requires forall i :: 0 <= i < |ts| ==> HasType(ts[i], vs[i]) && CompactsFit(ts[i], vs[i])
    ensures EncodeMembers(ts, vs) == Some(Flatten(seq(|ts|, i requires 0 <= i < |ts| => Format(ts[i], vs[i]))))
    decreases ts
  {
    hide Encode, Format, HasType, CompactsFit;
    var parts := seq(|ts|, i requires 0 <= i < |ts| => Format(ts[i], vs[i]));
    if ts != [] {
      var types, rest := ts[1..], vs[1..];
      FormatWritten(ts[0], vs[0]);
      MembersWritten(types, rest);
      assert parts[1..] == seq(|types|, i requires 0 <= i < |types| => Format(types[i], rest[i]));
    }
  }

  // ---- Bytes that follow, and bytes that are missing ----

  /** The stream with more bytes at its end. */
  function Longer<T>(r: Option<(T, Bytes)>, x: Bytes): Option<(T, Bytes)> {
    if r.None? then None else Some((r.value.0, r.value.1 + x))
  }

  lemma CompactExtends(s: Bytes, x: Bytes)
    requires CI.DecodeCompact(s).Some?
    ensures CI.DecodeCompact(s + x) == Longer(CI.DecodeCompact(s), x)
  {
    hide LeValue;
    var first: int := s[0];
    var n := first / 4 + 4;
    if first % 4 == 0 {
      assert (s + x)[1..] == s[1..] + x;
    } else if first % 4 == 1 {
      assert (s + x)[2..] == s[2..] + x;
    } else if first % 4 == 2 {
      assert (s + x)[..4] == s[..4] && (s + x)[4..] == s[4..] + x;
    } else {
      assert (s + x)[1..1 + n] == s[1..1 + n] && (s + x)[1 + n..] == s[1 + n..] + x;
    }
  }

  lemma BlobExtends(s: Bytes, x: Bytes)
    requires DecodeBlob(s).Some?
    ensures DecodeBlob(s + x) == Longer(DecodeBlob(s), x)
  {
    hide CI.DecodeCompact;
    CompactExtends(s, x);
    var r := CI.DecodeCompact(s).value;
    var n := r.0 % TWO64;
    assert (r.1 + x)[..n] == r.1[..n] && (r.1 + x)[n..] == r.1[n..] + x;
  }

  /** What the decoder reads does not depend on what follows it. */
  lemma {:induction false} DecodeExtends(t: ScaleType, s: Bytes, x: Bytes)
    requires Decode(t, s).Some?
    ensures Decode(t, s + x) == Longer(Decode(t, s), x)
    decreases t
  {
    hide CI.DecodeCompact, LeValue, BeValue;
    match t
    case Integer(size, _) => assert (s + x)[..size] == s[..size] && (s + x)[size..] == s[size..] + x;
    case Boolean => assert (s + x)[1..] == s[1..] + x;
    case Compact => CompactExtends(s, x);
    case U256 => assert (s + x)[..32] == s[..32] && (s + x)[32..] == s[32..] + x;
    case S256 => assert (s + x)[..32] == s[..32] && (s + x)[32..] == s[32..] + x;
    case FixedBytes(_) => BlobExtends(s, x);
    case Str => BlobExtends(s, x);
    case Vector(_) => VectorExtends(t, s, x);
    case Array(_, n) => EachExtends(t, n, s, x);
    case Map(_, _) => MapExtends(t, s, x);
    case Optional(e) =>
      assert (s + x)[1..] == s[1..] + x;
      if e != Boolean && s[0] == 1 {
        DecodeExtends(e, s[1..], x);
      }
    case Variant(alts) =>
      assert (s + x)[1..] == s[1..] + x;
      DecodeExtends(alts[s[0]], s[1..], x);
    case Tuple(ts) => MembersExtend(ts, s, x);
  }

  lemma {:induction false} VectorExtends(t: ScaleType, s: Bytes, x: Bytes)
    requires t.Vector? && Decode(t, s).Some?
    ensures Decode(t, s + x) == Longer(Decode(t, s), x)
    decreases t, TWO64
  {
    hide CI.DecodeCompact, DecodeEach, FromBytes, OneByte;
    CompactExtends(s, x);
    var r := CI.DecodeCompact(s).value;
    var n := r.0 % TWO64;
    if OneByte(t.elem) {
      assert (r.1 + x)[..n] == r.1[..n] && (r.1 + x)[n..] == r.1[n..] + x;
    } else {
      EachExtends(t, n, r.1, x);
    }
  }

  lemma {:induction false} MapExtends(t: ScaleType, s: Bytes, x: Bytes)
    requires t.Map? && Decode(t, s).Some?
    ensures Decode(t, s + x) == Longer(Decode(t, s), x)
    decreases t, TWO64
  {
    hide CI.DecodeCompact, DecodeEntries;
    CompactExtends(s, x);
    var r := CI.DecodeCompact(s).value;
    EntriesExtend(t, r.0 % TWO64, r.1, [], x);
  }

  lemma {:induction false} EachExtends(t: ScaleType, n: nat, s: Bytes, x: Bytes)
    requires (t.Vector? || t.Array?) && DecodeEach(t, n, s).Some?
    ensures DecodeEach(t, n, s + x) == Longer(DecodeEach(t, n, s), x)
    decreases t, n
  {
    hide Decode;
    if n > 0 {
      DecodeExtends(t.elem, s, x);
      EachExtends(t, n - 1, Decode(t.elem, s).value.1, x);
    }
  }

  lemma {:induction false} EntriesExtend(t: ScaleType, n: nat, s: Bytes, acc: seq<Entry>, x: Bytes)
    requires t.Map? && DecodeEntries(t, n, s, acc).Some?
    ensures DecodeEntries(t, n, s + x, acc) == Longer(DecodeEntries(t, n, s, acc), x)
    decreases t, n
  {
    hide Decode, Emplace;
    if n > 0 {
      var k := Decode(t.key, s).value;
      var v := Decode(t.val, k.1).value;
      DecodeExtends(t.key, s, x);
      DecodeExtends(t.val, k.1, x);
      EntriesExtend(t, n - 1, v.1, Emplace(acc, Entry(k.0, v.0)), x);
    }
  }

  lemma {:induction false} MembersExtend(ts: seq<ScaleType>, s: Bytes, x: Bytes)
    requires DecodeMembers(ts, s).Some?
    ensures DecodeMembers(ts, s + x) == Longer(DecodeMembers(ts, s), x)
    decreases ts
  {
    hide Decode;
    if ts != [] {
      DecodeExtends(ts[0], s, x);
      MembersExtend(ts[1..], Decode(ts[0], s).value.1, x);
    }
  }

  /** A stream cut short anywhere inside an encoding throws. */
  lemma CutShortThrows(t: ScaleType, v: ScaleValue, n: nat)
    requires HasType(t, v) && Recoverable(t, v) && Encode(t, v).Some? && n < |Encode(t, v).value|
    ensures Decode(t, Encode(t, v).value[..n]).None?
  {
    hide Encode, Decode, HasType, Recoverable;
    var e := Encode(t, v).value;
    if Decode(t, e[..n]).Some? {
      DecodeExtends(t, e[..n], e[n..]);
      assert e[..n] + e[n..] == e && e + [] == e;
      RoundTrip(t, v, []);
    }
  }

  // ---- Bytes that are accepted though no encoder writes them ----

  /** A fixed byte string takes the front of a longer one, and refuses a shorter
      one. */
  lemma FixedFromLonger(n: nat, x: Bytes, rest: Bytes)
    requires |x| < TWO64
    ensures Decode(FixedBytes(n), LengthForm(|x|) + x + rest) ==
            if |x| < n then None else Some((Blob(x[..n]), rest))
  {
    hide LengthForm, DecodeBlob, CI.EncodeCompact;
    LengthWritten(|x|);
    BlobRoundTrip(x, rest);
    assert EncodeBlob(x).value == LengthForm(|x|) + x;
  }

  /** In a vector of booleans every byte but zero is true. */
  lemma CopiedBooleans(x: Bytes, rest: Bytes)
    requires |x| < TWO64
    ensures var r := Decode(Vector(Boolean), LengthForm(|x|) + x + rest);
            && r.Some? && r.value.1 == rest && r.value.0.Seq? && |r.value.0.vs| == |x|
            && forall i :: 0 <= i < |x| ==> r.value.0.vs[i] == Bool(x[i] != 0)
  {
    hide LengthForm, CI.EncodeCompact, CI.DecodeCompact;
    LengthWritten(|x|);
    assert LengthForm(|x|) + x + rest == LengthForm(|x|) + (x + rest);
    CI.RoundTrip(|x|, x + rest);
    assert (x + rest)[..|x|] == x && (x + rest)[|x|..] == rest;
  }

  /** A length counts modulo 2^64. */
  lemma LengthWraps(k: nat, x: Bytes, rest: Bytes)
    requires |x| < TWO64 && k * TWO64 + |x| < Pow256(67)
    ensures Decode(Str, CompactForm(k * TWO64 + |x|) + x + rest) == Some((Blob(x), rest))
  {
    hide CompactForm, CI.EncodeCompact, CI.DecodeCompact, Pow256;
    var n: nat := k * TWO64 + |x|;
    CompactWritten(n);
    assert CompactForm(n) + x + rest == CompactForm(n) + (x + rest);
    CI.RoundTrip(n, x + rest);
    DivModUnique(n, k, |x|, TWO64);
    assert (x + rest)[..|x|] == x && (x + rest)[|x|..] == rest;
  }
}
