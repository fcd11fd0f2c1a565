/** The SCALE decoder stream: a cursor over a span of bytes that the `>>`
    overloads advance (libcodec/scale/ScaleDecoderStream.h and .cpp,
    FixedWidthIntegerCodec.h). A None result stands for a thrown exception. */
module ScaleDecoder {
  import opened Wrappers
  import opened Bytes
  import opened ScaleCodec
  import CI = CompactInteger

  /** decodeInteger's `-static_cast<I>((~v) + 1)` for a set sign bit, where ~
      acts on 64 bits and the cast keeps `size` bytes. */
  function NegatedComplement(size: nat, v: nat): int
    requires IsWidth(size) && Pow256(size) <= 2 * v < 2 * Pow256(size)
  {
    var low := (TWO64 - v) % Pow256(size);
    if 2 * low == Pow256(size) then low - Pow256(size) else -low
  }

  lemma NegatedComplementValue(size: nat, v: nat)
    requires IsWidth(size) && Pow256(size) <= 2 * v < 2 * Pow256(size)
    ensures NegatedComplement(size, v) == Reinterpret(size, true, v)
  {
    hide Pow256;
    var p, q := Pow256(size), Pow256(8 - size);
    Pow256Wide();
    Pow256Add(8 - size, size);
    assert TWO64 - v == (q - 1) * p + (p - v);
    DivModUnique(TWO64 - v, q - 1, p - v, p);
  }

  class ScaleDecoderStream {
    const span: Bytes
    var currentIndex: nat

    predicate Valid()
      reads this
    {
      currentIndex <= |span|
    }

    /** The bytes not read yet. */
    function Remaining(): (s: Bytes)
      requires Valid()
      reads this
    {
      span[currentIndex..]
    }

    constructor (data: Bytes)
      ensures Valid() && Remaining() == data
    {
      span := data;
      currentIndex := 0;
    }

    predicate HasMore(n: nat)
      reads this
    {
      currentIndex + n <= |span|
    }

    method NextByte() returns (r: Option<Byte>)
      requires Valid()
      modifies this
      ensures Valid()
      ensures r.Some? <==> old(Remaining()) != []
      ensures r.Some? ==> r.value == old(Remaining())[0] && Remaining() == old(Remaining())[1..]
    {
      if !HasMore(1) {
        return None;
      }
      r := Some(span[currentIndex]);
      currentIndex := currentIndex + 1;
    }

    /** The loops that add up bytes with a growing multiplier. */
    method ReadLittleEndian(n: nat) returns (v: nat)
      requires Valid() && HasMore(n)
      modifies this
      ensures Valid() && v == LeValue(old(Remaining())[..n])
      ensures Remaining() == old(Remaining())[n..]
    {
      ghost var s := Remaining();
      v := 0;
      var multiplier := 1;
      for i := 0 to n
        invariant Valid() && HasMore(n - i) && Remaining() == s[i..]
        invariant v == LeValue(s[..i]) && multiplier == Pow256(i)
      {
        var b: int := span[currentIndex];
        currentIndex := currentIndex + 1;
        LeValueAppend(s[..i], s[i]);
        assert s[..i] + [s[i]] == s[..i + 1];
        v := v + multiplier * b;
        multiplier := multiplier * 256;
      }
    }

    method DecodeInteger(size: nat, signed: bool) returns (r: Option<int>)
      requires Valid() && IsWidth(size)
      modifies this
      ensures Valid()
      ensures r.Some? <==> |old(Remaining())| >= size
      ensures r.Some? ==>
                var u := LeValue(old(Remaining())[..size]);
                u < Pow256(size) && r.value == Reinterpret(size, signed, u) &&
                Remaining() == old(Remaining())[size..]
    {
      if !HasMore(size) {
        return None;
      }
      LeValueBound(Remaining()[..size]);
      var v := ReadLittleEndian(size);
      if !signed || 2 * v < Pow256(size) {
        r := Some(v);
      } else {
        NegatedComplementValue(size, v);
        r := Some(NegatedComplement(size, v));
      }
    }

    method DecodeCompactInteger() returns (r: Option<nat>)
      requires Valid()
      modifies this
      ensures Valid()
      ensures match CI.DecodeCompact(old(Remaining()))
              case None => r == None
              case Some((v, rest)) => r == Some(v) && Remaining() == rest
    {
      hide LeValue;
      ghost var s := Remaining();
      var b := NextByte();
      if b.None? {
        return None;
      }
      var first: int := b.value;
      match first % 4
      case 0 => r := Some(first / 4);
      case 1 =>
        var c := NextByte();
        if c.None? {
          return None;
        }
        var second: int := c.value;
        r := Some((first - first % 4 + second * 256) / 4);
        assert Remaining() == s[2..];
      case 2 =>
        if !HasMore(3) {
          return None;
        }
        var high := ReadLittleEndian(3);
        FourBytes(s);
        r := Some((first + 256 * high) / 4);
        assert Remaining() == s[4..];
      case _ =>
        var count := first / 4 + 4;
        if !HasMore(count) {
          return None;
        }
        var value := ReadLittleEndian(count);
        assert s[1..][..count] == s[1..1 + count] && s[1..][count..] == s[1 + count..];
        r := Some(value);
    }

    static lemma FourBytes(s: Bytes)
      requires |s| >= 4
      ensures LeValue(s[..4]) == s[0] + 256 * LeValue(s[1..][..3])
    {
      assert s[..4][1..] == s[1..][..3];
    }

    method DecodeWord() returns (r: Option<nat>)
      requires Valid()
      modifies this
      ensures Valid()
      ensures r.Some? <==> |old(Remaining())| >= 32
      ensures r.Some? ==>
                r.value == BeValue(old(Remaining())[..32]) < TWO256 &&
                Remaining() == old(Remaining())[32..]
    {
      if !HasMore(32) {
        return None;
      }
      var word := span[currentIndex..currentIndex + 32];
      assert word == Remaining()[..32];
      currentIndex := currentIndex + 32;
      var v := FromBigEndian(word, TWO256);
      WordBound(word);
      DivModUnique(BeValue(word), 0, BeValue(word), TWO256);
      r := Some(v);
    }

    /** The raw copy that decodes strings and byte vectors. */
    method DecodeBlobValue() returns (r: Option<Bytes>)
      requires Valid()
      modifies this
      ensures Valid()
      ensures match DecodeBlob(old(Remaining()))
              case None => r == None
              case Some((v, rest)) => r == Some(v) && Remaining() == rest
    {
      hide CI.DecodeCompact;
      var size := DecodeCompactInteger();
      if size.None? {
        return None;
      }
      var count := size.value % TWO64;
      if !HasMore(count) {
        return None;
      }
      r := Some(span[currentIndex..currentIndex + count]);
      assert r.value == Remaining()[..count];
      currentIndex := currentIndex + count;
    }

    /** `>>` into a value of any supported type. */
    method DecodeValue(t: ScaleType) returns (r: Option<ScaleValue>)
      requires Valid() && Supported(t)
      modifies this
      ensures Valid()
      ensures match Decode(t, old(Remaining()))
              case None => r == None
              case Some((v, rest)) => r == Some(v) && Remaining() == rest
      decreases t
    {
      hide CI.DecodeCompact, LeValue, BeValue, Pow256;
      match t
      case Integer(size, signed) =>
        var v := DecodeInteger(size, signed);
        r := if v.None? then None else Some(Int(v.value));
      case Boolean =>
        var b := NextByte();
        r := if b.None? || b.value > 1 then None else Some(Bool(b.value == 1));
      case Compact =>
        var v := DecodeCompactInteger();
        r := if v.None? then None else Some(Int(v.value));
      case U256 =>
        var v := DecodeWord();
        r := if v.None? then None else Some(Int(v.value));
      case S256 =>
        var v := DecodeWord();
        r := if v.None? then None else Some(Int(U2s(v.value)));
      case FixedBytes(n) =>
        var v := DecodeBlobValue();
        r := if v.None? || |v.value| < n then None else Some(Blob(v.value[..n]));
      case Str =>
        var v := DecodeBlobValue();
        r := if v.None? then None else Some(Blob(v.value));
      case Vector(_) => r := DecodeVector(t);
      case Array(_, n) =>
        var vs := DecodeElements(t, n);
        r := if vs.None? then None else Some(Seq(vs.value));
      case Map(_, _) =>
        var size := DecodeCompactInteger();
        if size.None? {
          return None;
        }
        var es := DecodePairs(t, size.value % TWO64);
        r := if es.None? then None else Some(Assoc(es.value));
      case Optional(_) => r := DecodeOptional(t);
      case Variant(_) => r := DecodeVariant(t);
      case Tuple(ts) =>
        var vs := DecodeElementOfTuple(ts);
        r := if vs.None? then None else Some(Seq(vs.value));
    }

    method DecodeVector(t: ScaleType) returns (r: Option<ScaleValue>)
      requires Valid() && t.Vector? && Supported(t)
      modifies this
      ensures Valid()
      ensures match Decode(t, old(Remaining()))
              case None => r == None
              case Some((v, rest)) => r == Some(v) && Remaining() == rest
      decreases t, 1
    {
      hide CI.DecodeCompact, DecodeEach, FromBytes, OneByte;
      var size := DecodeCompactInteger();
      if size.None? {
        return None;
      }
      var n, vs := size.value % TWO64, None;
      if OneByte(t.elem) {
        vs := CopyElements(t.elem, n);
      } else {
        vs := DecodeElements(t, n);
      }
      r := if vs.None? then None else Some(Seq(vs.value));
    }

    /** Elements of one byte are not decoded but copied. */
    method CopyElements(e: ScaleType, n: nat) returns (r: Option<seq<ScaleValue>>)
      requires Valid() && OneByte(e)
      modifies this
      ensures Valid()
      ensures r.Some? <==> |old(Remaining())| >= n
      ensures r.Some? ==>
                r.value == FromBytes(e, old(Remaining())[..n]) && Remaining() == old(Remaining())[n..]
    {
      if !HasMore(n) {
        return None;
      }
      r := Some(FromBytes(e, Remaining()[..n]));
      currentIndex := currentIndex + n;
    }

    method DecodeOptional(t: ScaleType) returns (r: Option<ScaleValue>)
      requires Valid() && t.Optional? && Supported(t)
      modifies this
      ensures Valid()
      ensures match Decode(t, old(Remaining()))
              case None => r == None
              case Some((v, rest)) => r == Some(v) && Remaining() == rest
      decreases t, 0
    {
      var b := NextByte();
      if b.None? {
        return None;
      }
      if t.elem == Boolean {
        r := if b.value > 2 then None
             else Some(Opt(if b.value == 0 then None else Some(Bool(b.value == 1))));
      } else if b.value > 1 {
        r := None;
      } else if b.value == 0 {
        r := Some(Opt(None));
      } else {
        var v := DecodeValue(t.elem);
        r := if v.None? then None else Some(Opt(Some(v.value)));
      }
    }

    method DecodeVariant(t: ScaleType) returns (r: Option<ScaleValue>)
      requires Valid() && t.Variant? && Supported(t)
      modifies this
      ensures Valid()
      ensures match Decode(t, old(Remaining()))
              case None => r == None
              case Some((v, rest)) => r == Some(v) && Remaining() == rest
      decreases t, 0
    {
      var b := NextByte();
      if b.None? || b.value >= |t.alts| {
        return None;
      }
      var v := DecodeValue(t.alts[b.value]);
      r := if v.None? then None else Some(Case(b.value, v.value));
    }

    /** The loop that fills a vector or an array. */
    method DecodeElements(t: ScaleType, count: nat) returns (r: Option<seq<ScaleValue>>)
      requires Valid() && (t.Vector? || t.Array?) && Supported(t.elem)
      modifies this
      ensures Valid()
      ensures match DecodeEach(t, count, old(Remaining()))
              case None => r == None
              case Some((v, rest)) => r == Some(v) && Remaining() == rest
      decreases t, 0
    {
      hide Decode, Supported;
      var vs: seq<ScaleValue> := [];
      PrependNothing(DecodeEach(t, count, Remaining()));
      for i := 0 to count
        invariant Valid()
        invariant DecodeEach(t, count, old(Remaining())) ==
                  Prepend(vs, DecodeEach(t, count - i, Remaining()))
      {
        var v := DecodeValue(t.elem);
        if v.None? {
          return None;
        }
        PrependStep(vs, v.value, DecodeEach(t, count - i - 1, Remaining()));
        vs := vs + [v.value];
      }
      assert vs + [] == vs;
      r := Some(vs);
    }

    /** The loop that fills a map. */
    method DecodePairs(t: ScaleType, count: nat) returns (r: Option<seq<Entry>>)
      requires Valid() && t.Map? && Supported(t.key) && Supported(t.val)
      modifies this
      ensures Valid()
      ensures match DecodeEntries(t, count, old(Remaining()), [])
              case None => r == None
              case Some((v, rest)) => r == Some(v) && Remaining() == rest
      decreases t, 0
    {
      hide Decode, Supported;
      var es: seq<Entry> := [];
      for i := 0 to count
        invariant Valid()
        invariant DecodeEntries(t, count, old(Remaining()), []) ==
                  DecodeEntries(t, count - i, Remaining(), es)
      {
        var k := DecodeValue(t.key);
        if k.None? {
          return None;
        }
        var v := DecodeValue(t.val);
        if v.None? {
          return None;
        }
        es := Emplace(es, Entry(k.value, v.value));
      }
      r := Some(es);
    }

    /** decodeElementOfTuple: one member, then the following ones. */
    method DecodeElementOfTuple(ts: seq<ScaleType>) returns (r: Option<seq<ScaleValue>>)
      requires Valid() && forall i :: 0 <= i < |ts| ==> Supported(ts[i])
      modifies this
      ensures Valid()
      ensures match DecodeMembers(ts, old(Remaining()))
              case None => r == None
              case Some((v, rest)) => r == Some(v) && Remaining() == rest
      decreases ts
    {
      hide Decode, Supported;
      if |ts| == 0 {
        return Some([]);
      }
      var v := DecodeValue(ts[0]);
      if v.None? {
        return None;
      }
      var vs := DecodeElementOfTuple(ts[1..]);
      r := if vs.None? then None else Some([v.value] + vs.value);
    }
  }

  function Prepend(vs: seq<ScaleValue>, r: Option<(seq<ScaleValue>, Bytes)>): Option<(seq<ScaleValue>, Bytes)> {
    if r.None? then None else Some((vs + r.value.0, r.value.1))
  }

  lemma PrependStep(vs: seq<ScaleValue>, v: ScaleValue, r: Option<(seq<ScaleValue>, Bytes)>)
    ensures Prepend(vs, Prepend([v], r)) == Prepend(vs + [v], r)
  {
    if r.Some? {
      assert vs + ([v] + r.value.0) == vs + [v] + r.value.0;
    }
  }

  lemma PrependNothing(r: Option<(seq<ScaleValue>, Bytes)>)
    ensures Prepend([], r) == r
  {
    if r.Some? {
      assert [] + r.value.0 == r.value.0;
    }
  }

  /** Integers come in the four widths the target machine has. */
  predicate Supported(t: ScaleType)
    decreases t
  {
    match t
    case Integer(size, _) => IsWidth(size)
    case Vector(e) => Supported(e)
    case Array(e, _) => Supported(e)
    case Map(k, v) => Supported(k) && Supported(v)
    case Optional(e) => Supported(e)
    case Variant(alts) => forall i :: 0 <= i < |alts| ==> Supported(alts[i])
    case Tuple(ts) => forall i :: 0 <= i < |ts| ==> Supported(ts[i])
    case _ => true
  }
}
