/** The SCALE encoder stream: a growing byte buffer that the `<<` overloads
    append to (libcodec/scale/ScaleEncoderStream.h and .cpp). */
module ScaleEncoder {
  import opened Wrappers
  import opened Bytes
  import opened ScaleCodec
  import CI = CompactInteger

  class ScaleEncoderStream {
    var stream: Bytes

    constructor ()
      ensures stream == []
    {
      stream := [];
    }

    method PutByte(v: Byte)
      modifies this
      ensures stream == old(stream) + [v]
    {
      stream := stream + [v];
    }

    /** encodeInteger: the bytes of a little-endian buffer, one by one. */
    method EncodeInteger(value: nat, size: nat)
      modifies this
      ensures stream == old(stream) + LeBytes(value, size)
    {
      var v, i := value, 0;
      while i < size
        invariant 0 <= i <= size
        invariant stream + LeBytes(v, size - i) == old(stream) + LeBytes(value, size)
      {
        ghost var before := stream;
        ghost var w := v;
        PutByte(v % 256);
        v := v / 256;
        i := i + 1;
        assert LeBytes(w, size - i + 1) == [w % 256] + LeBytes(v, size - i);
        assert stream + LeBytes(v, size - i) == before + LeBytes(w, size - i + 1);
      }
      assert stream + [] == stream;
    }

    method EncodeSecondCategory(value: nat)
      requires value < CI.MIN_UINT32
      modifies this
      ensures var w := value * 4 + 1; stream == old(stream) + [w % 256, w / 256]
    {
      var v := value * 4 + 1;
      PutByte(v % 256);
      PutByte(v / 256);
    }

    /** The multi-byte mode: a header with the length, then the value. */
    method EncodeBigInteger(value: nat) returns (ok: bool)
      requires value >= CI.MIN_BIG_INTEGER
      modifies this
      ensures ok <==> CI.EncodeCompact(value).Some?
      ensures stream == old(stream) + if ok then CI.EncodeCompact(value).value else []
    {
      hide LeBytes, CI.ByteCount;
      var length := CI.CountBytes(value);
      ok := length <= CI.MAX_BIG_BYTES;
      if ok {
        CI.BigNeedsFour(value);
        var header := (length - 4) * 4 + 3;
        PutByte(header);
        EncodeInteger(value, length);
        assert stream == old(stream) + ([header] + LeBytes(value, length));
      }
    }

    /** encodeCompactInteger; false stands for a thrown exception. */
    method EncodeCompactInteger(value: int) returns (ok: bool)
      modifies this
      ensures ok <==> CI.EncodeCompact(value).Some?
      ensures stream == old(stream) + if ok then CI.EncodeCompact(value).value else []
    {
      hide LeBytes, CI.ByteCount;
      ok := value >= 0;
      if !ok {
      } else if value < CI.MIN_UINT16 {
        PutByte(value * 4);
      } else if value < CI.MIN_UINT32 {
        EncodeSecondCategory(value);
      } else if value < CI.MIN_BIG_INTEGER {
        EncodeInteger(value * 4 + 2, 4);
      } else {
        ok := EncodeBigInteger(value);
      }
    }

    /** A 256-bit word goes out as 32 big-endian bytes. */
    method EncodeWord(value: nat)
      modifies this
      ensures stream == old(stream) + BeBytes(value, 32)
    {
      var buffer := new Byte[32];
      ToBigEndian(value, buffer);
      stream := stream + buffer[..];
    }

    /** encodeCollection over single bytes. */
    method EncodeBlobValue(s: Bytes) returns (ok: bool)
      modifies this
      ensures ok <==> EncodeBlob(s).Some?
      ensures ok ==> stream == old(stream) + EncodeBlob(s).value
    {
      ok := EncodeCompactInteger(|s|);
      if !ok {
        return;
      }
      ghost var start := stream;
      for i := 0 to |s|
        invariant stream == start + s[..i]
      {
        PutByte(s[i]);
      }
      assert s[..|s|] == s;
    }

    /** `<<` on a value of any supported type; false stands for a thrown
        exception. */
    method EncodeValue(t: ScaleType, v: ScaleValue) returns (ok: bool)
      requires HasType(t, v)
      modifies this
      ensures ok <==> Encode(t, v).Some?
      ensures ok ==> stream == old(stream) + Encode(t, v).value
      decreases t
    {
      hide CI.EncodeCompact, LeBytes, BeBytes, Pow256;
      match t
      case Integer(size, signed) =>
        EncodeInteger(Unsigned(size, v.i), size);
        ok := true;
      case Boolean =>
        PutByte(if v.b then 1 else 0);
        ok := true;
      case Compact => ok := EncodeCompactInteger(v.i);
      case U256 =>
        EncodeWord(v.i);
        ok := true;
      case S256 =>
        EncodeWord(S2u(v.i));
        ok := true;
      case FixedBytes(_) => ok := EncodeBlobValue(v.s);
      case Str => ok := EncodeBlobValue(v.s);
      case Vector(_) =>
        ok := EncodeCompactInteger(|v.vs|);
        if ok {
          ok := EncodeElements(t, v.vs);
        }
      case Array(_, _) => ok := EncodeElements(t, v.vs);
      case Map(_, _) =>
        ok := EncodeCompactInteger(|v.entries|);
        if ok {
          ok := EncodePairs(t, v.entries);
        }
      case Optional(e) =>
        if e == Boolean {
          PutByte(if v.o.None? then 0 else if v.o.value.b then 1 else 2);
          ok := true;
        } else if v.o.None? {
          PutByte(0);
          ok := true;
        } else {
          PutByte(1);
          ok := EncodeValue(e, v.o.value);
        }
      case Variant(_) => ok := TryEncodeAsOneOfVariant(t, v, 0);
      case Tuple(ts) => ok := EncodeElementOfTuple(ts, v.vs);
    }

    /** The loop over the elements of a vector or an array. */
    method EncodeElements(t: ScaleType, vs: seq<ScaleValue>) returns (ok: bool)
      requires t.Vector? || t.Array?
      requires forall i :: 0 <= i < |vs| ==> HasType(t.elem, vs[i])
      modifies this
      ensures ok <==> EncodeEach(t, vs).Some?
      ensures ok ==> stream == old(stream) + EncodeEach(t, vs).value
      decreases t, 0
    {
      hide Encode, HasType;
      var i := 0;
      while i < |vs|
        invariant 0 <= i <= |vs|
        invariant EncodeEach(t, vs).Some? <==> EncodeEach(t, vs[i..]).Some?
        invariant EncodeEach(t, vs).Some? ==>
                    stream + EncodeEach(t, vs[i..]).value == old(stream) + EncodeEach(t, vs).value
      {
        ghost var before, todo := stream, vs[i..];
        assert todo[0] == vs[i] && todo[1..] == vs[i + 1..];
        ok := EncodeValue(t.elem, vs[i]);
        if !ok {
          return;
        }
        i := i + 1;
        if EncodeEach(t, vs).Some? {
          assert stream + EncodeEach(t, vs[i..]).value == before + EncodeEach(t, todo).value;
        }
      }
      assert vs[i..] == [] && stream + [] == stream;
      ok := true;
    }

    method EncodePair(t: ScaleType, e: Entry) returns (ok: bool)
      requires t.Map? && HasType(t.key, e.k) && HasType(t.val, e.v)
      modifies this
      ensures ok <==> Encode(t.key, e.k).Some? && Encode(t.val, e.v).Some?
      ensures ok ==> stream == old(stream) + (Encode(t.key, e.k).value + Encode(t.val, e.v).value)
      decreases t, 0
    {
      ok := EncodeValue(t.key, e.k);
      if ok {
        ok := EncodeValue(t.val, e.v);
      }
    }

    /** The loop over the pairs of a map. */
    method EncodePairs(t: ScaleType, es: seq<Entry>) returns (ok: bool)
      requires t.Map?
      requires forall i :: 0 <= i < |es| ==> HasType(t.key, es[i].k) && HasType(t.val, es[i].v)
      modifies this
      ensures ok <==> EncodeEntries(t, es).Some?
      ensures ok ==> stream == old(stream) + EncodeEntries(t, es).value
      decreases t, 1
    {
      hide Encode, HasType;
      var i := 0;
      while i < |es|
        invariant 0 <= i <= |es|
        invariant EncodeEntries(t, es).Some? <==> EncodeEntries(t, es[i..]).Some?
        invariant EncodeEntries(t, es).Some? ==>
                    stream + EncodeEntries(t, es[i..]).value == old(stream) + EncodeEntries(t, es).value
      {
        ghost var before, todo := stream, es[i..];
        assert todo[0] == es[i] && todo[1..] == es[i + 1..];
        ok := EncodePair(t, es[i]);
        if !ok {
          return;
        }
        i := i + 1;
        if EncodeEntries(t, es).Some? {
          assert stream + EncodeEntries(t, es[i..]).value == before + EncodeEntries(t, todo).value;
        }
      }
      assert es[i..] == [] && stream + [] == stream;
      ok := true;
    }

    /** encodeElementOfTuple: one member, then the following ones. */
    method EncodeElementOfTuple(ts: seq<ScaleType>, vs: seq<ScaleValue>) returns (ok: bool)
      requires |ts| == |vs|
      requires forall i :: 0 <= i < |ts| ==> HasType(ts[i], vs[i])
      modifies this
      ensures ok <==> EncodeMembers(ts, vs).Some?
      ensures ok ==> stream == old(stream) + EncodeMembers(ts, vs).value
      decreases ts
    {
      if |ts| == 0 {
        assert stream + [] == stream;
        return true;
      }
      ok := EncodeValue(ts[0], vs[0]);
      if ok {
        ok := EncodeElementOfTuple(ts[1..], vs[1..]);
      }
    }

    /** tryEncodeAsOneOfVariant: the first alternative of the held type. */
    method TryEncodeAsOneOfVariant(t: ScaleType, v: ScaleValue, i: nat) returns (ok: bool)
      requires t.Variant? && HasType(t, v) && i <= v.which
      modifies this
      ensures ok <==> Encode(t, v).Some?
      ensures ok ==> stream == old(stream) + Encode(t, v).value
      decreases t, |t.alts| - i
    {
      if t.alts[i] == t.alts[v.which] {
        assert i == v.which;
        PutByte(i);
        ok := EncodeValue(t.alts[i], v.inner);
      } else {
        ok := TryEncodeAsOneOfVariant(t, v, i + 1);
      }
    }
  }
}
