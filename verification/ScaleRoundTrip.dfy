/** Decoding what was encoded, with any bytes following, gives the value back
    and stops at those bytes. */
module ScaleRoundTrip {
  import opened Wrappers
  import opened Bytes
  import opened ScaleCodec
  import CI = CompactInteger

  /** The encoder throws exactly when a compact integer in the value is out of
      range. */
  predicate CompactsFit(t: ScaleType, v: ScaleValue)
    requires HasType(t, v)
    decreases t
  {
    match t
    case Compact => 0 <= v.i < Pow256(CI.MAX_BIG_BYTES)
    case Vector(e) => forall i :: 0 <= i < |v.vs| ==> CompactsFit(e, v.vs[i])
    case Array(e, _) => forall i :: 0 <= i < |v.vs| ==> CompactsFit(e, v.vs[i])
    case Map(k, e) =>
      forall i :: 0 <= i < |v.entries| ==>
        CompactsFit(k, v.entries[i].k) && CompactsFit(e, v.entries[i].v)
    case Optional(e) => v.o.Some? ==> CompactsFit(e, v.o.value)
    case Variant(alts) => CompactsFit(alts[v.which], v.inner)
    case Tuple(ts) => forall i :: 0 <= i < |ts| ==> CompactsFit(ts[i], v.vs[i])
    case _ => true
  }

  lemma SizeFits(n: nat)
    requires n < TWO64
    ensures CI.EncodeCompact(n).Some?
  {
    if n >= CI.MIN_BIG_INTEGER {
      Pow256Wide();
      CI.FitsIff(n, 8);
    }
  }

  // ---- When encoding succeeds ----

  lemma {:induction false} EncodesIff(t: ScaleType, v: ScaleValue)
    requires HasType(t, v)
    ensures Encode(t, v).Some? <==> CompactsFit(t, v)
    decreases t
  {
    match t
    case Compact => CI.EncodableIff(v.i);
    case FixedBytes(_) => SizeFits(|v.s|);
    case Str => SizeFits(|v.s|);
    case Vector(_) => SizeFits(|v.vs|); EachEncodesIff(t, v.vs);
    case Array(_, _) => EachEncodesIff(t, v.vs);
    case Map(_, _) => SizeFits(|v.entries|); EntriesEncodeIff(t, v.entries);
    case Optional(e) => if v.o.Some? { EncodesIff(e, v.o.value); }
    case Variant(alts) => EncodesIff(alts[v.which], v.inner);
    case Tuple(ts) => MembersEncodeIff(ts, v.vs);
    case _ =>
  }

  lemma {:induction false} EachEncodesIff(t: ScaleType, vs: seq<ScaleValue>)
    requires t.Vector? || t.Array?
    requires forall i :: 0 <= i < |vs| ==> HasType(t.elem, vs[i])
    ensures EncodeEach(t, vs).Some? <==> forall i :: 0 <= i < |vs| ==> CompactsFit(t.elem, vs[i])
    decreases t, |vs|
  {
    if vs != [] {
      EncodesIff(t.elem, vs[0]);
      EachEncodesIff(t, vs[1..]);
      assert forall i :: 0 < i < |vs| ==> vs[i] == vs[1..][i - 1];
    }
  }

  lemma {:induction false} EntriesEncodeIff(t: ScaleType, es: seq<Entry>)
    requires t.Map?
    requires forall i :: 0 <= i < |es| ==> HasType(t.key, es[i].k) && HasType(t.val, es[i].v)
    ensures EncodeEntries(t, es).Some? <==>
            forall i :: 0 <= i < |es| ==> CompactsFit(t.key, es[i].k) && CompactsFit(t.val, es[i].v)
    decreases t, |es|
  {
    if es != [] {
      EncodesIff(t.key, es[0].k);
      EncodesIff(t.val, es[0].v);
      EntriesEncodeIff(t, es[1..]);
      assert forall i :: 0 < i < |es| ==> es[i] == es[1..][i - 1];
    }
  }

  lemma {:induction false} MembersEncodeIff(ts: seq<ScaleType>, vs: seq<ScaleValue>)
    requires |ts| == |vs|
    requires forall i :: 0 <= i < |ts| ==> HasType(ts[i], vs[i])
    ensures EncodeMembers(ts, vs).Some? <==> forall i :: 0 <= i < |ts| ==> CompactsFit(ts[i], vs[i])
    decreases ts
  {
    if ts != [] {
      EncodesIff(ts[0], vs[0]);
      MembersEncodeIff(ts[1..], vs[1..]);
      assert forall i :: 0 < i < |ts| ==> ts[i] == ts[1..][i - 1] && vs[i] == vs[1..][i - 1];
    }
  }

  // ---- Vectors of one-byte elements ----

  /** One byte in memory, but two when encoded: a fixed byte string of one byte
      has a length in front. */
  predicate Prefixed(t: ScaleType)
    requires OneByte(t)
  {
    t.FixedBytes? || (t.Tuple? && Prefixed(t.members[0]))
  }

  /** No vector in the value has elements that are written with a length and
      copied back without one. */
  predicate Recoverable(t: ScaleType, v: ScaleValue)
    requires HasType(t, v)
    decreases t
  {
    match t
    case Vector(e) =>
      if OneByte(e) then Prefixed(e) ==> v.vs == []
      else forall i :: 0 <= i < |v.vs| ==> Recoverable(e, v.vs[i])
    case Array(e, _) => forall i :: 0 <= i < |v.vs| ==> Recoverable(e, v.vs[i])
    case Map(k, e) =>
      forall i :: 0 <= i < |v.entries| ==> Recoverable(k, v.entries[i].k) && Recoverable(e, v.entries[i].v)
    case Optional(e) => v.o.Some? ==> Recoverable(e, v.o.value)
    case Variant(alts) => Recoverable(alts[v.which], v.inner)
    case Tuple(ts) => forall i :: 0 <= i < |ts| ==> Recoverable(ts[i], v.vs[i])
    case _ => true
  }

  /** Types all of whose values are recoverable: without vectors of such
      elements. */
  predicate Copyable(t: ScaleType)
    decreases t
  {
    match t
    case Vector(e) => if OneByte(e) then !Prefixed(e) else Copyable(e)
    case Array(e, n) => n == 0 || Copyable(e)
    case Map(k, e) => Copyable(k) && Copyable(e)
    case Optional(e) => Copyable(e)
    case Variant(alts) => forall i :: 0 <= i < |alts| ==> Copyable(alts[i])
    case Tuple(ts) => forall i :: 0 <= i < |ts| ==> Copyable(ts[i])
    case _ => true
  }

  lemma {:induction false} CopyableRecovers(t: ScaleType, v: ScaleValue)
    requires Copyable(t) && HasType(t, v)
    ensures Recoverable(t, v)
    decreases t
  {
    match t
    case Vector(e) =>
      if !OneByte(e) {
        forall i | 0 <= i < |v.vs| ensures Recoverable(e, v.vs[i]) { CopyableRecovers(e, v.vs[i]); }
      }
    case Array(e, _) =>
      forall i | 0 <= i < |v.vs| ensures Recoverable(e, v.vs[i]) { CopyableRecovers(e, v.vs[i]); }
    case Map(k, e) =>
      forall i | 0 <= i < |v.entries|
        ensures Recoverable(k, v.entries[i].k) && Recoverable(e, v.entries[i].v)
      {
        CopyableRecovers(k, v.entries[i].k);
        CopyableRecovers(e, v.entries[i].v);
      }
    case Optional(e) => if v.o.Some? { CopyableRecovers(e, v.o.value); }
    case Variant(alts) => CopyableRecovers(alts[v.which], v.inner);
    case Tuple(ts) =>
      forall i | 0 <= i < |ts| ensures Recoverable(ts[i], v.vs[i]) { CopyableRecovers(ts[i], v.vs[i]); }
    case _ =>
  }

  lemma OneMember(e: ScaleType, v: ScaleValue)
    requires HasType(e, v)
    ensures EncodeMembers([e], [v]) == Encode(e, v)
  {
    hide Encode, HasType;
    assert [e][1..] == [] && EncodeMembers([], []) == Some([]);
    if Encode(e, v).Some? {
      assert Encode(e, v).value + [] == Encode(e, v).value;
    }
  }

  /** An element is encoded by the byte it is copied from, or with a length. */
  lemma {:induction false} ByteEncodes(e: ScaleType, v: ScaleValue)
    requires OneByte(e) && HasType(e, v)
    ensures Encode(e, v).Some?
    ensures var x := Encode(e, v).value;
            if Prefixed(e) then |x| == 2 else |x| == 1 && FromByte(e, x[0]) == v
  {
    BytePow();
    match e
    case Integer(_, signed) => assert LeBytes(Unsigned(1, v.i), 1) == [Unsigned(1, v.i)];
    case FixedBytes(_) => assert CI.EncodeCompact(1) == Some([4]);
    case Tuple(ts) =>
      assert ts == [ts[0]] && v.vs == [v.vs[0]];
      ByteEncodes(ts[0], v.vs[0]);
      OneMember(ts[0], v.vs[0]);
    case Boolean =>
  }

  lemma {:induction false} BytesEncode(t: ScaleType, vs: seq<ScaleValue>)
    requires t.Vector? && OneByte(t.elem) && forall i :: 0 <= i < |vs| ==> HasType(t.elem, vs[i])
    ensures EncodeEach(t, vs).Some?
    ensures var x := EncodeEach(t, vs).value;
            if Prefixed(t.elem) then |x| == 2 * |vs| else |x| == |vs| && FromBytes(t.elem, x) == vs
    decreases |vs|
  {
    hide Encode, HasType, FromByte, OneByte, Prefixed;
    if vs != [] {
      ByteEncodes(t.elem, vs[0]);
      BytesEncode(t, vs[1..]);
      var head, tail := Encode(t.elem, vs[0]).value, EncodeEach(t, vs[1..]).value;
      if !Prefixed(t.elem) {
        var x := head + tail;
        forall i | 0 <= i < |vs|
          ensures FromBytes(t.elem, x)[i] == vs[i]
        {
          if i > 0 {
            assert x[i] == tail[i - 1] && FromBytes(t.elem, tail)[i - 1] == vs[1..][i - 1];
          }
        }
      }
    }
  }

  lemma CopyRoundTrip(t: ScaleType, v: ScaleValue, rest: Bytes)
    requires t.Vector? && OneByte(t.elem) && HasType(t, v) && Encode(t, v).Some?
    ensures Decode(t, Encode(t, v).value + rest) == Some((v, rest)) <==> Recoverable(t, v)
  {
    hide CI.EncodeCompact, CI.DecodeCompact, EncodeEach, OneByte, Prefixed, FromBytes;
    var size, body := CI.EncodeCompact(|v.vs|).value, EncodeEach(t, v.vs).value;
    assert Encode(t, v).value + rest == size + (body + rest);
    CI.RoundTrip(|v.vs|, body + rest);
    BytesEncode(t, v.vs);
    var n := |v.vs|;
    assert |(body + rest)[n..]| == |body| + |rest| - n;
    if !Prefixed(t.elem) {
      assert (body + rest)[..n] == body && (body + rest)[n..] == rest;
    } else if n == 0 {
      assert (body + rest)[..0] == [] && (body + rest)[0..] == rest;
      assert FromBytes(t.elem, []) == [];
    }
  }

  // ---- Round trip ----

  /** The round trip, for every type and every recoverable value the encoder
      accepts. */
  lemma {:induction false} RoundTrip(t: ScaleType, v: ScaleValue, rest: Bytes)
    requires HasType(t, v) && Encode(t, v).Some? && Recoverable(t, v)
    ensures Decode(t, Encode(t, v).value + rest) == Some((v, rest))
    decreases t
  {
    var e := Encode(t, v).value;
    match t
    case Integer(size, signed) => IntegerRoundTrip(size, signed, v.i, rest);
    case Boolean => assert (e + rest)[1..] == rest;
    case Compact => CI.RoundTrip(v.i, rest);
    case U256 => WordRoundTrip(v.i, rest);
    case S256 => WordRoundTrip(S2u(v.i), rest);
    case FixedBytes(_) =>
      BlobRoundTrip(v.s, rest);
      assert v.s[..|v.s|] == v.s;
    case Str => BlobRoundTrip(v.s, rest);
    case Vector(e) =>
      if OneByte(e) {
        CopyRoundTrip(t, v, rest);
      } else {
        VectorRoundTrip(t, v, rest);
      }
    case Array(_, _) => EachRoundTrip(t, v.vs, rest);
    case Map(_, _) => MapRoundTrip(t, v, rest);
    case Optional(_) => OptionalRoundTrip(t, v, rest);
    case Variant(_) => VariantRoundTrip(t, v, rest);
    case Tuple(ts) => MembersRoundTrip(ts, v.vs, rest);
  }

  lemma {:induction false} VectorRoundTrip(t: ScaleType, v: ScaleValue, rest: Bytes)
    requires t.Vector? && !OneByte(t.elem) && HasType(t, v) && Encode(t, v).Some? && Recoverable(t, v)
    ensures Decode(t, Encode(t, v).value + rest) == Some((v, rest))
    decreases t, |v.vs| + 1
  {
    hide CI.EncodeCompact, CI.DecodeCompact;
    var size := CI.EncodeCompact(|v.vs|).value;
    var body := EncodeEach(t, v.vs).value;
    assert Encode(t, v).value + rest == size + (body + rest);
    CI.RoundTrip(|v.vs|, body + rest);
    EachRoundTrip(t, v.vs, rest);
  }

  lemma {:induction false} MapRoundTrip(t: ScaleType, v: ScaleValue, rest: Bytes)
    requires t.Map? && HasType(t, v) && Encode(t, v).Some? && Recoverable(t, v)
    ensures Decode(t, Encode(t, v).value + rest) == Some((v, rest))
    decreases t, |v.entries| + 1
  {
    hide CI.EncodeCompact, CI.DecodeCompact, EncodeEntries, DecodeEntries, Less;
    var size := CI.EncodeCompact(|v.entries|).value;
    var body := EncodeEntries(t, v.entries).value;
    assert Encode(t, v).value + rest == size + (body + rest);
    CI.RoundTrip(|v.entries|, body + rest);
    EntriesRoundTrip(t, [], v.entries, rest);
    assert [] + v.entries == v.entries;
  }

  lemma {:induction false} OptionalRoundTrip(t: ScaleType, v: ScaleValue, rest: Bytes)
    requires t.Optional? && HasType(t, v) && Encode(t, v).Some? && Recoverable(t, v)
    ensures Decode(t, Encode(t, v).value + rest) == Some((v, rest))
    decreases t, 0
  {
    var e := Encode(t, v).value;
    assert (e + rest)[1..] == e[1..] + rest;
    if t.elem == Boolean || v.o.None? {
      assert e[1..] == [];
    } else {
      assert e[1..] == Encode(t.elem, v.o.value).value;
      RoundTrip(t.elem, v.o.value, rest);
    }
  }

  lemma {:induction false} VariantRoundTrip(t: ScaleType, v: ScaleValue, rest: Bytes)
    requires t.Variant? && HasType(t, v) && Encode(t, v).Some? && Recoverable(t, v)
    ensures Decode(t, Encode(t, v).value + rest) == Some((v, rest))
    decreases t, 0
  {
    var e := Encode(t, v).value;
    assert (e + rest)[1..] == e[1..] + rest;
    assert e[1..] == Encode(t.alts[v.which], v.inner).value;
    RoundTrip(t.alts[v.which], v.inner, rest);
  }

  lemma IntegerRoundTrip(size: nat, signed: bool, i: int, rest: Bytes)
    requires InRange(size, signed, i)
    ensures Decode(Integer(size, signed), LeBytes(Unsigned(size, i), size) + rest) == Some((Int(i), rest))
  {
    var u := Unsigned(size, i);
    var e := LeBytes(u, size);
    assert (e + rest)[..size] == e && (e + rest)[size..] == rest;
    LeValueOfBytes(u, size);
  }

  lemma WordRoundTrip(u: nat, rest: Bytes)
    requires u < TWO256
    ensures (BeBytes(u, 32) + rest)[..32] == BeBytes(u, 32) && (BeBytes(u, 32) + rest)[32..] == rest
    ensures BeValue(BeBytes(u, 32)) == u
  {
    Pow256Wide();
    BeValueOfBytes(u, 32);
  }

  lemma BlobRoundTrip(s: Bytes, rest: Bytes)
    requires |s| < TWO64 && EncodeBlob(s).Some?
    ensures DecodeBlob(EncodeBlob(s).value + rest) == Some((s, rest))
  {
    hide CI.EncodeCompact, CI.DecodeCompact;
    var size := CI.EncodeCompact(|s|).value;
    assert EncodeBlob(s).value + rest == size + (s + rest);
    CI.RoundTrip(|s|, s + rest);
    assert (s + rest)[..|s|] == s && (s + rest)[|s|..] == rest;
  }

  lemma {:induction false} EachRoundTrip(t: ScaleType, vs: seq<ScaleValue>, rest: Bytes)
    requires t.Vector? || t.Array?
    requires forall i :: 0 <= i < |vs| ==> HasType(t.elem, vs[i]) && Recoverable(t.elem, vs[i])
    requires EncodeEach(t, vs).Some?
    ensures DecodeEach(t, |vs|, EncodeEach(t, vs).value + rest) == Some((vs, rest))
    decreases t, |vs|
  {
    hide Encode, Decode, HasType, Recoverable;
    if vs == [] {
      assert [] + rest == rest;
    } else {
      var head, tail := Encode(t.elem, vs[0]).value, EncodeEach(t, vs[1..]).value;
      assert EncodeEach(t, vs).value + rest == head + (tail + rest);
      RoundTrip(t.elem, vs[0], tail + rest);
      EachRoundTrip(t, vs[1..], rest);
      assert vs == [vs[0]] + vs[1..];
    }
  }

  lemma {:induction false} EmplaceAtEnd(es: seq<Entry>, e: Entry)
    requires forall i :: 0 <= i < |es| ==> Less(es[i].k, e.k)
    ensures Emplace(es, e) == es + [e]
  {
    if es != [] {
      EmplaceAtEnd(es[1..], e);
    }
  }

  lemma NextEntry(done: seq<Entry>, es: seq<Entry>)
    requires es != [] && Ordered(done + es)
    ensures Emplace(done, es[0]) == done + [es[0]]
  {
    forall i | 0 <= i < |done|
      ensures Less(done[i].k, es[0].k)
    {
      assert done[i] == (done + es)[i] && es[0] == (done + es)[|done|];
    }
    EmplaceAtEnd(done, es[0]);
  }

  lemma {:induction false} EntriesRoundTrip(t: ScaleType, done: seq<Entry>, es: seq<Entry>, rest: Bytes)
    requires t.Map? && Ordered(done + es)
    requires forall i :: 0 <= i < |es| ==> HasType(t.key, es[i].k) && HasType(t.val, es[i].v)
    requires forall i :: 0 <= i < |es| ==> Recoverable(t.key, es[i].k) && Recoverable(t.val, es[i].v)
    requires EncodeEntries(t, es).Some?
    ensures DecodeEntries(t, |es|, EncodeEntries(t, es).value + rest, done) == Some((done + es, rest))
    decreases t, |es|
  {
    hide Encode, Decode, HasType, Recoverable;
    if es == [] {
      assert [] + rest == rest && done + es == done;
    } else {
      var k, v := Encode(t.key, es[0].k).value, Encode(t.val, es[0].v).value;
      var tail := EncodeEntries(t, es[1..]).value;
      assert EncodeEntries(t, es).value + rest == k + (v + (tail + rest));
      RoundTrip(t.key, es[0].k, v + (tail + rest));
      RoundTrip(t.val, es[0].v, tail + rest);
      NextEntry(done, es);
      assert es[0] == Entry(es[0].k, es[0].v);
      assert done + [es[0]] + es[1..] == done + es;
      EntriesRoundTrip(t, done + [es[0]], es[1..], rest);
    }
  }

  lemma {:induction false} MembersRoundTrip(ts: seq<ScaleType>, vs: seq<ScaleValue>, rest: Bytes)
    requires |ts| == |vs|
    requires forall i :: 0 <= i < |ts| ==> HasType(ts[i], vs[i]) && Recoverable(ts[i], vs[i])
    requires EncodeMembers(ts, vs).Some?
    ensures DecodeMembers(ts, EncodeMembers(ts, vs).value + rest) == Some((vs, rest))
    decreases ts
  {
    hide Encode, Decode, HasType, Recoverable;
    if ts == [] {
      assert [] + rest == rest;
    } else {
      var head, tail := Encode(ts[0], vs[0]).value, EncodeMembers(ts[1..], vs[1..]).value;
      assert EncodeMembers(ts, vs).value + rest == head + (tail + rest);
      RoundTrip(ts[0], vs[0], tail + rest);
      MembersRoundTrip(ts[1..], vs[1..], rest);
      assert vs == [vs[0]] + vs[1..];
    }
  }

  // ---- Encodings determine their values ----

  /** Two encodings of one type, with any bytes following, are equal only if the
      values and those bytes are. */
  lemma {:induction false} Unique(t: ScaleType, v: ScaleValue, w: ScaleValue, a: Bytes, b: Bytes)
    requires HasType(t, v) && HasType(t, w) && Encode(t, v).Some? && Encode(t, w).Some?
    requires Encode(t, v).value + a == Encode(t, w).value + b
    ensures v == w && a == b
    decreases t
  {
    hide Decode, CI.EncodeCompact;
    match t
    case Vector(_) =>
      SizeUnique(|v.vs|, |w.vs|, EncodeEach(t, v.vs).value, EncodeEach(t, w.vs).value, a, b);
      EachUnique(t, v.vs, w.vs, a, b);
    case Array(_, _) => EachUnique(t, v.vs, w.vs, a, b);
    case Map(_, _) =>
      SizeUnique(|v.entries|, |w.entries|, EncodeEntries(t, v.entries).value, EncodeEntries(t, w.entries).value, a, b);
      EntriesUnique(t, v.entries, w.entries, a, b);
    case Optional(_) => OptionalUnique(t, v, w, a, b);
    case Variant(alts) =>
      TagUnique(v.which, w.which, Encode(alts[v.which], v.inner).value, Encode(alts[w.which], w.inner).value, a, b);
      Unique(alts[v.which], v.inner, w.inner, a, b);
    case Tuple(ts) => MembersUnique(ts, v.vs, w.vs, a, b);
    case _ =>
      RoundTrip(t, v, a);
      RoundTrip(t, w, b);
  }

  lemma TagUnique(v: Byte, w: Byte, x: Bytes, y: Bytes, a: Bytes, b: Bytes)
    requires [v] + x + a == [w] + y + b
    ensures v == w && x + a == y + b
  {
    assert [v] + x + a == [v] + (x + a) && [w] + y + b == [w] + (y + b);
    assert ([v] + (x + a))[0] == v && ([w] + (y + b))[0] == w;
    assert ([v] + (x + a))[1..] == x + a && ([w] + (y + b))[1..] == y + b;
  }

  lemma SizeUnique(n: nat, m: nat, x: Bytes, y: Bytes, a: Bytes, b: Bytes)
    requires CI.EncodeCompact(n).Some? && CI.EncodeCompact(m).Some?
    requires CI.EncodeCompact(n).value + x + a == CI.EncodeCompact(m).value + y + b
    ensures n == m && x + a == y + b
  {
    hide CI.EncodeCompact, CI.DecodeCompact;
    CI.RoundTrip(n, x + a);
    CI.RoundTrip(m, y + b);
    assert CI.EncodeCompact(n).value + x + a == CI.EncodeCompact(n).value + (x + a);
    assert CI.EncodeCompact(m).value + y + b == CI.EncodeCompact(m).value + (y + b);
  }

  lemma {:induction false} OptionalUnique(t: ScaleType, v: ScaleValue, w: ScaleValue, a: Bytes, b: Bytes)
    requires t.Optional? && HasType(t, v) && HasType(t, w) && Encode(t, v).Some? && Encode(t, w).Some?
    requires Encode(t, v).value + a == Encode(t, w).value + b
    ensures v == w && a == b
    decreases t, 0
  {
    var x, y := Encode(t, v).value, Encode(t, w).value;
    assert x == [x[0]] + x[1..] && y == [y[0]] + y[1..];
    TagUnique(x[0], y[0], x[1..], y[1..], a, b);
    if t.elem != Boolean && v.o.Some? && w.o.Some? {
      assert x[1..] == Encode(t.elem, v.o.value).value && y[1..] == Encode(t.elem, w.o.value).value;
      Unique(t.elem, v.o.value, w.o.value, a, b);
    } else {
      assert x[1..] == [] && y[1..] == [] && [] + a == a && [] + b == b;
    }
  }

  lemma {:induction false} EachUnique(t: ScaleType, vs: seq<ScaleValue>, ws: seq<ScaleValue>, a: Bytes, b: Bytes)
    requires (t.Vector? || t.Array?) && |vs| == |ws|
    requires forall i :: 0 <= i < |vs| ==> HasType(t.elem, vs[i]) && HasType(t.elem, ws[i])
    requires EncodeEach(t, vs).Some? && EncodeEach(t, ws).Some?
    requires EncodeEach(t, vs).value + a == EncodeEach(t, ws).value + b
    ensures vs == ws && a == b
    decreases t, |vs|
  {
    hide Encode, HasType;
    if vs == [] {
      assert [] + a == a && [] + b == b;
    } else {
      var x, y := Encode(t.elem, vs[0]).value, Encode(t.elem, ws[0]).value;
      var p, q := EncodeEach(t, vs[1..]).value, EncodeEach(t, ws[1..]).value;
      assert x + (p + a) == y + (q + b) by { assert x + p + a == x + (p + a) && y + q + b == y + (q + b); }
      Unique(t.elem, vs[0], ws[0], p + a, q + b);
      EachUnique(t, vs[1..], ws[1..], a, b);
      assert vs == [vs[0]] + vs[1..] && ws == [ws[0]] + ws[1..];
    }
  }

  lemma {:induction false} EntriesUnique(t: ScaleType, es: seq<Entry>, fs: seq<Entry>, a: Bytes, b: Bytes)
    requires t.Map? && |es| == |fs|
    requires forall i :: 0 <= i < |es| ==> HasType(t.key, es[i].k) && HasType(t.val, es[i].v)
    requires forall i :: 0 <= i < |fs| ==> HasType(t.key, fs[i].k) && HasType(t.val, fs[i].v)
    requires EncodeEntries(t, es).Some? && EncodeEntries(t, fs).Some?
    requires EncodeEntries(t, es).value + a == EncodeEntries(t, fs).value + b
    ensures es == fs && a == b
    decreases t, |es|
  {
    hide Encode, HasType;
    if es == [] {
      assert [] + a == a && [] + b == b;
    } else {
      var e, f := es[0], fs[0];
      var k, l := Encode(t.key, e.k).value, Encode(t.key, f.k).value;
      var x, y := Encode(t.val, e.v).value, Encode(t.val, f.v).value;
      var p, q := EncodeEntries(t, es[1..]).value, EncodeEntries(t, fs[1..]).value;
      assert k + x + p + a == k + (x + (p + a)) && l + y + q + b == l + (y + (q + b));
      Unique(t.key, e.k, f.k, x + (p + a), y + (q + b));
      Unique(t.val, e.v, f.v, p + a, q + b);
      EntriesUnique(t, es[1..], fs[1..], a, b);
      assert es == [e] + es[1..] && fs == [f] + fs[1..];
    }
  }

  lemma {:induction false} MembersUnique(ts: seq<ScaleType>, vs: seq<ScaleValue>, ws: seq<ScaleValue>, a: Bytes, b: Bytes)
    requires |ts| == |vs| == |ws|
    requires forall i :: 0 <= i < |ts| ==> HasType(ts[i], vs[i]) && HasType(ts[i], ws[i])
    requires EncodeMembers(ts, vs).Some? && EncodeMembers(ts, ws).Some?
    requires EncodeMembers(ts, vs).value + a == EncodeMembers(ts, ws).value + b
    ensures vs == ws && a == b
    decreases ts
  {
    hide Encode, HasType;
    if ts == [] {
      assert [] + a == a && [] + b == b;
    } else {
      var x, y := Encode(ts[0], vs[0]).value, Encode(ts[0], ws[0]).value;
      var p, q := EncodeMembers(ts[1..], vs[1..]).value, EncodeMembers(ts[1..], ws[1..]).value;
      assert x + p + a == x + (p + a) && y + q + b == y + (q + b);
      Unique(ts[0], vs[0], ws[0], p + a, q + b);
      MembersUnique(ts[1..], vs[1..], ws[1..], a, b);
      assert vs == [vs[0]] + vs[1..] && ws == [ws[0]] + ws[1..];
    }
  }

  /** No encoding is a proper prefix of another one of the same type, and only
      equal values share an encoding. */
  lemma PrefixFree(t: ScaleType, v: ScaleValue, w: ScaleValue)
    requires HasType(t, v) && HasType(t, w) && Encode(t, v).Some? && Encode(t, w).Some?
    requires Encode(t, v).value <= Encode(t, w).value
    ensures v == w
  {
    var x, y := Encode(t, v).value, Encode(t, w).value;
    assert x + y[|x|..] == y + [];
    Unique(t, v, w, y[|x|..], []);
  }
}
