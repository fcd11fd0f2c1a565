/** Which byte strings are encodings: exactly for these, encoding what was
    decoded gives the bytes back. The decoder accepts others. */
module ScaleCanonical {
  import opened Wrappers
  import opened Bytes
  import opened ScaleCodec
  import opened ScaleOrder
  import opened ScaleTyping
  import opened ScaleRoundTrip
  import CI = CompactInteger

  // ---- A test on the bytes, along the decoder's path ----

  /** A length is in its shortest form and below 2^64. */
  predicate ShortLength(s: Bytes)
    requires CI.DecodeCompact(s).Some?
  {
    CI.Shortest(s) && CI.DecodeCompact(s).value.0 < TWO64
  }

  predicate Truth(t: ScaleType)
    requires OneByte(t)
  {
    t.Boolean? || (t.Tuple? && Truth(t.members[0]))
  }

  /** Copied bytes that encode what they are copied to: none at all where a
      length would be written, zeros and ones for booleans. */
  predicate CanonicalCopy(e: ScaleType, s: Bytes)
    requires OneByte(e)
  {
    (Prefixed(e) ==> s == []) && (Truth(e) ==> forall i :: 0 <= i < |s| ==> s[i] <= 1)
  }

  /** Compact integers and lengths are in shortest form, fixed byte strings have
      their exact length, copied elements encode as they stand, and the pairs of
      a map come in strict key order. */
  predicate Canonical(t: ScaleType, s: Bytes)
    requires Decode(t, s).Some?
    decreases t
  {
    match t
    case Compact => CI.Shortest(s)
    case FixedBytes(n) => ShortLength(s) && CI.DecodeCompact(s).value.0 == n
    case Str => ShortLength(s)
    case Vector(e) =>
      var r := CI.DecodeCompact(s).value;
      var n := r.0 % TWO64;
      ShortLength(s) && if OneByte(e) then CanonicalCopy(e, r.1[..n]) else CanonicalEach(t, n, r.1)
    case Array(_, n) => CanonicalEach(t, n, s)
    case Map(_, _) =>
      var r := CI.DecodeCompact(s).value;
      DecodeEmplacesAll(t, r.0 % TWO64, r.1, []);
      && ShortLength(s) && CanonicalEntries(t, r.0 % TWO64, r.1)
      && Ordered(ReadEntries(t, r.0 % TWO64, r.1).value.0)
    case Optional(e) => e == Boolean || s[0] == 0 || Canonical(e, s[1..])
    case Variant(alts) => Canonical(alts[s[0]], s[1..])
    case Tuple(ts) => CanonicalMembers(ts, s)
    case _ => true
  }

  predicate CanonicalEach(t: ScaleType, n: nat, s: Bytes)
    requires (t.Vector? || t.Array?) && DecodeEach(t, n, s).Some?
    decreases t, n
  {
    n > 0 ==> Canonical(t.elem, s) && CanonicalEach(t, n - 1, Decode(t.elem, s).value.1)
  }

  predicate CanonicalEntries(t: ScaleType, n: nat, s: Bytes)
    requires t.Map? && ReadEntries(t, n, s).Some?
    decreases t, n
  {
    n > 0 ==>
      var rest := Decode(t.key, s).value.1;
      Canonical(t.key, s) && Canonical(t.val, rest) && CanonicalEntries(t, n - 1, Decode(t.val, rest).value.1)
  }

  predicate CanonicalMembers(ts: seq<ScaleType>, s: Bytes)
    requires DecodeMembers(ts, s).Some?
    decreases ts
  {
    ts != [] ==> Canonical(ts[0], s) && CanonicalMembers(ts[1..], Decode(ts[0], s).value.1)
  }

  // ---- Lengths and parts ----

  lemma LengthIff(m: nat, body: Bytes, s: Bytes)
    requires m < TWO64 && CI.DecodeCompact(s).Some?
    ensures var r := CI.DecodeCompact(s).value;
            CI.EncodeCompact(m).Some? &&
            (CI.EncodeCompact(m).value + body == s <==> ShortLength(s) && r.0 == m && r.1 == body)
  {
    hide CI.EncodeCompact, CI.DecodeCompact, CI.Shortest;
    SizeFits(m);
    CI.RoundTrip(m, body);
    CI.ShortestIff(s);
  }

  /** A string split after what its first part decodes to. */
  lemma PartsIff(t: ScaleType, v: ScaleValue, tail: Bytes, s: Bytes, next: Bytes)
    requires HasType(t, v) && Encode(t, v).Some? && Recoverable(t, v) && Decode(t, s) == Some((v, next))
    ensures Encode(t, v).value + tail == s <==> Encode(t, v).value + next == s && tail == next
  {
    hide Encode, Decode, HasType;
    RoundTrip(t, v, tail);
  }

  // ---- The theorem ----

  /** Encoding what was decoded never fails. The bytes read were canonical
      exactly if encoding gives the stream back, with the bytes left over, and
      the value is a recoverable one. */
  lemma {:induction false} CanonicalIff(t: ScaleType, s: Bytes)
    requires Expressible(t) && Decode(t, s).Some?
    ensures var (v, rest) := Decode(t, s).value;
            HasType(t, v) && Encode(t, v).Some? &&
            (Canonical(t, s) <==> Encode(t, v).value + rest == s && Recoverable(t, v))
    decreases t
  {
    DecodeTyped(t, s);
    match t
    case Integer(size, signed) => IntegerCanonical(size, signed, s);
    case Boolean => assert s == [s[0]] + s[1..];
    case Compact => CI.ShortestIff(s);
    case U256 => WordCanonical(s);
    case S256 => WordCanonical(s);
    case FixedBytes(_) => BlobIff(t, s);
    case Str => BlobIff(t, s);
    case Vector(e) =>
      if OneByte(e) {
        CopyIff(t, s);
      } else {
        VectorIff(t, s);
      }
    case Array(_, n) => EachIff(t, n, s);
    case Map(_, _) => MapIff(t, s);
    case Optional(_) => OptionalIff(t, s);
    case Variant(_) => VariantIff(t, s);
    case Tuple(ts) => MembersIff(ts, s);
  }

  lemma IntegerCanonical(size: nat, signed: bool, s: Bytes)
    requires IsWidth(size) && |s| >= size
    ensures LeValue(s[..size]) < Pow256(size)
    ensures var i := Reinterpret(size, signed, LeValue(s[..size]));
            InRange(size, signed, i) && LeBytes(Unsigned(size, i), size) + s[size..] == s
  {
    hide Pow256, LeValue, LeBytes;
    LeValueBound(s[..size]);
    LeBytesOfValue(s[..size]);
    assert s == s[..size] + s[size..];
  }

  lemma WordCanonical(s: Bytes)
    requires |s| >= 32
    ensures BeValue(s[..32]) < TWO256
    ensures BeBytes(BeValue(s[..32]), 32) + s[32..] == s && S2u(U2s(BeValue(s[..32]))) == BeValue(s[..32])
  {
    WordBound(s[..32]);
    BeBytesOfValue(s[..32]);
    assert s == s[..32] + s[32..];
  }

  lemma BlobIff(t: ScaleType, s: Bytes)
    requires (t.FixedBytes? || t.Str?) && Expressible(t) && Decode(t, s).Some?
    ensures var (v, rest) := Decode(t, s).value;
            HasType(t, v) && Encode(t, v).Some? &&
            (Canonical(t, s) <==> Encode(t, v).value + rest == s && Recoverable(t, v))
  {
    hide CI.EncodeCompact, CI.DecodeCompact, CI.Shortest;
    DecodeTyped(t, s);
    var (v, rest) := Decode(t, s).value;
    var r := CI.DecodeCompact(s).value;
    LengthIff(|v.s|, v.s + rest, s);
    assert Encode(t, v).value + rest == CI.EncodeCompact(|v.s|).value + (v.s + rest);
    var n := r.0 % TWO64;
    assert r.1 == r.1[..n] + r.1[n..];
    if t.FixedBytes? && n == t.length {
      assert r.1[..n][..n] == r.1[..n];
    }
  }

  /** A copied byte is the encoding of its element, but for lengths and for
      booleans above one. */
  lemma {:induction false} ByteBack(e: ScaleType, b: Byte)
    requires OneByte(e) && Expressible(e)
    ensures HasType(e, FromByte(e, b)) && Encode(e, FromByte(e, b)).Some?
    ensures !Prefixed(e) ==> (Encode(e, FromByte(e, b)).value == [b] <==> (Truth(e) ==> b <= 1))
  {
    ByteTyped(e, b);
    ByteEncodes(e, FromByte(e, b));
    match e
    case Tuple(ts) =>
      ByteBack(ts[0], b);
      assert ts == [ts[0]];
      OneMember(ts[0], FromByte(ts[0], b));
    case Integer(_, signed) =>
      BytePow();
      LeBytesOfValue([b]);
      assert LeValue([b]) == b + 256 * LeValue([]);
    case _ =>
  }

  lemma {:induction false} BytesBack(t: ScaleType, s: Bytes)
    requires t.Vector? && OneByte(t.elem) && Expressible(t.elem) && !Prefixed(t.elem)
    ensures forall i :: 0 <= i < |s| ==> HasType(t.elem, FromBytes(t.elem, s)[i])
    ensures EncodeEach(t, FromBytes(t.elem, s)).Some?
    ensures EncodeEach(t, FromBytes(t.elem, s)).value == s <==> CanonicalCopy(t.elem, s)
    decreases |s|
  {
    hide Encode, HasType, OneByte, Expressible, FromByte, Prefixed, Truth;
    var e, vs := t.elem, FromBytes(t.elem, s);
    BytesTyped(e, s);
    BytesEncode(t, vs);
    if s != [] {
      ByteBack(e, s[0]);
      BytesBack(t, s[1..]);
      assert vs[1..] == FromBytes(e, s[1..]);
      var head, tail := Encode(e, vs[0]).value, EncodeEach(t, vs[1..]).value;
      ByteEncodes(e, vs[0]);
      assert EncodeEach(t, vs).value == head + tail;
      assert s == [s[0]] + s[1..];
      assert head + tail == s <==> head == [s[0]] && tail == s[1..] by {
        assert (head + tail)[..1] == head && (head + tail)[1..] == tail;
      }
      assert forall i :: 0 < i < |s| ==> s[i] == s[1..][i - 1];
    }
  }

  lemma CopyIff(t: ScaleType, s: Bytes)
    requires t.Vector? && OneByte(t.elem) && Expressible(t) && Decode(t, s).Some?
    ensures var (v, rest) := Decode(t, s).value;
            HasType(t, v) && Encode(t, v).Some? &&
            (Canonical(t, s) <==> Encode(t, v).value + rest == s && Recoverable(t, v))
  {
    hide CI.EncodeCompact, CI.DecodeCompact, CI.Shortest, EncodeEach, FromBytes, OneByte, Prefixed, Truth;
    DecodeTyped(t, s);
    var (v, rest) := Decode(t, s).value;
    var r := CI.DecodeCompact(s).value;
    var n := r.0 % TWO64;
    var copied := r.1[..n];
    assert r.1 == copied + rest;
    BytesEncode(t, v.vs);
    var body := EncodeEach(t, v.vs).value;
    LengthIff(n, body + rest, s);
    assert Encode(t, v).value + rest == CI.EncodeCompact(n).value + (body + rest);
    if Prefixed(t.elem) {
      assert v.vs == [] <==> copied == [];
    } else {
      BytesBack(t, copied);
      assert body + rest == r.1 <==> body == copied by {
        if body + rest == copied + rest {
          assert (body + rest)[..n] == body && (copied + rest)[..n] == copied;
        }
      }
    }
  }

  lemma {:induction false} VectorIff(t: ScaleType, s: Bytes)
    requires t.Vector? && !OneByte(t.elem) && Expressible(t) && Decode(t, s).Some?
    ensures var (v, rest) := Decode(t, s).value;
            HasType(t, v) && Encode(t, v).Some? &&
            (Canonical(t, s) <==> Encode(t, v).value + rest == s && Recoverable(t, v))
    decreases t, TWO64
  {
    hide CI.EncodeCompact, CI.DecodeCompact, CI.Shortest, EncodeEach, DecodeEach, CanonicalEach;
    var (v, rest) := Decode(t, s).value;
    var r := CI.DecodeCompact(s).value;
    var n := r.0 % TWO64;
    EachTyped(t, n, r.1);
    EachIff(t, n, r.1);
    var body := EncodeEach(t, v.vs).value;
    LengthIff(n, body + rest, s);
    assert Encode(t, v).value + rest == CI.EncodeCompact(n).value + (body + rest);
  }

  lemma {:induction false} EachIff(t: ScaleType, n: nat, s: Bytes)
    requires (t.Vector? || t.Array?) && Expressible(t.elem) && DecodeEach(t, n, s).Some?
    ensures var (vs, rest) := DecodeEach(t, n, s).value;
            && (forall i :: 0 <= i < |vs| ==> HasType(t.elem, vs[i]))
            && EncodeEach(t, vs).Some?
            && (CanonicalEach(t, n, s) <==>
                EncodeEach(t, vs).value + rest == s && forall i :: 0 <= i < |vs| ==> Recoverable(t.elem, vs[i]))
    decreases t, n
  {
    hide Encode, Decode, HasType, Expressible, Canonical, Recoverable;
    EachTyped(t, n, s);
    var (vs, rest) := DecodeEach(t, n, s).value;
    if n == 0 {
      assert [] + rest == s;
    } else {
      var (v, next) := Decode(t.elem, s).value;
      CanonicalIff(t.elem, s);
      EachIff(t, n - 1, next);
      assert vs[1..] == DecodeEach(t, n - 1, next).value.0;
      var head, tail := Encode(t.elem, v).value, EncodeEach(t, vs[1..]).value;
      if Recoverable(t.elem, v) {
        PartsIff(t.elem, v, tail + rest, s, next);
      }
      assert EncodeEach(t, vs).value + rest == head + (tail + rest);
    }
  }

  lemma {:induction false} MapIff(t: ScaleType, s: Bytes)
    requires t.Map? && Expressible(t) && Decode(t, s).Some?
    ensures var (v, rest) := Decode(t, s).value;
            HasType(t, v) && Encode(t, v).Some? &&
            (Canonical(t, s) <==> Encode(t, v).value + rest == s && Recoverable(t, v))
    decreases t, TWO64
  {
    hide CI.EncodeCompact, CI.DecodeCompact, CI.Shortest, EncodeEntries, ReadEntries, CanonicalEntries, EmplaceAll,
         Ordered;
    MapTyped(t, s);
    var (v, rest) := Decode(t, s).value;
    var r := CI.DecodeCompact(s).value;
    var n := r.0 % TWO64;
    DecodeEmplacesAll(t, n, r.1, []);
    EntriesIff(t, n, r.1);
    var pairs := ReadEntries(t, n, r.1).value.0;
    EmplacedEncode(t, pairs);
    var body := EncodeEntries(t, v.entries).value;
    LengthIff(|v.entries|, body + rest, s);
    assert Encode(t, v).value + rest == CI.EncodeCompact(|v.entries|).value + (body + rest);
    if r.1 == body + rest && n == |v.entries| && Recoverable(t, v) {
      EntriesReadBack(t, v.entries, rest);
    }
    if Ordered(pairs) {
      assert [] + pairs == pairs;
      OrderedStays([], pairs);
    }
  }

  /** The pairs a map keeps are among those read, so they encode too. */
  lemma EmplacedEncode(t: ScaleType, pairs: seq<Entry>)
    requires t.Map? && EntriesHaveTypes(t, pairs) && EncodeEntries(t, pairs).Some?
    ensures EntriesHaveTypes(t, EmplaceAll([], pairs)) && EncodeEntries(t, EmplaceAll([], pairs)).Some?
  {
    hide HasType, CompactsFit, EncodeEntries, EmplaceAll, First;
    EntriesEncodeIff(t, pairs);
    FirstWins(t.key, [], pairs);
    var es := EmplaceAll([], pairs);
    forall i | 0 <= i < |es|
      ensures HasType(t.key, es[i].k) && HasType(t.val, es[i].v)
      ensures CompactsFit(t.key, es[i].k) && CompactsFit(t.val, es[i].v)
    {
      assert es[i] in es;
      FirstIsRead(pairs, es[i]);
    }
    EntriesEncodeIff(t, es);
  }

  predicate EntriesHaveTypes(t: ScaleType, es: seq<Entry>)
    requires t.Map?
  {
    forall i :: 0 <= i < |es| ==> HasType(t.key, es[i].k) && HasType(t.val, es[i].v)
  }

  predicate EntriesRecoverable(t: ScaleType, es: seq<Entry>)
    requires t.Map? && EntriesHaveTypes(t, es)
  {
    forall i :: 0 <= i < |es| ==> Recoverable(t.key, es[i].k) && Recoverable(t.val, es[i].v)
  }

  lemma {:induction false} OrderedStays(es: seq<Entry>, more: seq<Entry>)
    requires Ordered(es + more)
    ensures EmplaceAll(es, more) == es + more
    decreases |more|
  {
    hide Ordered, Emplace;
    if more == [] {
      assert es + more == es;
    } else {
      NextEntry(es, more);
      assert es + [more[0]] + more[1..] == es + more;
      OrderedStays(es + [more[0]], more[1..]);
    }
  }

  lemma {:induction false} EntriesReadBack(t: ScaleType, es: seq<Entry>, rest: Bytes)
    requires t.Map? && EntriesHaveTypes(t, es) && EntriesRecoverable(t, es) && EncodeEntries(t, es).Some?
    ensures ReadEntries(t, |es|, EncodeEntries(t, es).value + rest) == Some((es, rest))
    decreases |es|
  {
    hide Encode, Decode, HasType, Recoverable;
    if es == [] {
      assert [] + rest == rest;
    } else {
      var e := es[0];
      var k, v, tail := Encode(t.key, e.k).value, Encode(t.val, e.v).value, EncodeEntries(t, es[1..]).value;
      assert EncodeEntries(t, es).value + rest == k + (v + (tail + rest));
      RoundTrip(t.key, e.k, v + (tail + rest));
      RoundTrip(t.val, e.v, tail + rest);
      EntriesReadBack(t, es[1..], rest);
      assert es == [Entry(e.k, e.v)] + es[1..];
    }
  }

  lemma {:induction false} EntriesIff(t: ScaleType, n: nat, s: Bytes)
    requires t.Map? && Expressible(t.key) && Expressible(t.val) && ReadEntries(t, n, s).Some?
    ensures var (es, rest) := ReadEntries(t, n, s).value;
            && |es| == n && EntriesHaveTypes(t, es) && EncodeEntries(t, es).Some?
            && (CanonicalEntries(t, n, s) <==>
                EncodeEntries(t, es).value + rest == s && EntriesRecoverable(t, es))
    decreases t, n
  {
    hide Encode, Decode, HasType, Expressible, Canonical, Recoverable;
    EntriesTyped(t, n, s);
    var (es, rest) := ReadEntries(t, n, s).value;
    if n == 0 {
      assert [] + rest == s;
    } else {
      var (k, middle) := Decode(t.key, s).value;
      var (v, next) := Decode(t.val, middle).value;
      CanonicalIff(t.key, s);
      CanonicalIff(t.val, middle);
      EntriesIff(t, n - 1, next);
      assert es[1..] == ReadEntries(t, n - 1, next).value.0;
      var a, b, tail := Encode(t.key, k).value, Encode(t.val, v).value, EncodeEntries(t, es[1..]).value;
      if Recoverable(t.key, k) {
        PartsIff(t.key, k, b + (tail + rest), s, middle);
      }
      if Recoverable(t.val, v) {
        PartsIff(t.val, v, tail + rest, middle, next);
      }
      assert EncodeEntries(t, es).value + rest == a + (b + (tail + rest));
    }
  }

  lemma {:induction false} OptionalIff(t: ScaleType, s: Bytes)
    requires t.Optional? && Expressible(t) && Decode(t, s).Some?
    ensures var (v, rest) := Decode(t, s).value;
            HasType(t, v) && Encode(t, v).Some? &&
            (Canonical(t, s) <==> Encode(t, v).value + rest == s && Recoverable(t, v))
    decreases t, 0
  {
    DecodeTyped(t, s);
    var (v, rest) := Decode(t, s).value;
    assert s == [s[0]] + s[1..];
    if t.elem != Boolean && s[0] == 1 {
      CanonicalIff(t.elem, s[1..]);
      TaggedIff(s, 1, Encode(t.elem, v.o.value).value, rest);
    }
  }

  lemma {:induction false} VariantIff(t: ScaleType, s: Bytes)
    requires t.Variant? && Expressible(t) && Decode(t, s).Some?
    ensures var (v, rest) := Decode(t, s).value;
            HasType(t, v) && Encode(t, v).Some? &&
            (Canonical(t, s) <==> Encode(t, v).value + rest == s && Recoverable(t, v))
    decreases t, 0
  {
    DecodeTyped(t, s);
    var (v, rest) := Decode(t, s).value;
    CanonicalIff(t.alts[s[0]], s[1..]);
    TaggedIff(s, s[0], Encode(t.alts[v.which], v.inner).value, rest);
  }

  lemma TaggedIff(s: Bytes, tag: Byte, body: Bytes, rest: Bytes)
    requires s != [] && s[0] == tag
    ensures [tag] + body + rest == s <==> body + rest == s[1..]
  {
    assert s == [s[0]] + s[1..] && [tag] + body + rest == [tag] + (body + rest);
    assert ([tag] + (body + rest))[1..] == body + rest;
  }

  lemma {:induction false} MembersIff(ts: seq<ScaleType>, s: Bytes)
    requires (forall i :: 0 <= i < |ts| ==> Expressible(ts[i])) && DecodeMembers(ts, s).Some?
    ensures var (vs, rest) := DecodeMembers(ts, s).value;
            && |vs| == |ts| && (forall i :: 0 <= i < |ts| ==> HasType(ts[i], vs[i]))
            && EncodeMembers(ts, vs).Some?
            && (CanonicalMembers(ts, s) <==>
                EncodeMembers(ts, vs).value + rest == s && forall i :: 0 <= i < |ts| ==> Recoverable(ts[i], vs[i]))
    decreases ts
  {
    hide Encode, Decode, HasType, Expressible, Canonical, Recoverable;
    MembersTyped(ts, s);
    var (vs, rest) := DecodeMembers(ts, s).value;
    if ts == [] {
      assert [] + rest == s;
    } else {
      var (v, next) := Decode(ts[0], s).value;
      CanonicalIff(ts[0], s);
      MembersIff(ts[1..], next);
      assert vs[1..] == DecodeMembers(ts[1..], next).value.0;
      var head, tail := Encode(ts[0], v).value, EncodeMembers(ts[1..], vs[1..]).value;
      if Recoverable(ts[0], v) {
        PartsIff(ts[0], v, tail + rest, s, next);
      }
      assert EncodeMembers(ts, vs).value + rest == head + (tail + rest);
    }
  }

  /** The decoder does accept other strings: zero in the two-byte mode. */
  lemma LongFormAccepted()
    ensures Decode(Compact, [1, 0]) == Some((Int(0), [])) && Encode(Compact, Int(0)) == Some([0])
  {
    var s := [1, 0];
    assert s[2..] == [];
  }

  /** Without vectors of prefixed elements the condition on the value drops out. */
  lemma CopyableIff(t: ScaleType, s: Bytes)
    requires Expressible(t) && Copyable(t) && Decode(t, s).Some?
    ensures var (v, rest) := Decode(t, s).value;
            HasType(t, v) && Encode(t, v).Some? && (Encode(t, v).value + rest == s <==> Canonical(t, s))
  {
    hide Encode, Decode, HasType, Canonical, Recoverable, Copyable;
    CanonicalIff(t, s);
    CopyableRecovers(t, Decode(t, s).value.0);
  }
}
