/** What the decoder yields on arbitrary bytes is always a value of the type. */
module ScaleTyping {
  import opened Wrappers
  import opened Bytes
  import opened ScaleCodec
  import opened ScaleOrder
  import CI = CompactInteger

  /** Types with the widths and sizes C++ can express; the alternatives of a
      boost::variant are distinct. */
  predicate Expressible(t: ScaleType)
    decreases t
  {
    match t
    case Integer(size, _) => IsWidth(size)
    case FixedBytes(n) => n < TWO64
    case Vector(e) => Expressible(e)
    case Array(e, _) => Expressible(e)
    case Map(k, e) => Expressible(k) && Expressible(e)
    case Optional(e) => Expressible(e)
    case Variant(alts) =>
      1 <= |alts| <= 255 && (forall i, j :: 0 <= i < j < |alts| ==> alts[i] != alts[j]) &&
      forall i :: 0 <= i < |alts| ==> Expressible(alts[i])
    case Tuple(ts) => forall i :: 0 <= i < |ts| ==> Expressible(ts[i])
    case _ => true
  }

  lemma {:induction false} DecodeTyped(t: ScaleType, s: Bytes)
    requires Expressible(t) && Decode(t, s).Some?
    ensures HasType(t, Decode(t, s).value.0)
    decreases t
  {
    hide CI.DecodeCompact, LeValue, BeValue;
    match t
    case Integer(size, signed) => LeValueBound(s[..size]);
    case U256 => WordBound(s[..32]);
    case S256 => WordBound(s[..32]);
    case FixedBytes(_) => BlobBound(s);
    case Str => BlobBound(s);
    case Vector(e) =>
      var r := CI.DecodeCompact(s).value;
      var n := r.0 % TWO64;
      if OneByte(e) {
        BytesTyped(e, r.1[..n]);
      } else {
        EachTyped(t, n, r.1);
      }
    case Array(_, n) => EachTyped(t, n, s);
    case Map(_, _) => MapTyped(t, s);
    case Optional(e) =>
      if e != Boolean && s[0] == 1 {
        DecodeTyped(e, s[1..]);
      }
    case Variant(alts) => DecodeTyped(alts[s[0]], s[1..]);
    case Tuple(ts) => MembersTyped(ts, s);
    case _ =>
  }

  lemma {:induction false} ByteTyped(e: ScaleType, b: Byte)
    requires OneByte(e) && Expressible(e)
    ensures HasType(e, FromByte(e, b))
  {
    BytePow();
    if e.Tuple? {
      ByteTyped(e.members[0], b);
    }
  }

  lemma BytesTyped(e: ScaleType, s: Bytes)
    requires OneByte(e) && Expressible(e)
    ensures forall i :: 0 <= i < |s| ==> HasType(e, FromBytes(e, s)[i])
  {
    hide FromByte, HasType, OneByte, Expressible;
    forall i | 0 <= i < |s|
      ensures HasType(e, FromBytes(e, s)[i])
    {
      ByteTyped(e, s[i]);
    }
  }

  lemma BlobBound(s: Bytes)
    requires DecodeBlob(s).Some?
    ensures |DecodeBlob(s).value.0| < TWO64
  {
    hide CI.DecodeCompact;
  }

  lemma {:induction false} EachTyped(t: ScaleType, n: nat, s: Bytes)
    requires (t.Vector? || t.Array?) && Expressible(t.elem) && DecodeEach(t, n, s).Some?
    ensures var vs := DecodeEach(t, n, s).value.0;
            |vs| == n && forall i :: 0 <= i < n ==> HasType(t.elem, vs[i])
    decreases t, n
  {
    hide Decode, HasType, Expressible;
    if n > 0 {
      DecodeTyped(t.elem, s);
      EachTyped(t, n - 1, Decode(t.elem, s).value.1);
    }
  }

  lemma {:induction false} MapTyped(t: ScaleType, s: Bytes)
    requires t.Map? && Expressible(t.key) && Expressible(t.val) && Decode(t, s).Some?
    ensures HasType(t, Decode(t, s).value.0)
    decreases t, TWO64
  {
    hide CI.DecodeCompact, Ordered, First, EmplaceAll, ReadEntries;
    var r := CI.DecodeCompact(s).value;
    var n := r.0 % TWO64;
    DecodeEmplacesAll(t, n, r.1, []);
    EntriesTyped(t, n, r.1);
    var pairs := ReadEntries(t, n, r.1).value.0;
    assert Ordered([]) by { NothingOrdered(); }
    FirstWins(t.key, [], pairs);
    var es := EmplaceAll([], pairs);
    forall i | 0 <= i < |es|
      ensures HasType(t.val, es[i].v)
    {
      assert es[i] in es;
      FirstIsRead(pairs, es[i]);
    }
  }

  lemma NothingOrdered()
    ensures Ordered([])
  {
  }

  lemma {:induction false} EntriesTyped(t: ScaleType, n: nat, s: Bytes)
    requires t.Map? && Expressible(t.key) && Expressible(t.val) && ReadEntries(t, n, s).Some?
    ensures var es := ReadEntries(t, n, s).value.0;
            |es| == n && forall i :: 0 <= i < n ==> HasType(t.key, es[i].k) && HasType(t.val, es[i].v)
    decreases t, n
  {
    hide Decode, HasType, Expressible;
    if n > 0 {
      DecodeTyped(t.key, s);
      var k := Decode(t.key, s).value;
      DecodeTyped(t.val, k.1);
      EntriesTyped(t, n - 1, Decode(t.val, k.1).value.1);
    }
  }

  lemma {:induction false} MembersTyped(ts: seq<ScaleType>, s: Bytes)
    requires (forall i :: 0 <= i < |ts| ==> Expressible(ts[i])) && DecodeMembers(ts, s).Some?
    ensures var vs := DecodeMembers(ts, s).value.0;
            |vs| == |ts| && forall i :: 0 <= i < |ts| ==> HasType(ts[i], vs[i])
    decreases ts
  {
    hide Decode, HasType, Expressible;
    if ts != [] {
      DecodeTyped(ts[0], s);
      var rest := Decode(ts[0], s).value.1;
      MembersTyped(ts[1..], rest);
      var vs := DecodeMembers(ts, s).value.0;
      assert forall i :: 0 < i < |ts| ==> ts[i] == ts[1..][i - 1] && vs[i] == vs[1..][i - 1];
      assert vs[1..] == DecodeMembers(ts[1..], rest).value.0;
    }
  }
}
