/** Which types the round trip holds for: a vector of fixed byte strings of one
    byte is written with a length for each and copied back without. */
module ScaleLimits {
  import opened Wrappers
  import opened Bytes
  import opened ScaleCodec
  import opened ScaleOrder
  import opened ScaleTyping
  import opened ScaleRoundTrip
  import CI = CompactInteger

  /** Every value the encoder accepts comes back, whatever follows it. */
  ghost predicate RoundTrips(t: ScaleType) {
    forall v, rest :: HasType(t, v) && Encode(t, v).Some? ==> ComesBack(t, v, rest)
  }

  ghost predicate ComesBack(t: ScaleType, v: ScaleValue, rest: Bytes)
    requires HasType(t, v) && Encode(t, v).Some?
  {
    Decode(t, Encode(t, v).value + rest) == Some((v, rest))
  }

  // ---- A value for every type ----

  function Default(t: ScaleType): ScaleValue
    requires Expressible(t)
    decreases t
  {
    match t
    case Boolean => Bool(false)
    case FixedBytes(n) => Blob(seq(n, _ => 0))
    case Str => Blob([])
    case Vector(_) => Seq([])
    case Array(e, n) => Seq(seq(n, _ => Default(e)))
    case Map(_, _) => Assoc([])
    case Optional(_) => Opt(None)
    case Variant(alts) => Case(0, Default(alts[0]))
    case Tuple(ts) => Seq(seq(|ts|, i requires 0 <= i < |ts| => Default(ts[i])))
    case _ => Int(0)
  }

  lemma {:induction false} DefaultGood(t: ScaleType)
    requires Expressible(t)
    ensures HasType(t, Default(t)) && CompactsFit(t, Default(t)) && Recoverable(t, Default(t))
    decreases t
  {
    match t
    case Array(e, _) => DefaultGood(e);
    case Variant(alts) => DefaultGood(alts[0]);
    case Tuple(ts) =>
      forall i | 0 <= i < |ts|
        ensures var v := Default(ts[i]); HasType(ts[i], v) && CompactsFit(ts[i], v) && Recoverable(ts[i], v)
      {
        DefaultGood(ts[i]);
      }
    case _ =>
  }

  // ---- A value that is lost ----

  function FirstLossy(ts: seq<ScaleType>): (i: nat)
    requires exists i :: 0 <= i < |ts| && !Copyable(ts[i])
    ensures i < |ts| && !Copyable(ts[i]) && forall j :: 0 <= j < i ==> Copyable(ts[j])
  {
    if !Copyable(ts[0]) then 0
    else
      assert exists i :: 0 <= i < |ts[1..]| && !Copyable(ts[1..][i]) by {
        var i :| 0 <= i < |ts| && !Copyable(ts[i]);
        assert ts[1..][i - 1] == ts[i];
      }
      var i := FirstLossy(ts[1..]);
      assert forall j :: 0 < j < i + 1 ==> ts[j] == ts[1..][j - 1];
      i + 1
  }

  function Lost(t: ScaleType): ScaleValue
    requires Expressible(t) && !Copyable(t)
    decreases t
  {
    match t
    case Vector(e) => Seq([if OneByte(e) then FromByte(e, 7) else Lost(e)])
    case Array(e, n) => Seq(seq(n, _ => Lost(e)))
    case Map(k, e) => Assoc([if Copyable(k) then Entry(Default(k), Lost(e)) else Entry(Lost(k), Default(e))])
    case Optional(e) => Opt(Some(Lost(e)))
    case Variant(alts) =>
      var i := FirstLossy(alts);
      Case(i, Lost(alts[i]))
    case Tuple(ts) =>
      Seq(seq(|ts|, i requires 0 <= i < |ts| => if Copyable(ts[i]) then Default(ts[i]) else Lost(ts[i])))
  }

  lemma {:induction false} LostGood(t: ScaleType)
    requires Expressible(t) && !Copyable(t)
    ensures HasType(t, Lost(t)) && CompactsFit(t, Lost(t))
    decreases t
  {
    match t
    case Vector(e) =>
      if OneByte(e) {
        ByteTyped(e, 7);
        ByteEncodes(e, FromByte(e, 7));
        EncodesIff(e, FromByte(e, 7));
      } else {
        LostGood(e);
      }
    case Array(e, _) => LostGood(e);
    case Map(k, e) =>
      if Copyable(k) {
        DefaultGood(k);
        LostGood(e);
      } else {
        LostGood(k);
        DefaultGood(e);
      }
    case Optional(e) => LostGood(e);
    case Variant(alts) => LostGood(alts[FirstLossy(alts)]);
    case Tuple(ts) =>
      forall i | 0 <= i < |ts|
        ensures HasType(ts[i], Lost(t).vs[i]) && CompactsFit(ts[i], Lost(t).vs[i])
      {
        if Copyable(ts[i]) {
          DefaultGood(ts[i]);
        } else {
          LostGood(ts[i]);
        }
      }
  }

  /** Not read as `v`. */
  ghost predicate Misread<T(!new)>(r: Option<(T, Bytes)>, v: T) {
    r.Some? ==> r.value.0 != v
  }

  /** Whatever follows, the value is not read back. */
  lemma {:induction false} LostIsLost(t: ScaleType, rest: Bytes)
    requires Expressible(t) && !Copyable(t)
    ensures HasType(t, Lost(t)) && Encode(t, Lost(t)).Some?
    ensures Misread(Decode(t, Encode(t, Lost(t)).value + rest), Lost(t))
    decreases t
  {
    LostGood(t);
    EncodesIff(t, Lost(t));
    match t
    case Vector(e) => LostVector(t, rest);
    case Array(e, n) => LostArray(t, rest);
    case Map(_, _) => LostMap(t, rest);
    case Optional(_) => LostOptional(t, rest);
    case Variant(_) => LostVariant(t, rest);
    case Tuple(ts) => LostMembers(ts, Lost(t).vs, rest);
  }

  lemma {:induction false} LostOptional(t: ScaleType, rest: Bytes)
    requires t.Optional? && Expressible(t) && !Copyable(t) && HasType(t, Lost(t)) && Encode(t, Lost(t)).Some?
    ensures Misread(Decode(t, Encode(t, Lost(t)).value + rest), Lost(t))
    decreases t, 0
  {
    var e := t.elem;
    LostIsLost(e, rest);
    var x := Encode(e, Lost(e)).value;
    assert ([1] + x + rest)[1..] == x + rest;
  }

  lemma {:induction false} LostVariant(t: ScaleType, rest: Bytes)
    requires t.Variant? && Expressible(t) && !Copyable(t) && HasType(t, Lost(t)) && Encode(t, Lost(t)).Some?
    ensures Misread(Decode(t, Encode(t, Lost(t)).value + rest), Lost(t))
    decreases t, 0
  {
    var i := FirstLossy(t.alts);
    LostIsLost(t.alts[i], rest);
    var x := Encode(t.alts[i], Lost(t.alts[i])).value;
    assert ([i] + x + rest)[0] == i && ([i] + x + rest)[1..] == x + rest;
  }

  lemma {:induction false} ByteLost(e: ScaleType)
    requires OneByte(e) && Prefixed(e)
    ensures FromByte(e, 4) != FromByte(e, 7)
  {
    if e.Tuple? {
      ByteLost(e.members[0]);
      assert [FromByte(e.members[0], 4)][0] != [FromByte(e.members[0], 7)][0];
    }
  }

  lemma {:induction false} ByteStart(e: ScaleType, v: ScaleValue)
    requires OneByte(e) && Prefixed(e) && HasType(e, v)
    ensures Encode(e, v).Some? && |Encode(e, v).value| == 2 && Encode(e, v).value[0] == 4
  {
    match e
    case FixedBytes(_) => assert CI.EncodeCompact(1) == Some([4]);
    case Tuple(ts) =>
      assert ts == [ts[0]] && v.vs == [v.vs[0]];
      ByteStart(ts[0], v.vs[0]);
      OneMember(ts[0], v.vs[0]);
  }

  lemma {:induction false} LostVector(t: ScaleType, rest: Bytes)
    requires t.Vector? && Expressible(t) && !Copyable(t) && HasType(t, Lost(t)) && Encode(t, Lost(t)).Some?
    ensures Misread(Decode(t, Encode(t, Lost(t)).value + rest), Lost(t))
    decreases t, 0
  {
    var e, v := t.elem, Lost(t).vs[0];
    OneElement(t, v);
    var x := Encode(e, v).value;
    var s := Encode(t, Lost(t)).value + rest;
    assert s == [4] + (x + rest);
    assert CI.DecodeCompact(s) == Some((1, s[1..])) && s[1..] == x + rest;
    if OneByte(e) {
      ByteStart(e, v);
      ByteLost(e);
      CopyOne(e, s);
      assert [FromByte(e, 4)][0] != Lost(t).vs[0];
    } else {
      LostIsLost(e, rest);
      if Decode(e, x + rest).Some? {
        var (w, next) := Decode(e, x + rest).value;
        assert DecodeEach(t, 0, next) == Some(([], next));
        assert DecodeEach(t, 1, x + rest) == Some(([w] + [], next));
        assert ([w] + [])[0] != v;
      }
    }
  }

  lemma {:induction false} LostArray(t: ScaleType, rest: Bytes)
    requires t.Array? && Expressible(t) && !Copyable(t) && HasType(t, Lost(t)) && Encode(t, Lost(t)).Some?
    ensures Misread(Decode(t, Encode(t, Lost(t)).value + rest), Lost(t))
    decreases t, 0
  {
    var e, vs := t.elem, Lost(t).vs;
    var x, more := Encode(e, vs[0]).value, EncodeEach(t, vs[1..]).value;
    assert x + more + rest == x + (more + rest);
    LostIsLost(e, more + rest);
    var r := DecodeEach(t, t.count, x + (more + rest));
    if r.Some? {
      assert r.value.0[0] == Decode(e, x + (more + rest)).value.0;
    }
  }

  lemma {:induction false} LostMap(t: ScaleType, rest: Bytes)
    requires t.Map? && Expressible(t) && !Copyable(t) && HasType(t, Lost(t)) && Encode(t, Lost(t)).Some?
    ensures Misread(Decode(t, Encode(t, Lost(t)).value + rest), Lost(t))
    decreases t, 1
  {
    var es := Lost(t).entries;
    var e := es[0];
    assert es == [e];
    OneEntry(t, e);
    var x, y := Encode(t.key, e.k).value, Encode(t.val, e.v).value;
    var s := Encode(t, Lost(t)).value + rest;
    assert s == [4] + (x + (y + rest));
    assert CI.DecodeCompact(s) == Some((1, s[1..])) && s[1..] == x + (y + rest);
    hide Encode, EncodeEntries, HasType, Decode, DecodeEntries;
    LostMapEntry(t, e, x, y, rest);
    OneEntryDecodes(t, s);
  }

  lemma OneEntry(t: ScaleType, e: Entry)
    requires t.Map? && HasType(t, Assoc([e])) && Encode(t, Assoc([e])).Some?
    ensures HasType(t.key, e.k) && HasType(t.val, e.v) && Encode(t.key, e.k).Some? && Encode(t.val, e.v).Some?
    ensures Encode(t, Assoc([e])).value == [4] + (Encode(t.key, e.k).value + Encode(t.val, e.v).value)
  {
    assert [e][0] == e;
    assert HasType(t.key, [e][0].k) && HasType(t.val, [e][0].v);
    assert [e][1..] == [] && EncodeEntries(t, []) == Some([]);
    assert CI.EncodeCompact(1) == Some([4]);
  }

  lemma OneEntryDecodes(t: ScaleType, s: Bytes)
    requires t.Map? && s != [] && CI.DecodeCompact(s) == Some((1, s[1..]))
    ensures Decode(t, s) ==
            var r := DecodeEntries(t, 1, s[1..], []); if r.None? then None else Some((Assoc(r.value.0), r.value.1))
  {
    hide CI.DecodeCompact, DecodeEntries;
  }

  lemma {:induction false} LostMapEntry(t: ScaleType, e: Entry, x: Bytes, y: Bytes, rest: Bytes)
    requires t.Map? && Expressible(t) && !Copyable(t) && Lost(t) == Assoc([e])
    requires HasType(t.key, e.k) && HasType(t.val, e.v)
    requires Encode(t.key, e.k) == Some(x) && Encode(t.val, e.v) == Some(y)
    ensures Misread(DecodeEntries(t, 1, x + (y + rest), []), [e])
    decreases t, 0
  {
    hide Encode, Decode, HasType, DecodeEntries;
    if Copyable(t.key) {
      DefaultGood(t.key);
      RoundTrip(t.key, e.k, y + rest);
      LostIsLost(t.val, rest);
    } else {
      LostIsLost(t.key, y + rest);
    }
    LostEntry(t, e, x + (y + rest));
  }

  lemma LostEntry(t: ScaleType, e: Entry, s: Bytes)
    requires t.Map?
    requires var k := Decode(t.key, s); Misread(k, e.k) || (k.Some? && Misread(Decode(t.val, k.value.1), e.v))
    ensures Misread(DecodeEntries(t, 1, s, []), [e])
  {
    hide Decode;
    if Decode(t.key, s).Some? {
      var k := Decode(t.key, s).value;
      if Decode(t.val, k.1).Some? {
        var v := Decode(t.val, k.1).value;
        var got := Entry(k.0, v.0);
        assert Emplace([], got) == [got] && [got][0] != [e][0];
        assert DecodeEntries(t, 0, v.1, [got]) == Some(([got], v.1));
      }
    }
  }

  lemma {:induction false} LostMembers(ts: seq<ScaleType>, vs: seq<ScaleValue>, rest: Bytes)
    requires |ts| == |vs| && (exists i :: 0 <= i < |ts| && !Copyable(ts[i]))
    requires forall i :: 0 <= i < |ts| ==> Expressible(ts[i]) && HasType(ts[i], vs[i])
    requires forall i :: 0 <= i < |ts| ==> vs[i] == if Copyable(ts[i]) then Default(ts[i]) else Lost(ts[i])
    requires EncodeMembers(ts, vs).Some?
    ensures Misread(DecodeMembers(ts, EncodeMembers(ts, vs).value + rest), vs)
    decreases ts
  {
    hide Encode, Decode, HasType, Expressible, Copyable;
    var x, more := Encode(ts[0], vs[0]).value, EncodeMembers(ts[1..], vs[1..]).value;
    assert x + more + rest == x + (more + rest);
    var s := x + (more + rest);
    var r := DecodeMembers(ts, s);
    if Copyable(ts[0]) {
      DefaultGood(ts[0]);
      RoundTrip(ts[0], vs[0], more + rest);
      assert exists i :: 0 <= i < |ts[1..]| && !Copyable(ts[1..][i]) by {
        var i :| 0 <= i < |ts| && !Copyable(ts[i]);
        assert ts[1..][i - 1] == ts[i];
      }
      LostMembers(ts[1..], vs[1..], rest);
      if r.Some? {
        assert r.value.0[1..] == DecodeMembers(ts[1..], more + rest).value.0;
      }
    } else {
      LostIsLost(ts[0], more + rest);
      if r.Some? {
        assert r.value.0[0] == Decode(ts[0], s).value.0;
      }
    }
  }

  /** The round trip holds for a type exactly if it is copyable. */
  lemma RoundTripsIff(t: ScaleType)
    requires Expressible(t)
    ensures RoundTrips(t) <==> Copyable(t)
  {
    hide Encode, Decode, HasType, Copyable, Expressible;
    if Copyable(t) {
      forall v, rest | HasType(t, v) && Encode(t, v).Some?
        ensures ComesBack(t, v, rest)
      {
        CopyableRecovers(t, v);
        RoundTrip(t, v, rest);
      }
    } else {
      LostIsLost(t, []);
      assert !ComesBack(t, Lost(t), []);
    }
  }

  /** For one value of such a type the round trip can still succeed: here what
      one vector leaves unread is made up for by a boolean and a compact integer
      that accept other bytes. */
  lemma LostVectorMadeUpFor(rest: Bytes)
    ensures var v := Seq([Seq([Blob([4])]), Seq([Bool(true)]), Int(0)]);
            && HasType(LOSSY, v) && Encode(LOSSY, v) == Some([4, 4, 4, 4, 1, 0]) && !Recoverable(LOSSY, v)
            && Decode(LOSSY, [4, 4, 4, 4, 1, 0] + rest) == Some((v, rest))
  {
    LossyEncoded();
    LossyDecoded(rest);
  }

  const LOSSY: ScaleType := Tuple([Vector(FixedBytes(1)), Vector(Boolean), Compact])

  lemma LossyEncoded()
    ensures var v := Seq([Seq([Blob([4])]), Seq([Bool(true)]), Int(0)]);
            HasType(LOSSY, v) && Encode(LOSSY, v) == Some([4, 4, 4, 4, 1, 0]) && !Recoverable(LOSSY, v)
  {
    var ts, vs := LOSSY.members, [Seq([Blob([4])]), Seq([Bool(true)]), Int(0)];
    hide Encode, EncodeMembers, HasType, Recoverable;
    LossyLeaves();
    OneElement(ts[0], Blob([4]));
    OneElement(ts[1], Bool(true));
    LossyMembers(ts, vs);
    LossyTuple(ts, vs);
    TupleEncode(ts, vs);
  }

  lemma LossyTuple(ts: seq<ScaleType>, vs: seq<ScaleValue>)
    requires |ts| == |vs| == 3 && HasType(ts[0], vs[0]) && HasType(ts[1], vs[1]) && HasType(ts[2], vs[2])
    requires ts[0] == Vector(FixedBytes(1)) && vs[0].vs != []
    ensures HasType(Tuple(ts), Seq(vs)) && !Recoverable(Tuple(ts), Seq(vs))
  {
    assert !Recoverable(ts[0], vs[0]);
  }

  lemma LossyLeaves()
    ensures HasType(FixedBytes(1), Blob([4])) && Encode(FixedBytes(1), Blob([4])) == Some([4] + [4])
    ensures HasType(Boolean, Bool(true)) && Encode(Boolean, Bool(true)) == Some([1])
    ensures HasType(Compact, Int(0)) && Encode(Compact, Int(0)) == Some([0])
  {
    assert CI.EncodeCompact(1) == Some([4]) && CI.EncodeCompact(0) == Some([0]);
  }

  lemma TupleEncode(ts: seq<ScaleType>, vs: seq<ScaleValue>)
    requires HasType(Tuple(ts), Seq(vs))
    ensures Encode(Tuple(ts), Seq(vs)) == EncodeMembers(ts, vs)
  {
    hide EncodeMembers, HasType;
  }

  lemma LossyMembers(ts: seq<ScaleType>, vs: seq<ScaleValue>)
    requires |ts| == |vs| == 3 && HasType(ts[0], vs[0]) && HasType(ts[1], vs[1]) && HasType(ts[2], vs[2])
    requires Encode(ts[0], vs[0]) == Some([4] + ([4] + [4])) && Encode(ts[1], vs[1]) == Some([4] + [1])
    requires Encode(ts[2], vs[2]) == Some([0])
    ensures EncodeMembers(ts, vs) == Some([4, 4, 4, 4, 1, 0])
  {
    hide Encode, HasType;
    assert ts[1..][1..] == [ts[2]] && vs[1..][1..] == [vs[2]];
    OneMember(ts[2], vs[2]);
    assert EncodeMembers(ts[1..], vs[1..]) == Some([4] + [1] + [0]);
    assert EncodeMembers(ts, vs) == Some([4] + ([4] + [4]) + ([4] + [1] + [0]));
    assert [4] + ([4] + [4]) + ([4] + [1] + [0]) == [4, 4, 4, 4, 1, 0];
  }

  lemma OneElement(t: ScaleType, v: ScaleValue)
    requires t.Vector? && HasType(t.elem, v) && Encode(t.elem, v).Some?
    ensures HasType(t, Seq([v])) && Encode(t, Seq([v])) == Some([4] + Encode(t.elem, v).value)
  {
    assert CI.EncodeCompact(1) == Some([4]);
    assert [v][1..] == [] && EncodeEach(t, []) == Some([]);
    assert Encode(t.elem, v).value + [] == Encode(t.elem, v).value;
    assert EncodeEach(t, [v]) == Encode(t.elem, v);
  }

  lemma LossyDecoded(rest: Bytes)
    ensures Decode(LOSSY, [4, 4, 4, 4, 1, 0] + rest) ==
            Some((Seq([Seq([Blob([4])]), Seq([Bool(true)]), Int(0)]), rest))
  {
    var ts, s := LOSSY.members, [4, 4, 4, 4, 1, 0] + rest;
    CopyOne(FixedBytes(1), s);
    CopyOne(Boolean, s[2..]);
    assert s[2..][2..] == s[4..] && s[4..][2..] == s[6..] == rest;
    assert Decode(ts[2], s[4..]) == Some((Int(0), s[6..]));
    hide Decode;
    assert ts[1..][1..] == [ts[2]] && [ts[2]][1..] == [];
    assert DecodeMembers([ts[2]], s[4..]) == Some(([Int(0)] + [], rest));
    assert DecodeMembers(ts[1..], s[2..]) == Some(([Seq([Bool(true)])] + ([Int(0)] + []), rest));
    assert DecodeMembers(ts, s) == Some(([Seq([Blob([4])])] + ([Seq([Bool(true)])] + ([Int(0)] + [])), rest));
    assert [Seq([Blob([4])])] + ([Seq([Bool(true)])] + ([Int(0)] + [])) == [Seq([Blob([4])]), Seq([Bool(true)]), Int(0)];
    assert Decode(LOSSY, s) == Some((Seq(DecodeMembers(ts, s).value.0), rest)) by { TupleDecode(ts, s); }
  }

  lemma TupleDecode(ts: seq<ScaleType>, s: Bytes)
    requires DecodeMembers(ts, s).Some?
    ensures Decode(Tuple(ts), s) == Some((Seq(DecodeMembers(ts, s).value.0), DecodeMembers(ts, s).value.1))
  {
    hide DecodeMembers;
  }

  lemma CopyOne(e: ScaleType, s: Bytes)
    requires OneByte(e) && |s| >= 2 && s[0] == 4
    ensures Decode(Vector(e), s) == Some((Seq([FromByte(e, s[1])]), s[2..]))
  {
    hide FromByte;
    assert CI.DecodeCompact(s) == Some((1, s[1..]));
    assert s[1..][..1] == [s[1]] && s[1..][1..] == s[2..];
    assert FromBytes(e, [s[1]]) == [FromByte(e, s[1])];
  }
}
