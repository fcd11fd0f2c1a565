/** The encoding the "Formal Specification of the Encoding" of the Solidity
    Contract ABI Specification defines, and exactly when the codec's is the
    same. */
module AbiStandard {
  import opened Wrappers
  import opened Bytes
  import opened AbiTypes
  import opened AbiCodec
  import opened AbiRoundTrip

  // ---- The standard ----

  /** A tuple is dynamic only when one of its members is. */
  predicate StdDynamic(t: AbiType)
    decreases t
  {
    match t
    case Fixed(e, _) => StdDynamic(e)
    case DynBytes => true
    case Str => true
    case Vector(_) => true
    case Tuple(ts) => exists i :: 0 <= i < |ts| && StdDynamic(ts[i])
    case _ => false
  }

  /** uint256: big-endian, in 32 bytes. */
  function StdWord(n: nat): (w: Bytes)
    ensures |w| == 32
  {
    BeBytes(n, 32)
  }

  /** Zero bytes on the right up to a multiple of 32. */
  function StdPadded(s: Bytes): Bytes
    decreases 32 - (|s| + 31) % 32
  {
    if |s| % 32 == 0 then s else StdPadded(s + [0])
  }

  function StdEnc(t: AbiType, v: AbiValue): Bytes
    requires HasType(t, v)
    decreases v
  {
    match t
    case Uint => StdWord(v.i)
    case Int => StdWord(if v.i >= 0 then v.i else TWO256 + v.i)
    case Bool => StdWord(if v.b then 1 else 0)
    case Address => StdWord(BeValue(v.s))
    case Bytes32 => StdPadded(v.s)
    case DynBytes => StdWord(|v.s|) + StdPadded(v.s)
    case Str => StdWord(|v.s|) + StdPadded(v.s)
    case Fixed(e, n) => StdBody(Repeat(e, n), v.vs)
    case Vector(e) => StdWord(|v.vs|) + StdBody(Repeat(e, |v.vs|), v.vs)
    case Tuple(ts) => StdBody(ts, v.vs)
  }

  /** The values the standard has an encoding for: int256 ends at 2^255. */
  predicate StdTyped(t: AbiType, v: AbiValue)
    requires HasType(t, v)
    decreases v
  {
    match t
    case Int => -TWO256 <= 2 * v.i < TWO256
    case Fixed(e, _) => forall i :: 0 <= i < |v.vs| ==> StdTyped(e, v.vs[i])
    case Vector(e) => forall i :: 0 <= i < |v.vs| ==> StdTyped(e, v.vs[i])
    case Tuple(ts) => forall i :: 0 <= i < |ts| ==> StdTyped(ts[i], v.vs[i])
    case _ => true
  }

  predicate AllStdTyped(ts: seq<AbiType>, vs: seq<AbiValue>)
    requires HaveTypes(ts, vs)
  {
    forall i :: 0 <= i < |ts| ==> StdTyped(ts[i], vs[i])
  }

  /** head(X(1)) ... head(X(k)) tail(X(1)) ... tail(X(k)), where the head of a
      dynamic member is the number of bytes before its tail. */
  function StdBody(ts: seq<AbiType>, vs: seq<AbiValue>): Bytes
    requires HaveTypes(ts, vs)
    decreases vs, 1
  {
    StdHead(ts, vs, StdHeadSize(ts, vs)) + StdTail(ts, vs)
  }

  function StdHeadSize(ts: seq<AbiType>, vs: seq<AbiValue>): nat
    requires HaveTypes(ts, vs)
    decreases vs, 0
  {
    if ts == [] then 0
    else (if StdDynamic(ts[0]) then 32 else |StdEnc(ts[0], vs[0])|) + StdHeadSize(ts[1..], vs[1..])
  }

  function StdHead(ts: seq<AbiType>, vs: seq<AbiValue>, before: nat): Bytes
    requires HaveTypes(ts, vs)
    decreases vs, 0
  {
    if ts == [] then []
    else
      var enc := StdEnc(ts[0], vs[0]);
      if StdDynamic(ts[0]) then StdWord(before) + StdHead(ts[1..], vs[1..], before + |enc|)
      else enc + StdHead(ts[1..], vs[1..], before)
  }

  function StdTail(ts: seq<AbiType>, vs: seq<AbiValue>): Bytes
    requires HaveTypes(ts, vs)
    decreases vs, 0
  {
    if ts == [] then []
    else (if StdDynamic(ts[0]) then StdEnc(ts[0], vs[0]) else []) + StdTail(ts[1..], vs[1..])
  }

  // ---- When the codec conforms ----

  /** The codec and the standard agree on whether the type is dynamic: it is not
      a static tuple or an array of those. */
  predicate Agrees(t: AbiType) {
    IsDynamic(t) == StdDynamic(t)
  }

  /** Numbers are in range, no member is a static tuple, and a tuple with dynamic
      members has one head word per member. */
  predicate Conforms(t: AbiType, v: AbiValue)
    requires HasType(t, v)
    decreases v
  {
    match t
    case Int => -TWO256 <= 2 * v.i < TWO256
    case Fixed(e, n) => AllConform(Repeat(e, n), v.vs)
    case Vector(e) => AllConform(Repeat(e, |v.vs|), v.vs)
    case Tuple(ts) => AllConform(ts, v.vs) && (AnyDynamic(ts) ==> SumWords(ts) == |ts|)
    case _ => true
  }

  predicate AllConform(ts: seq<AbiType>, vs: seq<AbiValue>)
    requires HaveTypes(ts, vs)
    decreases vs, 0
  {
    ts != [] ==> Agrees(ts[0]) && Conforms(ts[0], vs[0]) && AllConform(ts[1..], vs[1..])
  }

  // ---- Words, strings and addresses ----

  lemma StdWordIs(n: int)
    ensures Word(n) == StdWord(n % TWO256) && (n >= 0 ==> Word(n) == StdWord(n))
  {
    hide Pow256, BeBytes;
    if n >= 0 {
      Pow256Wide();
      BeBytesMod(n, 32);
    }
  }

  lemma {:induction false} PaddedIs(s: Bytes)
    ensures StdPadded(s) == s + Zeros(RoundUp(|s|) - |s|)
    decreases 32 - (|s| + 31) % 32
  {
    if |s| % 32 == 0 {
      assert s + Zeros(0) == s;
    } else {
      PaddedIs(s + [0]);
      var n := RoundUp(|s|) - |s|;
      assert [0] + Zeros(n - 1) == Zeros(n);
      assert s + [0] + Zeros(n - 1) == s + ([0] + Zeros(n - 1));
    }
  }

  lemma {:induction false} WidenedIs(v: nat, n: nat, k: nat)
    requires v < Pow256(n)
    ensures BeBytes(v, n + k) == Zeros(k) + BeBytes(v, n)
  {
    hide Pow256, BeBytes;
    if k == 0 {
      assert Zeros(0) + BeBytes(v, n) == BeBytes(v, n);
    } else {
      WidenedIs(v, n, k - 1);
      Pow256Mono(n, n + k - 1);
      BeBytesWider(v, n + k - 1);
      assert [0] + Zeros(k - 1) == Zeros(k);
      assert [0] + (Zeros(k - 1) + BeBytes(v, n)) == Zeros(k) + BeBytes(v, n);
    }
  }

  lemma AddressIs(s: Bytes)
    requires |s| == 20
    ensures StdWord(BeValue(s)) == Zeros(12) + s
  {
    hide Pow256, BeBytes, BeValue;
    BeValueBound(s);
    BeBytesOfValue(s);
    WidenedIs(BeValue(s), 20, 12);
  }

  /** What is not composite is always encoded as the standard says. */
  lemma LeafEqual(t: AbiType, v: AbiValue)
    requires HasType(t, v) && !t.Fixed? && !t.Vector? && !t.Tuple?
    ensures Serialise(t, v) == StdEnc(t, v)
  {
    hide Word, StdWord, StdPadded;
    match t
    case Uint => StdWordIs(v.i);
    case Int =>
      StdWordIs(v.i);
      if v.i < 0 {
        DivModUnique(v.i + TWO256, 0, v.i + TWO256, TWO256);
        assert v.i % TWO256 == v.i + TWO256;
      }
    case Bool => StdWordIs(if v.b then 1 else 0);
    case Address => AddressIs(v.s);
    case Bytes32 =>
      PaddedIs(v.s);
      assert v.s + Zeros(0) == v.s;
    case DynBytes => StringIs(v.s);
    case Str => StringIs(v.s);
  }

  lemma StringIs(s: Bytes)
    ensures Word(|s|) + s + Zeros(RoundUp(|s|) - |s|) == StdWord(|s|) + StdPadded(s)
  {
    hide Word, StdWord, StdPadded;
    StdWordIs(|s|);
    PaddedIs(s);
    var z := Zeros(RoundUp(|s|) - |s|);
    assert Word(|s|) + s + z == Word(|s|) + (s + z);
  }

  // ---- Lengths ----

  /** How many offset words the codec adds for static tuples. */
  function Extra(t: AbiType, v: AbiValue): nat
    requires HasType(t, v)
    decreases v
  {
    match t
    case Fixed(e, n) => ExtraAll(Repeat(e, n), v.vs)
    case Vector(e) => ExtraAll(Repeat(e, |v.vs|), v.vs)
    case Tuple(ts) => ExtraAll(ts, v.vs)
    case _ => 0
  }

  function ExtraAll(ts: seq<AbiType>, vs: seq<AbiValue>): nat
    requires HaveTypes(ts, vs)
    decreases vs, 0
  {
    if ts == [] then 0
    else (if Agrees(ts[0]) then 0 else 1) + Extra(ts[0], vs[0]) + ExtraAll(ts[1..], vs[1..])
  }

  lemma {:induction false} StdImpliesDynamic(t: AbiType)
    ensures StdDynamic(t) ==> IsDynamic(t)
    decreases t
  {
    if t.Fixed? {
      StdImpliesDynamic(t.elem);
    }
  }

  lemma {:induction false} LengthDifference(t: AbiType, v: AbiValue)
    requires HasType(t, v)
    ensures |Serialise(t, v)| == |StdEnc(t, v)| + 32 * Extra(t, v)
    decreases v, 0
  {
    match t
    case Fixed(e, n) => MembersDifference(Repeat(e, n), v.vs, 32 * n, StdHeadSize(Repeat(e, n), v.vs));
    case Vector(e) =>
      var n := |v.vs|;
      MembersDifference(Repeat(e, n), v.vs, 32 * n, StdHeadSize(Repeat(e, n), v.vs));
    case Tuple(ts) => MembersDifference(ts, v.vs, 32 * |ts|, StdHeadSize(ts, v.vs));
    case _ => LeafEqual(t, v);
  }

  lemma {:induction false} MembersDifference(ts: seq<AbiType>, vs: seq<AbiValue>, start: nat, before: nat)
    requires HaveTypes(ts, vs)
    ensures |Head(ts, vs, start)| + |Tail(ts, vs)| ==
            |StdHead(ts, vs, before)| + |StdTail(ts, vs)| + 32 * ExtraAll(ts, vs)
    decreases vs, 0
  {
    hide Serialise, StdEnc, IsDynamic, StdDynamic, HasType, Extra, Word, StdWord;
    if ts != [] {
      LengthDifference(ts[0], vs[0]);
      StdImpliesDynamic(ts[0]);
      MembersDifference(ts[1..], vs[1..],
                        if IsDynamic(ts[0]) then start + |Serialise(ts[0], vs[0])| else start,
                        if StdDynamic(ts[0]) then before + |StdEnc(ts[0], vs[0])| else before);
    }
  }

  // ---- Conforming values are encoded by the standard ----

  lemma {:induction false} ConformsEqual(t: AbiType, v: AbiValue)
    requires HasType(t, v) && Conforms(t, v)
    ensures StdTyped(t, v) && Serialise(t, v) == StdEnc(t, v)
    decreases v, 1
  {
    hide Body, StdBody, Word, StdWord;
    match t
    case Fixed(e, n) =>
      RepeatSum(e, n);
      BodyEqual(Repeat(e, n), v.vs);
    case Vector(e) =>
      RepeatSum(e, |v.vs|);
      BodyEqual(Repeat(e, |v.vs|), v.vs);
      StdWordIs(|v.vs|);
    case Tuple(ts) => BodyEqual(ts, v.vs);
    case _ => LeafEqual(t, v);
  }

  lemma RepeatSum(e: AbiType, n: nat)
    ensures AnyDynamic(Repeat(e, n)) ==> SumWords(Repeat(e, n)) == n
  {
    SumRepeat(e, n);
  }

  lemma {:induction false} BodyEqual(ts: seq<AbiType>, vs: seq<AbiValue>)
    requires HaveTypes(ts, vs) && AllConform(ts, vs) && (AnyDynamic(ts) ==> SumWords(ts) == |ts|)
    ensures AllStdTyped(ts, vs) && Body(ts, vs) == StdBody(ts, vs)
    decreases vs, 1
  {
    hide HasType, Head, Tail, StdHead, StdTail, StdHeadSize, AllConform;
    var size := 32 * SumWords(ts);
    MembersEqual(ts, vs, size);
    if !AnyDynamic(ts) {
      HeadWithoutOffsets(ts, vs, WORD * |ts|, size);
    }
  }

  lemma {:induction false} HeadWithoutOffsets(ts: seq<AbiType>, vs: seq<AbiValue>, a: nat, b: nat)
    requires HaveTypes(ts, vs) && !AnyDynamic(ts)
    ensures Head(ts, vs, a) == Head(ts, vs, b)
    decreases vs
  {
    if ts != [] {
      FirstDynamic(ts);
      HeadWithoutOffsets(ts[1..], vs[1..], a, b);
    }
  }

  lemma {:induction false} MembersEqual(ts: seq<AbiType>, vs: seq<AbiValue>, start: nat)
    requires HaveTypes(ts, vs) && AllConform(ts, vs)
    ensures Head(ts, vs, start) == StdHead(ts, vs, start) && Tail(ts, vs) == StdTail(ts, vs)
    ensures AllStdTyped(ts, vs) && StdHeadSize(ts, vs) == 32 * SumWords(ts)
    decreases vs, 0
  {
    hide Serialise, StdEnc, StdTyped, IsDynamic, StdDynamic, HasType, Conforms, Word, StdWord, Words;
    if ts != [] {
      ConformsEqual(ts[0], vs[0]);
      StdWordIs(start);
      if IsDynamic(ts[0]) {
        DynamicWords(ts[0]);
        MembersEqual(ts[1..], vs[1..], start + |Serialise(ts[0], vs[0])|);
      } else {
        StaticLength(ts[0], vs[0]);
        MembersEqual(ts[1..], vs[1..], start);
      }
    }
  }

  // ---- Only conforming values are ----

  lemma {:induction false} EqualConforms(t: AbiType, v: AbiValue)
    requires HasType(t, v) && StdTyped(t, v) && |Serialise(t, v)| < TWO64 && Serialise(t, v) == StdEnc(t, v)
    ensures Conforms(t, v)
    decreases v, 2
  {
    hide Body, StdBody, AllConform, Word, StdWord;
    match t
    case Fixed(e, n) => BodyConforms(Repeat(e, n), v.vs);
    case Vector(e) =>
      var ts := Repeat(e, |v.vs|);
      SamePrefix(Word(|v.vs|), Body(ts, v.vs), StdWord(|v.vs|), StdBody(ts, v.vs));
      BodyConforms(ts, v.vs);
    case Tuple(ts) => BodyConforms(ts, v.vs);
    case _ =>
  }

  lemma SamePrefix(a: Bytes, b: Bytes, c: Bytes, d: Bytes)
    requires |a| == |c| && a + b == c + d
    ensures a == c && b == d
  {
    assert a == (a + b)[..|a|] && c == (c + d)[..|c|];
    assert b == (a + b)[|a|..] && d == (c + d)[|c|..];
  }

  lemma {:induction false} BodyConforms(ts: seq<AbiType>, vs: seq<AbiValue>)
    requires HaveTypes(ts, vs) && AllStdTyped(ts, vs)
    requires |ts| < TWO64 && |Body(ts, vs)| < TWO64 && Body(ts, vs) == StdBody(ts, vs)
    ensures AllConform(ts, vs) && (AnyDynamic(ts) ==> SumWords(ts) == |ts|)
    decreases vs, 1
  {
    hide HasType, Head, Tail, StdHead, StdTail, StdHeadSize, AllConform, AnyDynamic;
    var start, before := WORD * |ts|, StdHeadSize(ts, vs);
    MembersDifference(ts, vs, start, before);
    NoExtraLengths(ts, vs, start, before);
    HeadLength(ts, vs, start);
    SamePrefix(Head(ts, vs, start), Tail(ts, vs), StdHead(ts, vs, before), StdTail(ts, vs));
    MembersConform(ts, vs, start, before);
  }

  /** Without extra offset words every piece has its standard length. */
  lemma {:induction false} NoExtraLengths(ts: seq<AbiType>, vs: seq<AbiValue>, start: nat, before: nat)
    requires HaveTypes(ts, vs) && ExtraAll(ts, vs) == 0
    ensures |Head(ts, vs, start)| == |StdHead(ts, vs, before)| && |Tail(ts, vs)| == |StdTail(ts, vs)|
    ensures StdHeadSize(ts, vs) == 32 * SumWords(ts)
    decreases vs
  {
    hide Serialise, StdEnc, IsDynamic, StdDynamic, HasType, Extra, Word, StdWord, Words;
    if ts != [] {
      LengthDifference(ts[0], vs[0]);
      if IsDynamic(ts[0]) {
        DynamicWords(ts[0]);
        NoExtraLengths(ts[1..], vs[1..], start + |Serialise(ts[0], vs[0])|, before + |StdEnc(ts[0], vs[0])|);
      } else {
        StaticLength(ts[0], vs[0]);
        NoExtraLengths(ts[1..], vs[1..], start, before);
      }
    }
  }

  lemma {:induction false} MembersConform(ts: seq<AbiType>, vs: seq<AbiValue>, start: nat, before: nat)
    requires HaveTypes(ts, vs) && AllStdTyped(ts, vs) && ExtraAll(ts, vs) == 0
    requires Head(ts, vs, start) == StdHead(ts, vs, before) && Tail(ts, vs) == StdTail(ts, vs)
    requires start + |Tail(ts, vs)| < TWO256 && before + |Tail(ts, vs)| < TWO256
    requires |Head(ts, vs, start)| < TWO64 && |Tail(ts, vs)| < TWO64
    ensures AllConform(ts, vs) && (AnyDynamic(ts) ==> start == before)
    decreases vs, 0
  {
    hide Serialise, StdEnc, StdTyped, IsDynamic, StdDynamic, HasType, Extra, Word, StdWord, AnyDynamic, Conforms;
    if ts == [] {
      NoMembers(ts);
    } else {
      var out, enc := Serialise(ts[0], vs[0]), StdEnc(ts[0], vs[0]);
      LengthDifference(ts[0], vs[0]);
      FirstDynamic(ts);
      if IsDynamic(ts[0]) {
        SamePrefix(Word(start), Head(ts[1..], vs[1..], start + |out|),
                   StdWord(before), StdHead(ts[1..], vs[1..], before + |enc|));
        StdWordIs(before);
        SamePrefix(out, Tail(ts[1..], vs[1..]), enc, StdTail(ts[1..], vs[1..]));
        SameWord(start, before);
        EqualConforms(ts[0], vs[0]);
        MembersConform(ts[1..], vs[1..], start + |out|, before + |enc|);
      } else {
        SamePrefix(out, Head(ts[1..], vs[1..], start), enc, StdHead(ts[1..], vs[1..], before));
        assert [] + Tail(ts[1..], vs[1..]) == Tail(ts[1..], vs[1..]);
        assert [] + StdTail(ts[1..], vs[1..]) == StdTail(ts[1..], vs[1..]);
        EqualConforms(ts[0], vs[0]);
        MembersConform(ts[1..], vs[1..], start, before);
      }
    }
  }

  lemma NoMembers(ts: seq<AbiType>)
    requires ts == []
    ensures !AnyDynamic(ts)
  {
  }

  lemma SameWord(a: nat, b: nat)
    requires a < TWO256 && b < TWO256 && Word(a) == Word(b)
    ensures a == b
  {
    WordValue(a);
    WordValue(b);
  }

  /** The standard has an encoding for a value, and the codec writes it, exactly
      when the value conforms. */
  lemma ConformsIff(t: AbiType, v: AbiValue)
    requires HasType(t, v) && |Serialise(t, v)| < TWO64
    ensures StdTyped(t, v) && Serialise(t, v) == StdEnc(t, v) <==> Conforms(t, v)
  {
    hide Serialise, StdEnc, StdTyped, Conforms, HasType;
    if Conforms(t, v) {
      ConformsEqual(t, v);
    }
    if StdTyped(t, v) && Serialise(t, v) == StdEnc(t, v) {
      EqualConforms(t, v);
    }
  }

  /** The arguments of a call are encoded as the standard says, as one tuple,
      exactly when each conforms and none is a static tuple: at the top level
      the head size is right. */
  lemma CallConformsIff(ts: seq<AbiType>, vs: seq<AbiValue>)
    requires HaveTypes(ts, vs) && |AbiIn(ts, vs)| < TWO64
    ensures AllStdTyped(ts, vs) && AbiIn(ts, vs) == StdBody(ts, vs) <==> AllConform(ts, vs)
  {
    hide HasType, StdTyped, Head, Tail, StdHead, StdTail, StdHeadSize, AllConform, AnyDynamic;
    var start, before := WORD * SumWords(ts), StdHeadSize(ts, vs);
    HeadLength(ts, vs, start);
    if AllConform(ts, vs) {
      MembersEqual(ts, vs, start);
    }
    if AllStdTyped(ts, vs) && AbiIn(ts, vs) == StdBody(ts, vs) {
      MembersDifference(ts, vs, start, before);
      NoExtraLengths(ts, vs, start, before);
      SamePrefix(Head(ts, vs, start), Tail(ts, vs), StdHead(ts, vs, before), StdTail(ts, vs));
      MembersConform(ts, vs, start, before);
    }
  }
}
