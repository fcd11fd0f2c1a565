/** The layout of encoded data, and decoding it at any offset. */
module AbiRoundTrip {
  import opened Wrappers
  import opened Bytes
  import opened AbiTypes
  import opened AbiCodec

  // ---- Lengths ----

  lemma {:induction false} SumRepeat(e: AbiType, n: nat)
    ensures SumWords(Repeat(e, n)) == n * Words(e)
  {
    hide Words;
    if n == 0 {
      assert 0 * Words(e) == 0;
    } else {
      SumRepeat(e, n - 1);
      MulStep(n, Words(e));
    }
  }

  lemma MulStep(n: nat, w: nat)
    requires n > 0
    ensures n * w == w + (n - 1) * w
  {
  }

  /** A static value fills exactly its words of the head. */
  lemma {:induction false} StaticLength(t: AbiType, v: AbiValue)
    requires HasType(t, v) && !IsDynamic(t)
    ensures |Serialise(t, v)| == 32 * Words(t)
    decreases v
  {
    if t.Fixed? {
      var ts := Repeat(t.elem, t.count);
      HeadLength(ts, v.vs, 32 * |ts|);
      SumRepeat(t.elem, t.count);
      StaticTail(ts, v.vs);
    }
  }

  predicate AnyDynamic(ts: seq<AbiType>) {
    exists i :: 0 <= i < |ts| && IsDynamic(ts[i])
  }

  lemma {:induction false} StaticTail(ts: seq<AbiType>, vs: seq<AbiValue>)
    requires HaveTypes(ts, vs) && !AnyDynamic(ts)
    ensures Tail(ts, vs) == []
    decreases |ts|
  {
    if ts != [] {
      assert !IsDynamic(ts[0]);
      assert forall i :: 0 <= i < |ts[1..]| ==> ts[1..][i] == ts[i + 1];
      StaticTail(ts[1..], vs[1..]);
    }
  }

  /** The head is one word per word of Offset, wherever its offsets point. */
  lemma {:induction false} HeadLength(ts: seq<AbiType>, vs: seq<AbiValue>, start: nat)
    requires HaveTypes(ts, vs)
    ensures |Head(ts, vs, start)| == 32 * SumWords(ts)
    decreases vs
  {
    if ts != [] {
      if IsDynamic(ts[0]) {
        HeadLength(ts[1..], vs[1..], start + |Serialise(ts[0], vs[0])|);
      } else {
        StaticLength(ts[0], vs[0]);
        HeadLength(ts[1..], vs[1..], start);
      }
    }
  }

  /** Every encoding is a whole number of words. */
  lemma {:induction false} Aligned(t: AbiType, v: AbiValue)
    requires HasType(t, v)
    ensures |Serialise(t, v)| % 32 == 0
    decreases v
  {
    hide Body;
    match t
    case Fixed(e, n) => BodyAligned(Repeat(e, n), v.vs);
    case Vector(e) =>
      BodyAligned(Repeat(e, |v.vs|), v.vs);
      SumAligned(32, |Body(Repeat(e, |v.vs|), v.vs)|);
    case Tuple(ts) => BodyAligned(ts, v.vs);
    case DynBytes => SumAligned(32, RoundUp(|v.s|));
    case Str => SumAligned(32, RoundUp(|v.s|));
    case _ =>
  }

  lemma SumAligned(a: nat, b: nat)
    requires a % 32 == 0 && b % 32 == 0
    ensures (a + b) % 32 == 0
  {
  }

  lemma {:induction false} BodyAligned(ts: seq<AbiType>, vs: seq<AbiValue>)
    requires HaveTypes(ts, vs)
    ensures |Body(ts, vs)| % 32 == 0
    decreases vs, 1
  {
    HeadLength(ts, vs, WORD * |ts|);
    TailAligned(ts, vs);
    SumAligned(32 * SumWords(ts), |Tail(ts, vs)|);
  }

  lemma {:induction false} TailAligned(ts: seq<AbiType>, vs: seq<AbiValue>)
    requires HaveTypes(ts, vs)
    ensures |Tail(ts, vs)| % 32 == 0
    decreases vs, 0
  {
    if ts != [] {
      Aligned(ts[0], vs[0]);
      TailAligned(ts[1..], vs[1..]);
      hide Serialise;
      if IsDynamic(ts[0]) {
        SumAligned(|Serialise(ts[0], vs[0])|, |Tail(ts[1..], vs[1..])|);
      }
    }
  }

  // ---- Where things are ----

  /** `s` stands in `data` at `offset`. */
  ghost predicate At(data: Bytes, offset: nat, s: Bytes) {
    offset + |s| <= |data| && data[offset..offset + |s|] == s
  }

  lemma AtSplit(data: Bytes, offset: nat, a: Bytes, b: Bytes)
    ensures At(data, offset, a + b) <==> At(data, offset, a) && At(data, offset + |a|, b)
  {
    if At(data, offset, a + b) {
      assert data[offset..offset + |a|] == (a + b)[..|a|];
      assert data[offset + |a|..offset + |a| + |b|] == (a + b)[|a|..];
    }
  }

  lemma WordValue(n: nat)
    requires n < TWO256
    ensures BeValue(Word(n)) == n
  {
    Pow256Wide();
    BeValueOfBytes(n, 32);
  }

  lemma WordAt(data: Bytes, offset: nat, n: nat)
    requires At(data, offset, Word(n)) && |data| < TWO64 && n < TWO256
    ensures ReadWord(data, offset) == Some(n)
  {
    assert Crop(data, offset, 32) == Word(n);
    WordValue(n);
  }

  // ---- What decoding gives ----

  /** Signed words come back folded into the range the decoder knows. */
  function Wrapped(t: AbiType, v: AbiValue): AbiValue
    requires HasType(t, v)
    decreases v
  {
    match t
    case Int => Num(Signed(v.i % TWO256))
    case Fixed(e, n) => List(WrappedAll(Repeat(e, n), v.vs))
    case Vector(e) => List(WrappedAll(Repeat(e, |v.vs|), v.vs))
    case Tuple(ts) => List(WrappedAll(ts, v.vs))
    case _ => v
  }

  function WrappedAll(ts: seq<AbiType>, vs: seq<AbiValue>): (r: seq<AbiValue>)
    requires HaveTypes(ts, vs)
    ensures |r| == |vs|
    decreases vs
  {
    if ts == [] then [] else [Wrapped(ts[0], vs[0])] + WrappedAll(ts[1..], vs[1..])
  }

  /** The tuple head the code assumes, one word per member, is the real one
      wherever an offset is counted from it. */
  predicate HeadsFit(t: AbiType)
    decreases t
  {
    match t
    case Fixed(e, _) => HeadsFit(e)
    case Vector(e) => HeadsFit(e)
    case Tuple(ts) =>
      (forall i :: 0 <= i < |ts| ==> HeadsFit(ts[i])) && (AnyDynamic(ts) ==> SumWords(ts) == |ts|)
    case _ => true
  }

  predicate AllFit(ts: seq<AbiType>) {
    forall i :: 0 <= i < |ts| ==> HeadsFit(ts[i])
  }

  /** Decoding looks only at the encoding it is pointed to. */
  lemma {:induction false} DecodeAt(t: AbiType, v: AbiValue, data: Bytes, offset: nat)
    requires HasType(t, v) && HeadsFit(t) && |data| < TWO64 && At(data, offset, Serialise(t, v))
    ensures Decode(t, data, offset) == Some(Wrapped(t, v))
    decreases v, 0
  {
    hide BeBytes, BeValue;
    match t
    case Uint => WordAt(data, offset, v.i);
    case Int => WordAt(data, offset, v.i % TWO256);
    case Bool => WordAt(data, offset, if v.b then 1 else 0);
    case Address => AddressAt(v.s, data, offset);
    case Bytes32 => Bytes32At(v.s, data, offset);
    case DynBytes => BlobAt(v.s, data, offset);
    case Str => BlobAt(v.s, data, offset);
    case Fixed(e, n) =>
      RepeatFits(e, n);
      BodyAt(Repeat(e, n), v.vs, data, offset);
    case Vector(e) => VectorAt(t, v, data, offset);
    case Tuple(ts) => BodyAt(ts, v.vs, data, offset);
  }

  lemma AddressAt(s: Bytes, data: Bytes, offset: nat)
    requires |s| == 20 && |data| < TWO64 && At(data, offset, Zeros(12) + s)
    ensures Decode(Address, data, offset) == Some(Blob(s))
  {
    AtSplit(data, offset, Zeros(12), s);
    assert s + Zeros(0) == s;
  }

  lemma Bytes32At(s: Bytes, data: Bytes, offset: nat)
    requires |s| == 32 && |data| < TWO64 && At(data, offset, s)
    ensures Decode(Bytes32, data, offset) == Some(Blob(s))
  {
    assert s + Zeros(0) == s;
  }

  lemma BlobAt(s: Bytes, data: Bytes, offset: nat)
    requires |data| < TWO64 && At(data, offset, Word(|s|) + s + Zeros(RoundUp(|s|) - |s|))
    ensures DecodeBlob(data, offset) == Some(s)
  {
    AtSplit(data, offset, Word(|s|) + s, Zeros(RoundUp(|s|) - |s|));
    AtSplit(data, offset, Word(|s|), s);
    WordAt(data, offset, |s|);
  }

  lemma RepeatFits(e: AbiType, n: nat)
    requires HeadsFit(e)
    ensures AllFit(Repeat(e, n)) && (AnyDynamic(Repeat(e, n)) ==> SumWords(Repeat(e, n)) == n)
  {
    SumRepeat(e, n);
  }

  lemma {:induction false} VectorAt(t: AbiType, v: AbiValue, data: Bytes, offset: nat)
    requires t.Vector? && HasType(t, v) && HeadsFit(t) && |data| < TWO64 && At(data, offset, Serialise(t, v))
    ensures Decode(t, data, offset) == Some(Wrapped(t, v))
    decreases v.vs, 2
  {
    hide Body, Decode, DecodeMembers, Word, ReadWord, AllFit, AnyDynamic, WrappedAll;
    var n, ts := |v.vs|, Repeat(t.elem, |v.vs|);
    AtSplit(data, offset, Word(n), Body(ts, v.vs));
    WordAt(data, offset, n);
    RepeatFits(t.elem, n);
    BodyAt(ts, v.vs, data, offset + 32);
    VectorRead(t, n, data, offset);
  }

  lemma VectorRead(t: AbiType, n: nat, data: Bytes, offset: nat)
    requires t.Vector? && ReadWord(data, offset) == Some(n) && n < TWO64
    requires offset + 32 < TWO64
    ensures Decode(t, data, offset) ==
            var vs := DecodeMembers(Repeat(t.elem, n), data, offset + 32, 0);
            if vs.None? then None else Some(List(vs.value))
  {
    hide DecodeMembers;
  }

  lemma {:induction false} BodyAt(ts: seq<AbiType>, vs: seq<AbiValue>, data: Bytes, offset: nat)
    requires HaveTypes(ts, vs) && AllFit(ts) && (AnyDynamic(ts) ==> SumWords(ts) == |ts|)
    requires |data| < TWO64 && At(data, offset, Body(ts, vs))
    ensures DecodeMembers(ts, data, offset, 0) == Some(WrappedAll(ts, vs))
    decreases vs, 1
  {
    AtSplit(data, offset, Head(ts, vs, WORD * |ts|), Tail(ts, vs));
    HeadLength(ts, vs, WORD * |ts|);
    MembersAt(ts, vs, data, offset, 0, WORD * |ts|);
  }

  /** Members from position `at` of the head on, with their dynamic contents at
      `start`. */
  lemma {:induction false} MembersAt(ts: seq<AbiType>, vs: seq<AbiValue>, data: Bytes, offset: nat, at: nat, start: nat)
    requires HaveTypes(ts, vs) && AllFit(ts) && |data| < TWO64
    requires At(data, offset + at, Head(ts, vs, start))
    requires AnyDynamic(ts) ==> At(data, offset + start, Tail(ts, vs))
    ensures DecodeMembers(ts, data, offset, at) == Some(WrappedAll(ts, vs))
    decreases vs, 0
  {
    hide Serialise, Wrapped, IsDynamic, HasType, HeadsFit, AnyDynamic, At, DecodeMember, Words, Head, Tail;
    if ts != [] {
      SplitMembers(ts, vs, data, offset, at, start);
      MemberAt(ts[0], vs[0], data, offset, at, start);
      var next := if IsDynamic(ts[0]) then start + |Serialise(ts[0], vs[0])| else start;
      MembersAt(ts[1..], vs[1..], data, offset, at + WORD * Words(ts[0]), next);
    }
  }

  lemma HeadTail(ts: seq<AbiType>, vs: seq<AbiValue>, at: nat)
    requires HaveTypes(ts, vs)
    ensures ts == [] ==> Head(ts, vs, at) == [] && Tail(ts, vs) == []
    ensures ts != [] ==>
              var one := Serialise(ts[0], vs[0]);
              if IsDynamic(ts[0]) then
                && Head(ts, vs, at) == Word(at) + Head(ts[1..], vs[1..], at + |one|)
                && Tail(ts, vs) == one + Tail(ts[1..], vs[1..])
              else Head(ts, vs, at) == one + Head(ts[1..], vs[1..], at) && Tail(ts, vs) == Tail(ts[1..], vs[1..])
  {
    hide Serialise, HasType, Word, IsDynamic;
    if ts != [] && !IsDynamic(ts[0]) {
      assert [] + Tail(ts[1..], vs[1..]) == Tail(ts[1..], vs[1..]);
    }
  }

  /** The first member's part of the head and of the contents, and the rest. */
  lemma SplitMembers(ts: seq<AbiType>, vs: seq<AbiValue>, data: Bytes, offset: nat, at: nat, start: nat)
    requires HaveTypes(ts, vs) && ts != [] && At(data, offset + at, Head(ts, vs, start))
    requires AnyDynamic(ts) ==> At(data, offset + start, Tail(ts, vs))
    ensures var out := Serialise(ts[0], vs[0]);
            if IsDynamic(ts[0]) then At(data, offset + at, Word(start)) && At(data, offset + start, out)
            else At(data, offset + at, out)
    ensures var next := if IsDynamic(ts[0]) then start + |Serialise(ts[0], vs[0])| else start;
            && At(data, offset + (at + WORD * Words(ts[0])), Head(ts[1..], vs[1..], next))
            && (AnyDynamic(ts[1..]) ==> At(data, offset + next, Tail(ts[1..], vs[1..])))
  {
    hide Serialise, HasType, AnyDynamic, At, Head, Tail, Word, Words, IsDynamic;
    FirstDynamic(ts);
    HeadTail(ts, vs, start);
    if IsDynamic(ts[0]) {
      SplitDynamic(ts, vs, data, offset, at, start);
    } else {
      SplitStatic(ts, vs, data, offset, at, start);
    }
  }

  lemma SplitDynamic(ts: seq<AbiType>, vs: seq<AbiValue>, data: Bytes, offset: nat, at: nat, start: nat)
    requires HaveTypes(ts, vs) && ts != [] && IsDynamic(ts[0])
    requires At(data, offset + at, Head(ts, vs, start)) && At(data, offset + start, Tail(ts, vs))
    ensures At(data, offset + at, Word(start)) && At(data, offset + start, Serialise(ts[0], vs[0]))
    ensures var next := start + |Serialise(ts[0], vs[0])|;
            && At(data, offset + (at + WORD * Words(ts[0])), Head(ts[1..], vs[1..], next))
            && At(data, offset + next, Tail(ts[1..], vs[1..]))
  {
    hide Serialise, HasType, At, Head, Tail, Word, Words, IsDynamic;
    var out := Serialise(ts[0], vs[0]);
    HeadTail(ts, vs, start);
    DynamicWords(ts[0]);
    AtSplit(data, offset + at, Word(start), Head(ts[1..], vs[1..], start + |out|));
    AtSplit(data, offset + start, out, Tail(ts[1..], vs[1..]));
  }

  lemma SplitStatic(ts: seq<AbiType>, vs: seq<AbiValue>, data: Bytes, offset: nat, at: nat, start: nat)
    requires HaveTypes(ts, vs) && ts != [] && !IsDynamic(ts[0]) && At(data, offset + at, Head(ts, vs, start))
    ensures At(data, offset + at, Serialise(ts[0], vs[0]))
    ensures At(data, offset + (at + WORD * Words(ts[0])), Head(ts[1..], vs[1..], start))
  {
    hide Serialise, HasType, At, Head, Tail, Word, Words, IsDynamic;
    HeadTail(ts, vs, start);
    StaticLength(ts[0], vs[0]);
    AtSplit(data, offset + at, Serialise(ts[0], vs[0]), Head(ts[1..], vs[1..], start));
  }

  lemma DynamicWords(t: AbiType)
    requires IsDynamic(t)
    ensures Words(t) == 1
  {
  }

  lemma {:induction false} MemberAt(t: AbiType, v: AbiValue, data: Bytes, offset: nat, at: nat, start: nat)
    requires HasType(t, v) && HeadsFit(t) && |data| < TWO64
    requires IsDynamic(t) ==> At(data, offset + at, Word(start)) && At(data, offset + start, Serialise(t, v))
    requires !IsDynamic(t) ==> At(data, offset + at, Serialise(t, v))
    ensures DecodeMember(t, data, offset, at) == Some(Wrapped(t, v))
    decreases v, 1
  {
    hide Serialise, Wrapped, HasType, HeadsFit, IsDynamic;
    if IsDynamic(t) {
      WordAt(data, offset + at, start);
      DecodeAt(t, v, data, offset + start);
    } else {
      DecodeAt(t, v, data, offset + at);
    }
  }

  lemma FirstDynamic(ts: seq<AbiType>)
    requires ts != []
    ensures AnyDynamic(ts) <==> IsDynamic(ts[0]) || AnyDynamic(ts[1..])
  {
    if AnyDynamic(ts) && !IsDynamic(ts[0]) {
      var i :| 0 <= i < |ts| && IsDynamic(ts[i]);
      assert ts[1..][i - 1] == ts[i];
    }
    if AnyDynamic(ts[1..]) {
      var i :| 0 <= i < |ts[1..]| && IsDynamic(ts[1..][i]);
      assert ts[i + 1] == ts[1..][i];
    }
  }

  // ---- Signed words ----

  /** The numbers a signed word brings back: -7 * 2^252 up to 9 * 2^252. */
  predicate SignedFits(i: int) {
    -7 * (TWO256 / 16) <= i < 9 * (TWO256 / 16)
  }

  lemma SignedIff(i: int)
    requires -TWO256 < i < TWO256
    ensures Signed(i % TWO256) == i <==> SignedFits(i)
  {
    assert i % TWO256 == if i < 0 then i + TWO256 else i;
  }

  /** Every signed word in a value is in that range. */
  predicate AllSignedFit(t: AbiType, v: AbiValue)
    requires HasType(t, v)
    decreases v
  {
    match t
    case Int => SignedFits(v.i)
    case Fixed(e, _) => forall i :: 0 <= i < |v.vs| ==> AllSignedFit(e, v.vs[i])
    case Vector(e) => forall i :: 0 <= i < |v.vs| ==> AllSignedFit(e, v.vs[i])
    case Tuple(ts) => forall i :: 0 <= i < |v.vs| ==> AllSignedFit(ts[i], v.vs[i])
    case _ => true
  }

  lemma {:induction false} WrappedIff(t: AbiType, v: AbiValue)
    requires HasType(t, v)
    ensures Wrapped(t, v) == v <==> AllSignedFit(t, v)
    decreases v
  {
    match t
    case Int => SignedIff(v.i);
    case Fixed(e, n) => WrappedAllIff(Repeat(e, n), v.vs);
    case Vector(e) => WrappedAllIff(Repeat(e, |v.vs|), v.vs);
    case Tuple(ts) => WrappedAllIff(ts, v.vs);
    case _ =>
  }

  lemma {:induction false} WrappedAllIff(ts: seq<AbiType>, vs: seq<AbiValue>)
    requires HaveTypes(ts, vs)
    ensures WrappedAll(ts, vs) == vs <==> forall i :: 0 <= i < |vs| ==> AllSignedFit(ts[i], vs[i])
    decreases vs
  {
    hide Wrapped, HasType, AllSignedFit;
    if ts != [] {
      WrappedIff(ts[0], vs[0]);
      WrappedAllIff(ts[1..], vs[1..]);
      assert vs == [vs[0]] + vs[1..];
      assert forall i :: 0 < i < |vs| ==> vs[i] == vs[1..][i - 1] && ts[i] == ts[1..][i - 1];
    }
  }

  // ---- The codec as a whole ----

  /** For types whose tuple heads fit, abiOut of abiIn gives the arguments with
      signed words folded, so exactly the arguments when those are in range. */
  lemma RoundTrip(ts: seq<AbiType>, vs: seq<AbiValue>)
    requires HaveTypes(ts, vs) && AllFit(ts) && |AbiIn(ts, vs)| < TWO64
    ensures AbiOut(ts, AbiIn(ts, vs)) == Some(WrappedAll(ts, vs))
    ensures AbiOut(ts, AbiIn(ts, vs)) == Some(vs) <==> forall i :: 0 <= i < |vs| ==> AllSignedFit(ts[i], vs[i])
  {
    hide HasType, HeadsFit, Head, Tail, WrappedAll, DecodeMembers, AllSignedFit;
    var data, start := AbiIn(ts, vs), WORD * SumWords(ts);
    HeadLength(ts, vs, start);
    AtSplit(data, 0, Head(ts, vs, start), Tail(ts, vs));
    MembersAt(ts, vs, data, 0, 0, start);
    WrappedAllIff(ts, vs);
  }

  /** The position of a dynamic argument's bytes. */
  function ContentStart(ts: seq<AbiType>, vs: seq<AbiValue>, start: nat, i: nat): nat
    requires HaveTypes(ts, vs) && i < |ts|
    decreases vs
  {
    if i == 0 then start
    else
      ContentStart(ts[1..], vs[1..], if IsDynamic(ts[0]) then start + |Serialise(ts[0], vs[0])| else start, i - 1)
  }

  /** In encoded arguments the fixed part is 32 bytes per word of Offset, and a
      dynamic argument's word there is the position where its bytes start. */
  lemma {:induction false} Layout(ts: seq<AbiType>, vs: seq<AbiValue>, i: nat)
    requires HaveTypes(ts, vs) && i < |ts|
    ensures var data, at := AbiIn(ts, vs), WORD * SumWords(ts[..i]);
            if IsDynamic(ts[i]) then
              var p := ContentStart(ts, vs, WORD * SumWords(ts), i);
              At(data, at, Word(p)) && At(data, p, Serialise(ts[i], vs[i]))
            else At(data, at, Serialise(ts[i], vs[i]))
  {
    hide Serialise, HasType, IsDynamic, Words;
    var data, start := AbiIn(ts, vs), WORD * SumWords(ts);
    HeadLength(ts, vs, start);
    AtSplit(data, 0, Head(ts, vs, start), Tail(ts, vs));
    LayoutFrom(ts, vs, data, 0, start, i);
  }

  lemma {:induction false} LayoutFrom(ts: seq<AbiType>, vs: seq<AbiValue>, data: Bytes, at: nat, start: nat, i: nat)
    requires HaveTypes(ts, vs) && i < |ts|
    requires At(data, at, Head(ts, vs, start)) && At(data, start, Tail(ts, vs))
    ensures var here := at + WORD * SumWords(ts[..i]);
            if IsDynamic(ts[i]) then
              var p := ContentStart(ts, vs, start, i);
              At(data, here, Word(p)) && At(data, p, Serialise(ts[i], vs[i]))
            else At(data, here, Serialise(ts[i], vs[i]))
    decreases vs
  {
    hide Serialise, HasType, IsDynamic, Words, AnyDynamic, At, Head, Tail;
    SplitMembers(ts, vs, data, 0, at, start);
    if i > 0 {
      var next := if IsDynamic(ts[0]) then start + |Serialise(ts[0], vs[0])| else start;
      TailSplit(ts, vs, data, start);
      assert ts[..i][1..] == ts[1..][..i - 1];
      LayoutFrom(ts[1..], vs[1..], data, at + WORD * Words(ts[0]), next, i - 1);
    }
  }

  lemma TailSplit(ts: seq<AbiType>, vs: seq<AbiValue>, data: Bytes, start: nat)
    requires HaveTypes(ts, vs) && ts != [] && At(data, start, Tail(ts, vs))
    ensures At(data, if IsDynamic(ts[0]) then start + |Serialise(ts[0], vs[0])| else start, Tail(ts[1..], vs[1..]))
  {
    hide Serialise, HasType, IsDynamic, At;
    if IsDynamic(ts[0]) {
      AtSplit(data, start, Serialise(ts[0], vs[0]), Tail(ts[1..], vs[1..]));
    } else {
      assert [] + Tail(ts[1..], vs[1..]) == Tail(ts[1..], vs[1..]);
    }
  }
}
