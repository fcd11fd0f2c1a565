/** The block header and the encodings it caches inside the raw protobuf header
    (libprotocol/protobuf/PBBlockHeader.h and .cpp). */
module BlockHeader {
  import opened Wrappers
  import opened Bytes
  import opened ScaleCodec
  import ScaleRoundTrip
  import ScaleCanonical
  import ScaleFormat
  import ScaleTyping

  const I64: ScaleType := Integer(8, true)
  const U64: ScaleType := Integer(8, false)
  const HASH: ScaleType := FixedBytes(32)
  const PARENT_INFO: ScaleType := Tuple([I64, HASH])
  const INVALID_SEALER_INDEX: int := 0x7fff_ffff_ffff_ffff

  datatype ParentInfo = ParentInfo(blockNumber: int, blockHash: Bytes)
  datatype Signature = Signature(index: int, signature: Bytes)

  /** The members that take part in the hash. */
  datatype Fields = Fields(
    parentInfo: seq<ParentInfo>, txsRoot: Bytes, receiptsRoot: Bytes, stateRoot: Bytes,
    number: int, gasUsed: int, timestamp: int, sealer: int,
    sealerList: seq<Bytes>, consensusWeights: seq<int>, extraData: Bytes)

  // ---- The members as SCALE values ----

  function ParentValue(p: ParentInfo): ScaleValue {
    Seq([Int(p.blockNumber), Blob(p.blockHash)])
  }

  function ParentsValue(ps: seq<ParentInfo>): ScaleValue {
    Seq(seq(|ps|, i requires 0 <= i < |ps| => ParentValue(ps[i])))
  }

  function BlobsValue(bs: seq<Bytes>): ScaleValue {
    Seq(seq(|bs|, i requires 0 <= i < |bs| => Blob(bs[i])))
  }

  function IntsValue(ws: seq<int>): ScaleValue {
    Seq(seq(|ws|, i requires 0 <= i < |ws| => Int(ws[i])))
  }

  /** The C++ types of the members. */
  predicate Typed(f: Fields) {
    && HasType(Vector(PARENT_INFO), ParentsValue(f.parentInfo))
    && HasType(HASH, Blob(f.txsRoot)) && HasType(HASH, Blob(f.receiptsRoot)) && HasType(HASH, Blob(f.stateRoot))
    && HasType(I64, Int(f.number)) && HasType(U256, Int(f.gasUsed))
    && HasType(I64, Int(f.timestamp)) && HasType(I64, Int(f.sealer))
    && HasType(Vector(Str), BlobsValue(f.sealerList))
    && HasType(Vector(U64), IntsValue(f.consensusWeights))
    && HasType(Str, Blob(f.extraData))
  }

  const HEADER_TYPES: set<ScaleType> := {Vector(PARENT_INFO), HASH, I64, U256, Vector(Str), Vector(U64), Str}

  /** The members in the order of the `<<` and `>>` chains. */
  const MEMBERS: seq<ScaleType> :=
    [Vector(PARENT_INFO), HASH, HASH, HASH, I64, U256, I64, I64, Vector(Str), Vector(U64), Str]

  function Values(f: Fields): (vs: seq<ScaleValue>)
    ensures |vs| == 11
  {
    [ParentsValue(f.parentInfo), Blob(f.txsRoot), Blob(f.receiptsRoot), Blob(f.stateRoot),
     Int(f.number), Int(f.gasUsed), Int(f.timestamp), Int(f.sealer),
     BlobsValue(f.sealerList), IntsValue(f.consensusWeights), Blob(f.extraData)]
  }

  predicate TypedMembers(vs: seq<ScaleValue>) {
    |vs| == |MEMBERS| && forall i :: 0 <= i < |MEMBERS| ==> HasType(MEMBERS[i], vs[i])
  }

  lemma TypedValues(f: Fields)
    ensures Typed(f) <==> TypedMembers(Values(f))
  {
    hide HasType;
    if TypedMembers(Values(f)) {
      var vs := Values(f);
      assert HasType(MEMBERS[0], vs[0]) && HasType(MEMBERS[1], vs[1]) && HasType(MEMBERS[2], vs[2]);
      assert HasType(MEMBERS[3], vs[3]) && HasType(MEMBERS[4], vs[4]) && HasType(MEMBERS[5], vs[5]);
      assert HasType(MEMBERS[6], vs[6]) && HasType(MEMBERS[7], vs[7]) && HasType(MEMBERS[8], vs[8]);
      assert HasType(MEMBERS[9], vs[9]) && HasType(MEMBERS[10], vs[10]);
    }
  }

  function ParentOf(v: ScaleValue): ParentInfo
    requires HasType(PARENT_INFO, v)
  {
    assert HasType(PARENT_INFO.members[0], v.vs[0]) && HasType(PARENT_INFO.members[1], v.vs[1]);
    ParentInfo(v.vs[0].i, v.vs[1].s)
  }

  function ParentsOf(v: ScaleValue): seq<ParentInfo>
    requires HasType(Vector(PARENT_INFO), v)
  {
    seq(|v.vs|, i requires 0 <= i < |v.vs| => ParentOf(v.vs[i]))
  }

  function BlobsOf(v: ScaleValue): seq<Bytes>
    requires HasType(Vector(Str), v)
  {
    seq(|v.vs|, i requires 0 <= i < |v.vs| => v.vs[i].s)
  }

  function IntsOf(v: ScaleValue): seq<int>
    requires HasType(Vector(U64), v)
  {
    seq(|v.vs|, i requires 0 <= i < |v.vs| => v.vs[i].i)
  }

  function FieldsOf(vs: seq<ScaleValue>): Fields
    requires TypedMembers(vs)
  {
    assert HasType(MEMBERS[0], vs[0]) && HasType(MEMBERS[1], vs[1]) && HasType(MEMBERS[2], vs[2]);
    assert HasType(MEMBERS[3], vs[3]) && HasType(MEMBERS[4], vs[4]) && HasType(MEMBERS[5], vs[5]);
    assert HasType(MEMBERS[6], vs[6]) && HasType(MEMBERS[7], vs[7]) && HasType(MEMBERS[8], vs[8]);
    assert HasType(MEMBERS[9], vs[9]) && HasType(MEMBERS[10], vs[10]);
    Fields(ParentsOf(vs[0]), vs[1].s, vs[2].s, vs[3].s, vs[4].i, vs[5].i, vs[6].i, vs[7].i,
           BlobsOf(vs[8]), IntsOf(vs[9]), vs[10].s)
  }

  lemma ParentsInverse(ps: seq<ParentInfo>)
    requires HasType(Vector(PARENT_INFO), ParentsValue(ps))
    ensures ParentsOf(ParentsValue(ps)) == ps
  {
    var qs := ParentsOf(ParentsValue(ps));
    forall i | 0 <= i < |ps|
      ensures qs[i] == ps[i]
    {
      assert ParentsValue(ps).vs[i] == ParentValue(ps[i]);
    }
    assert qs == ps;
  }

  lemma FieldsInverse(f: Fields)
    requires Typed(f)
    ensures TypedMembers(Values(f)) && FieldsOf(Values(f)) == f
  {
    TypedValues(f);
    hide HasType;
    var g := FieldsOf(Values(f));
    ParentsInverse(f.parentInfo);
    assert g.sealerList == f.sealerList;
    assert g.consensusWeights == f.consensusWeights;
  }

  lemma ParentsBack(v: ScaleValue)
    requires HasType(Vector(PARENT_INFO), v)
    ensures ParentsValue(ParentsOf(v)) == v
  {
    var w := ParentsValue(ParentsOf(v));
    forall i | 0 <= i < |v.vs|
      ensures w.vs[i] == v.vs[i]
    {
      var p := v.vs[i];
      assert HasType(PARENT_INFO, p);
      assert HasType(PARENT_INFO.members[0], p.vs[0]) && HasType(PARENT_INFO.members[1], p.vs[1]);
      assert p.vs == [p.vs[0], p.vs[1]];
    }
    assert w.vs == v.vs;
  }

  lemma BlobsBack(v: ScaleValue)
    requires HasType(Vector(Str), v)
    ensures BlobsValue(BlobsOf(v)) == v
  {
    assert BlobsValue(BlobsOf(v)).vs == v.vs;
  }

  lemma IntsBack(v: ScaleValue)
    requires HasType(Vector(U64), v)
    ensures IntsValue(IntsOf(v)) == v
  {
    assert IntsValue(IntsOf(v)).vs == v.vs;
  }

  lemma ScalarsBack(vs: seq<ScaleValue>)
    requires TypedMembers(vs)
    ensures vs[1].Blob? && vs[2].Blob? && vs[3].Blob? && vs[10].Blob?
    ensures vs[4].Int? && vs[5].Int? && vs[6].Int? && vs[7].Int?
  {
    assert HasType(MEMBERS[1], vs[1]) && HasType(MEMBERS[2], vs[2]) && HasType(MEMBERS[3], vs[3]);
    assert HasType(MEMBERS[4], vs[4]) && HasType(MEMBERS[5], vs[5]) && HasType(MEMBERS[6], vs[6]);
    assert HasType(MEMBERS[7], vs[7]) && HasType(MEMBERS[10], vs[10]);
  }

  lemma ValuesInverse(vs: seq<ScaleValue>)
    requires TypedMembers(vs)
    ensures Values(FieldsOf(vs)) == vs && Typed(FieldsOf(vs))
  {
    ScalarsBack(vs);
    hide HasType;
    assert HasType(MEMBERS[0], vs[0]) && HasType(MEMBERS[8], vs[8]) && HasType(MEMBERS[9], vs[9]);
    ParentsBack(vs[0]);
    BlobsBack(vs[8]);
    IntsBack(vs[9]);
    assert Values(FieldsOf(vs)) == vs;
    TypedValues(FieldsOf(vs));
  }

  // ---- The hash fields data ----

  lemma MembersEncode(f: Fields)
    requires Typed(f)
    ensures TypedMembers(Values(f)) && EncodeMembers(MEMBERS, Values(f)).Some?
  {
    hide HasType, Encode, EncodeMembers, Typed, Values, ScaleRoundTrip.CompactsFit;
    TypedValues(f);
    MemberTypes();
    var vs := Values(f);
    forall i | 0 <= i < |MEMBERS|
      ensures ScaleRoundTrip.CompactsFit(MEMBERS[i], vs[i])
    {
      NoCompacts(MEMBERS[i], vs[i]);
    }
    ScaleRoundTrip.MembersEncodeIff(MEMBERS, vs);
  }

  lemma MemberTypes()
    ensures forall i :: 0 <= i < |MEMBERS| ==> MEMBERS[i] in HEADER_TYPES
  {
  }

  lemma NoCompacts(t: ScaleType, v: ScaleValue)
    requires HasType(t, v) && t in HEADER_TYPES
    ensures ScaleRoundTrip.CompactsFit(t, v)
  {
    if t == Vector(PARENT_INFO) {
      ParentsHaveNoCompacts(v);
    }
  }

  lemma ParentsHaveNoCompacts(v: ScaleValue)
    requires HasType(Vector(PARENT_INFO), v)
    ensures ScaleRoundTrip.CompactsFit(Vector(PARENT_INFO), v)
  {
    forall i | 0 <= i < |v.vs|
      ensures ScaleRoundTrip.CompactsFit(PARENT_INFO, v.vs[i])
    {
      var p := v.vs[i];
      assert HasType(PARENT_INFO, p);
      assert HasType(PARENT_INFO.members[0], p.vs[0]) && HasType(PARENT_INFO.members[1], p.vs[1]);
    }
  }

  /** No member is a vector of one-byte elements. */
  lemma MembersRecoverable(vs: seq<ScaleValue>)
    requires TypedMembers(vs)
    ensures forall i :: 0 <= i < |MEMBERS| ==> ScaleRoundTrip.Recoverable(MEMBERS[i], vs[i])
  {
    hide HasType, ScaleRoundTrip.Recoverable;
    MembersCopyable();
    forall i | 0 <= i < |MEMBERS|
      ensures ScaleRoundTrip.Recoverable(MEMBERS[i], vs[i])
    {
      ScaleRoundTrip.CopyableRecovers(MEMBERS[i], vs[i]);
    }
  }

  lemma MembersCopyable()
    ensures forall i :: 0 <= i < |MEMBERS| ==> ScaleRoundTrip.Copyable(MEMBERS[i])
  {
    assert ScaleRoundTrip.Copyable(PARENT_INFO) by {
      assert ScaleRoundTrip.Copyable(PARENT_INFO.members[0]) && ScaleRoundTrip.Copyable(PARENT_INFO.members[1]);
    }
  }

  /** What encodeHashFields writes. */
  function EncodeFields(f: Fields): Bytes
    requires Typed(f)
  {
    MembersEncode(f);
    EncodeMembers(MEMBERS, Values(f)).value
  }

  /** What decode reads back; None when the stream throws. Bytes after the last
      member are ignored. */
  function DecodeFields(s: Bytes): (r: Option<Fields>)
    ensures r.Some? ==> Typed(r.value)
  {
    var r := DecodeMembers(MEMBERS, s);
    if r.None? then None
    else
      DecodedTyped(s);
      ValuesInverse(r.value.0);
      Some(FieldsOf(r.value.0))
  }

  lemma DecodedTyped(s: Bytes)
    requires DecodeMembers(MEMBERS, s).Some?
    ensures TypedMembers(DecodeMembers(MEMBERS, s).value.0)
  {
    MembersExpressible();
    ScaleTyping.MembersTyped(MEMBERS, s);
  }

  lemma MembersExpressible()
    ensures forall i :: 0 <= i < |MEMBERS| ==> ScaleTyping.Expressible(MEMBERS[i])
  {
    assert ScaleTyping.Expressible(PARENT_INFO) by {
      assert ScaleTyping.Expressible(PARENT_INFO.members[0]) && ScaleTyping.Expressible(PARENT_INFO.members[1]);
    }
  }

  /** The members read before the stream throws, if it does. */
  function ReadPrefix(ts: seq<ScaleType>, s: Bytes): seq<ScaleValue>
    decreases |ts|
  {
    if ts == [] then []
    else
      var r := Decode(ts[0], s);
      if r.None? then [] else [r.value.0] + ReadPrefix(ts[1..], r.value.1)
  }

  lemma {:induction false} PrefixRead(ts: seq<ScaleType>, s: Bytes)
    requires forall i :: 0 <= i < |ts| ==> ScaleTyping.Expressible(ts[i])
    ensures var vs := ReadPrefix(ts, s);
            && |vs| <= |ts| && (forall i :: 0 <= i < |vs| ==> HasType(ts[i], vs[i]))
            && (DecodeMembers(ts, s).Some? <==> |vs| == |ts|)
            && (DecodeMembers(ts, s).Some? ==> DecodeMembers(ts, s).value.0 == vs)
    decreases |ts|
  {
    hide Decode, HasType, ScaleTyping.Expressible;
    if ts != [] && Decode(ts[0], s).Some? {
      ScaleTyping.DecodeTyped(ts[0], s);
      PrefixRead(ts[1..], Decode(ts[0], s).value.1);
    }
  }

  /** The members after the `>>` chain: those read are replaced. */
  function Overwritten(f: Fields, s: Bytes): (r: Fields)
    requires Typed(f)
    ensures Typed(r)
  {
    OverwrittenTyped(f, s);
    var vs := ReadPrefix(MEMBERS, s);
    ValuesInverse(vs + Values(f)[|vs|..]);
    FieldsOf(vs + Values(f)[|vs|..])
  }

  lemma OverwrittenTyped(f: Fields, s: Bytes)
    requires Typed(f)
    ensures |ReadPrefix(MEMBERS, s)| <= |Values(f)| == |MEMBERS|
    ensures var vs := ReadPrefix(MEMBERS, s); TypedMembers(vs + Values(f)[|vs|..])
  {
    hide HasType, ReadPrefix, ScaleTyping.Expressible;
    MembersExpressible();
    PrefixRead(MEMBERS, s);
    TypedValues(f);
  }

  /** All of them, exactly if the stream does not throw. */
  lemma OverwrittenAll(f: Fields, s: Bytes)
    requires Typed(f) && DecodeFields(s).Some?
    ensures Overwritten(f, s) == DecodeFields(s).value
  {
    hide HasType, ReadPrefix, ScaleTyping.Expressible, FieldsOf, Values, DecodeMembers;
    MembersExpressible();
    PrefixRead(MEMBERS, s);
    OverwrittenTyped(f, s);
    var vs := ReadPrefix(MEMBERS, s);
    assert vs + Values(f)[|vs|..] == vs;
  }

  /** The hash fields survive encoding, with any bytes following. */
  lemma FieldsRoundTrip(f: Fields, rest: Bytes)
    requires Typed(f)
    ensures DecodeFields(EncodeFields(f) + rest) == Some(f)
  {
    MembersEncode(f);
    MembersRecoverable(Values(f));
    ScaleRoundTrip.MembersRoundTrip(MEMBERS, Values(f), rest);
    FieldsInverse(f);
  }

  lemma EmptyStream(ts: seq<ScaleType>)
    requires ts != [] && ts[0].Vector?
    ensures DecodeMembers(ts, []).None?
  {
  }

  /** An empty string marks "not cached", which no encoding can be mistaken
      for. */
  lemma EncodingNeverEmpty(f: Fields)
    requires Typed(f)
    ensures EncodeFields(f) != []
  {
    hide Encode, Decode, HasType, EncodeMembers, DecodeMembers, Values, Typed;
    MembersEncode(f);
    MembersRecoverable(Values(f));
    ScaleRoundTrip.MembersRoundTrip(MEMBERS, Values(f), []);
    EmptyStream(MEMBERS);
    assert EncodeFields(f) + [] == EncodeFields(f);
  }

  // ---- Which member stands where ----

  /** The bytes of a value, as SCALE writes them. */
  ghost function Written(t: ScaleType, v: ScaleValue): Bytes
    requires HasType(t, v) && t in HEADER_TYPES
  {
    NoCompacts(t, v);
    ScaleFormat.Format(t, v)
  }

  /** The hash fields data is the eleven members in this order. */
  lemma EncodedLayout(f: Fields)
    requires Typed(f)
    ensures EncodeFields(f) ==
            Written(Vector(PARENT_INFO), ParentsValue(f.parentInfo)) +
            (Written(HASH, Blob(f.txsRoot)) +
             (Written(HASH, Blob(f.receiptsRoot)) +
              (Written(HASH, Blob(f.stateRoot)) +
               (Written(I64, Int(f.number)) +
                (Written(U256, Int(f.gasUsed)) +
                 (Written(I64, Int(f.timestamp)) +
                  (Written(I64, Int(f.sealer)) +
                   (Written(Vector(Str), BlobsValue(f.sealerList)) +
                    (Written(Vector(U64), IntsValue(f.consensusWeights)) +
                     Written(Str, Blob(f.extraData)))))))))))
  {
    hide HasType, Typed, WrittenFrom, EncodeMembers, Written, TypedMembers, EncodeFields;
    var vs := Values(f);
    AllWritten(f);
    WrittenStep(0, vs, Vector(PARENT_INFO), ParentsValue(f.parentInfo));
    WrittenStep(1, vs, HASH, Blob(f.txsRoot));
    WrittenStep(2, vs, HASH, Blob(f.receiptsRoot));
    WrittenStep(3, vs, HASH, Blob(f.stateRoot));
    WrittenStep(4, vs, I64, Int(f.number));
    WrittenStep(5, vs, U256, Int(f.gasUsed));
    WrittenStep(6, vs, I64, Int(f.timestamp));
    WrittenStep(7, vs, I64, Int(f.sealer));
    WrittenStep(8, vs, Vector(Str), BlobsValue(f.sealerList));
    WrittenStep(9, vs, Vector(U64), IntsValue(f.consensusWeights));
    WrittenStep(10, vs, Str, Blob(f.extraData));
  }

  /** The members from the i-th on, one after the other. */
  ghost function WrittenFrom(i: nat, vs: seq<ScaleValue>): Bytes
    requires TypedMembers(vs)
    decreases 11 - i
  {
    if i < 10 then Written(MEMBERS[i], vs[i]) + WrittenFrom(i + 1, vs)
    else if i == 10 then Written(MEMBERS[10], vs[10]) else []
  }

  lemma WrittenStep(i: nat, vs: seq<ScaleValue>, t: ScaleType, v: ScaleValue)
    requires i < 11 && TypedMembers(vs) && MEMBERS[i] == t && vs[i] == v
    ensures HasType(t, v)
    ensures WrittenFrom(i, vs) == if i == 10 then Written(t, v) else Written(t, v) + WrittenFrom(i + 1, vs)
  {
    hide Written;
  }

  lemma AllWritten(f: Fields)
    requires Typed(f)
    ensures TypedMembers(Values(f)) && EncodeFields(f) == WrittenFrom(0, Values(f))
  {
    hide Typed, WrittenFrom, EncodeMembers, TypedMembers, Values;
    MembersEncode(f);
    MembersWritten(0, Values(f));
    assert MEMBERS[0..] == MEMBERS && Values(f)[0..] == Values(f);
  }

  lemma {:induction false} MembersWritten(i: nat, vs: seq<ScaleValue>)
    requires i <= 11 && TypedMembers(vs)
    ensures EncodeMembers(MEMBERS[i..], vs[i..]) == Some(WrittenFrom(i, vs))
    decreases 11 - i
  {
    hide HasType, Encode, Written, ScaleFormat.Format, ScaleRoundTrip.CompactsFit;
    var ts, ws := MEMBERS[i..], vs[i..];
    if i < 11 {
      assert ts[0] == MEMBERS[i] && ws[0] == vs[i] && ts[1..] == MEMBERS[i + 1..] && ws[1..] == vs[i + 1..];
      MembersWritten(i + 1, vs);
      MemberWritten(i, vs);
      assert i == 10 ==> Written(MEMBERS[i], vs[i]) + [] == Written(MEMBERS[i], vs[i]);
    }
  }

  lemma MemberWritten(i: nat, vs: seq<ScaleValue>)
    requires i < 11 && TypedMembers(vs)
    ensures Encode(MEMBERS[i], vs[i]) == Some(Written(MEMBERS[i], vs[i]))
  {
    hide HasType, Encode, ScaleFormat.Format, ScaleRoundTrip.CompactsFit;
    MemberTypes();
    NoCompacts(MEMBERS[i], vs[i]);
    ScaleFormat.FormatWritten(MEMBERS[i], vs[i]);
  }

  /** What the stream reads one after another, member by member. */
  ghost predicate ReadsFrom(i: nat, vs: seq<ScaleValue>, s: Bytes)
    requires |vs| == 11
    decreases 11 - i
  {
    i < 11 ==>
      var r := Decode(MEMBERS[i], s);
      r.Some? && r.value.0 == vs[i] && ReadsFrom(i + 1, vs, r.value.1)
  }

  lemma {:induction false} ReadsAll(i: nat, vs: seq<ScaleValue>, s: Bytes)
    requires |vs| == 11 && i <= 11
    ensures ReadsFrom(i, vs, s) <==>
            var r := DecodeMembers(MEMBERS[i..], s); r.Some? && r.value.0 == vs[i..]
    decreases 11 - i
  {
    hide Decode;
    if i < 11 {
      var ts, ws := MEMBERS[i..], vs[i..];
      assert ts[0] == MEMBERS[i] && ts[1..] == MEMBERS[i + 1..] && ws == [vs[i]] + vs[i + 1..];
      var r := Decode(MEMBERS[i], s);
      if r.Some? {
        ReadsAll(i + 1, vs, r.value.1);
        var tail := DecodeMembers(ts[1..], r.value.1);
        if tail.Some? {
          assert ([r.value.0] + tail.value.0)[0] == r.value.0 && ([r.value.0] + tail.value.0)[1..] == tail.value.0;
          assert ws[0] == vs[i] && ws[1..] == vs[i + 1..];
        }
      }
    }
  }

  /** The members are read in the order in which they are written. */
  ghost predicate ReadAs(f: Fields, s: Bytes) {
    var a := Decode(Vector(PARENT_INFO), s);
    a.Some? && a.value.0 == ParentsValue(f.parentInfo) &&
    var b := Decode(HASH, a.value.1);
    b.Some? && b.value.0 == Blob(f.txsRoot) &&
    var c := Decode(HASH, b.value.1);
    c.Some? && c.value.0 == Blob(f.receiptsRoot) &&
    var d := Decode(HASH, c.value.1);
    d.Some? && d.value.0 == Blob(f.stateRoot) &&
    var e := Decode(I64, d.value.1);
    e.Some? && e.value.0 == Int(f.number) &&
    var g := Decode(U256, e.value.1);
    g.Some? && g.value.0 == Int(f.gasUsed) &&
    var h := Decode(I64, g.value.1);
    h.Some? && h.value.0 == Int(f.timestamp) &&
    var i := Decode(I64, h.value.1);
    i.Some? && i.value.0 == Int(f.sealer) &&
    var j := Decode(Vector(Str), i.value.1);
    j.Some? && j.value.0 == BlobsValue(f.sealerList) &&
    var k := Decode(Vector(U64), j.value.1);
    k.Some? && k.value.0 == IntsValue(f.consensusWeights) &&
    var l := Decode(Str, k.value.1);
    l.Some? && l.value.0 == Blob(f.extraData)
  }

  lemma DecodedLayout(f: Fields, s: Bytes)
    requires Typed(f)
    ensures DecodeFields(s) == Some(f) <==> ReadAs(f, s)
  {
    hide Decode, DecodeMembers, FieldsOf, Typed, Values, ReadsFrom, ReadAs;
    var vs := Values(f);
    ReadsAll(0, vs, s);
    assert MEMBERS[0..] == MEMBERS && vs[0..] == vs;
    FieldsInverse(f);
    if DecodeMembers(MEMBERS, s).Some? {
      DecodedTyped(s);
      ValuesInverse(DecodeMembers(MEMBERS, s).value.0);
    }
    ReadsNamed(f, s);
  }

  lemma ReadsNamed(f: Fields, s: Bytes)
    ensures ReadsFrom(0, Values(f), s) <==> ReadAs(f, s)
  {
    hide Decode;
    var vs := Values(f);
    assert forall x :: ReadsFrom(11, vs, x);
    assert forall x :: ReadsFrom(10, vs, x) <==> var r := Decode(Str, x); r.Some? && r.value.0 == vs[10];
  }

  // ---- The header as a state machine ----

  /** A header object: its members, its signatures and the raw protobuf header
      (version, hashfieldsdata, signaturelist) that holds the caches. */
  datatype Header = Header(fields: Fields, signatures: seq<Signature>, version: int,
                           hashFieldsData: Bytes, rawSignatures: seq<Signature>)

  /** The raw header as it travels; protobuf's own byte format is not modelled. */
  datatype Raw = Raw(version: int, hashFieldsData: Bytes, signatures: seq<Signature>)

  datatype Op =
    | SetParentInfo(ps: seq<ParentInfo>)
    | SetTxsRoot(hash: Bytes)
    | SetReceiptsRoot(hash: Bytes)
    | SetStateRoot(hash: Bytes)
    | SetNumber(i: int)
    | SetGasUsed(i: int)
    | SetTimestamp(i: int)
    | SetSealer(i: int)
    | SetSealerList(bs: seq<Bytes>)
    | SetConsensusWeights(ws: seq<int>)
    | SetExtraData(s: Bytes)
    | SetSignatureList(sigs: seq<Signature>)
    | SetVersion(version: int)
    | Clear
    | CalculateHash
    | EncodeHeader

  function ZeroHash(): Bytes {
    seq(32, _ => 0)
  }

  /** What an operation does to the members, with no cache in sight. */
  function Update(f: Fields, op: Op): Fields {
    match op
    case SetParentInfo(ps) => f.(parentInfo := ps)
    case SetTxsRoot(h) => f.(txsRoot := h)
    case SetReceiptsRoot(h) => f.(receiptsRoot := h)
    case SetStateRoot(h) => f.(stateRoot := h)
    case SetNumber(i) => f.(number := i)
    case SetGasUsed(i) => f.(gasUsed := i)
    case SetTimestamp(i) => f.(timestamp := i)
    case SetSealer(i) => f.(sealer := i)
    case SetSealerList(bs) => f.(sealerList := bs)
    case SetConsensusWeights(ws) => f.(consensusWeights := ws)
    case SetExtraData(s) => f.(extraData := s)
    case Clear =>
      Fields([], ZeroHash(), ZeroHash(), ZeroHash(), 0, 0, f.timestamp, INVALID_SEALER_INDEX, [],
             f.consensusWeights, [])
    case _ => f
  }

  /** The arguments have the C++ types of the setters. */
  predicate TypedOp(op: Op) {
    match op
    case SetParentInfo(ps) => HasType(Vector(PARENT_INFO), ParentsValue(ps))
    case SetTxsRoot(h) => HasType(HASH, Blob(h))
    case SetReceiptsRoot(h) => HasType(HASH, Blob(h))
    case SetStateRoot(h) => HasType(HASH, Blob(h))
    case SetNumber(i) => HasType(I64, Int(i))
    case SetGasUsed(i) => HasType(U256, Int(i))
    case SetTimestamp(i) => HasType(I64, Int(i))
    case SetSealer(i) => HasType(I64, Int(i))
    case SetSealerList(bs) => HasType(Vector(Str), BlobsValue(bs))
    case SetConsensusWeights(ws) => HasType(Vector(U64), IntsValue(ws))
    case SetExtraData(s) => HasType(Str, Blob(s))
    case _ => true
  }

  /** Each setter sets its own member and no other. */
  lemma RootSetters(f: Fields, x: Bytes)
    ensures Update(f, SetTxsRoot(x)) == f.(txsRoot := x)
    ensures Update(f, SetReceiptsRoot(x)) == f.(receiptsRoot := x)
    ensures Update(f, SetStateRoot(x)) == f.(stateRoot := x)
    ensures Update(f, SetExtraData(x)) == f.(extraData := x)
  {
  }

  lemma NumberSetters(f: Fields, i: int)
    ensures Update(f, SetNumber(i)) == f.(number := i) && Update(f, SetGasUsed(i)) == f.(gasUsed := i)
    ensures Update(f, SetTimestamp(i)) == f.(timestamp := i) && Update(f, SetSealer(i)) == f.(sealer := i)
  {
  }

  lemma ListSetters(f: Fields, ps: seq<ParentInfo>, bs: seq<Bytes>, ws: seq<int>)
    ensures Update(f, SetParentInfo(ps)) == f.(parentInfo := ps)
    ensures Update(f, SetSealerList(bs)) == f.(sealerList := bs)
    ensures Update(f, SetConsensusWeights(ws)) == f.(consensusWeights := ws)
  {
  }

  /** clear: time stamp and weights stay. */
  lemma ClearMeaning(f: Fields)
    ensures var g := Update(f, Clear);
            && g.parentInfo == [] && g.sealerList == [] && g.extraData == [] && g.number == 0 && g.gasUsed == 0
            && g.txsRoot == g.receiptsRoot == g.stateRoot == seq(32, _ => 0) && g.sealer == 0x7fff_ffff_ffff_ffff
            && g.timestamp == f.timestamp && g.consensusWeights == f.consensusWeights
  {
  }

  predicate ChangesFields(op: Op) {
    !(op.SetSignatureList? || op.SetVersion? || op.CalculateHash? || op.EncodeHeader?)
  }

  /** encodeHashFields: fill the cache unless something is there. */
  function WithHashFields(h: Header): Header
    requires Typed(h.fields)
  {
    if |h.hashFieldsData| > 0 then h else h.(hashFieldsData := EncodeFields(h.fields))
  }

  /** encodeSignatureList: likewise. */
  function WithSignatures(h: Header): Header {
    if |h.rawSignatures| > 0 then h else h.(rawSignatures := h.signatures)
  }

  /** One call on a header object. */
  function Apply(h: Header, op: Op): Header
    requires Typed(h.fields)
  {
    match op
    case SetSignatureList(sigs) => h.(signatures := sigs, rawSignatures := [])
    case SetVersion(v) => h.(version := v)
    case CalculateHash => WithHashFields(h)
    case EncodeHeader => WithSignatures(WithHashFields(h))
    case Clear => h.(fields := Update(h.fields, op), hashFieldsData := [], rawSignatures := [])
    case _ => h.(fields := Update(h.fields, op), hashFieldsData := [])
  }

  /** Each cache is absent or what it caches. */
  predicate Coherent(h: Header) {
    && Typed(h.fields)
    && (h.hashFieldsData == [] || h.hashFieldsData == EncodeFields(h.fields))
    && (h.rawSignatures == [] || h.rawSignatures == h.signatures)
  }

  lemma UpdateTyped(f: Fields, op: Op)
    requires Typed(f) && TypedOp(op)
    ensures Typed(Update(f, op))
  {
    hide HasType;
    if op.Clear? {
      ClearedTyped();
    }
  }

  lemma ClearedTyped()
    ensures HasType(Vector(PARENT_INFO), ParentsValue([])) && HasType(HASH, Blob(ZeroHash()))
    ensures HasType(I64, Int(0)) && HasType(U256, Int(0)) && HasType(I64, Int(INVALID_SEALER_INDEX))
    ensures HasType(Vector(Str), BlobsValue([])) && HasType(Str, Blob([]))
  {
    Pow256Wide();
  }

  lemma ApplyCoherent(h: Header, op: Op)
    requires Coherent(h) && TypedOp(op)
    ensures Coherent(Apply(h, op)) && Apply(h, op).fields == Update(h.fields, op)
  {
    hide Typed, TypedOp, EncodeFields;
    UpdateTyped(h.fields, op);
  }

  predicate Ready(h: Header, ops: seq<Op>) {
    Typed(h.fields) && forall i :: 0 <= i < |ops| ==> TypedOp(ops[i])
  }

  lemma ApplyReady(h: Header, ops: seq<Op>)
    requires Ready(h, ops) && ops != []
    ensures TypedOp(ops[0]) && Ready(Apply(h, ops[0]), ops[1..])
    ensures Apply(h, ops[0]).fields == Update(h.fields, ops[0])
  {
    hide Typed, TypedOp, EncodeFields;
    UpdateTyped(h.fields, ops[0]);
  }

  /** Any calls on a header, coherent or not. */
  function Run(h: Header, ops: seq<Op>): Header
    requires Ready(h, ops)
    decreases |ops|
  {
    if ops == [] then h
    else
      ApplyReady(h, ops);
      Run(Apply(h, ops[0]), ops[1..])
  }

  function UpdateAll(f: Fields, ops: seq<Op>): Fields
    decreases |ops|
  {
    if ops == [] then f else UpdateAll(Update(f, ops[0]), ops[1..])
  }

  /** What hash() returns, for any hash function. */
  function HashOf(digest: Bytes -> Bytes, h: Header): Bytes
    requires Typed(h.fields)
  {
    digest(WithHashFields(h).hashFieldsData)
  }

  /** After any calls on a coherent header, hash() is the hash of the members as
      the setters left them: no stale encoding is ever hashed. */
  lemma {:induction false} RunHashesCurrentFields(digest: Bytes -> Bytes, h: Header, ops: seq<Op>)
    requires Ready(h, ops) && Coherent(h)
    ensures Coherent(Run(h, ops))
    ensures Run(h, ops).fields == UpdateAll(h.fields, ops)
    ensures HashOf(digest, Run(h, ops)) == digest(EncodeFields(UpdateAll(h.fields, ops)))
    decreases |ops|
  {
    hide Typed, TypedOp, Update, EncodeFields, Apply;
    if ops != [] {
      ApplyReady(h, ops);
      ApplyCoherent(h, ops[0]);
      RunHashesCurrentFields(digest, Apply(h, ops[0]), ops[1..]);
    }
  }

  /** The cached encoding, if there is one, is that of the members. */
  predicate Current(h: Header)
    requires Typed(h.fields)
  {
    h.hashFieldsData == [] || h.hashFieldsData == EncodeFields(h.fields)
  }

  lemma CurrentIff(h: Header)
    requires Typed(h.fields)
    ensures (forall digest: Bytes -> Bytes :: HashOf(digest, h) == digest(EncodeFields(h.fields))) <==> Current(h)
  {
    hide Typed, EncodeFields;
    var same: Bytes -> Bytes := s => s;
    assert HashOf(same, h) == WithHashFields(h).hashFieldsData;
    assert same(EncodeFields(h.fields)) == EncodeFields(h.fields);
  }

  lemma {:induction false} RunCurrentIff(h: Header, ops: seq<Op>)
    requires Ready(h, ops)
    ensures Typed(Run(h, ops).fields) && Run(h, ops).fields == UpdateAll(h.fields, ops)
    ensures Current(Run(h, ops)) <==> Current(h) || exists i :: 0 <= i < |ops| && ChangesFields(ops[i])
    decreases |ops|
  {
    hide Typed, TypedOp, Update, EncodeFields, Apply, ChangesFields, Current;
    if ops != [] {
      ApplyReady(h, ops);
      ApplyCurrent(h, ops[0]);
      RunCurrentIff(Apply(h, ops[0]), ops[1..]);
      FirstOrLater(ops);
    }
  }

  lemma FirstOrLater(ops: seq<Op>)
    requires ops != []
    ensures (exists i :: 0 <= i < |ops| && ChangesFields(ops[i])) <==>
            ChangesFields(ops[0]) || exists i :: 0 <= i < |ops[1..]| && ChangesFields(ops[1..][i])
  {
    hide ChangesFields;
    var rest := ops[1..];
    if i :| 0 <= i < |ops| && ChangesFields(ops[i]) {
      assert i > 0 ==> rest[i - 1] == ops[i];
    }
    if i :| 0 <= i < |rest| && ChangesFields(rest[i]) {
      assert ops[i + 1] == rest[i];
    }
  }

  lemma ApplyCurrent(h: Header, op: Op)
    requires Typed(h.fields) && Typed(Apply(h, op).fields)
    ensures Current(Apply(h, op)) <==> Current(h) || ChangesFields(op)
  {
    hide Typed, EncodeFields;
  }

  /** After any calls on any header, the hash is that of the members under every
      hash function exactly if the cache was absent or right at the start, or
      some call changed a member. */
  lemma RunHashIff(h: Header, ops: seq<Op>)
    requires Ready(h, ops)
    ensures Typed(Run(h, ops).fields) && Typed(UpdateAll(h.fields, ops))
    ensures (forall digest: Bytes -> Bytes ::
               HashOf(digest, Run(h, ops)) == digest(EncodeFields(UpdateAll(h.fields, ops)))) <==>
            Current(h) || exists i :: 0 <= i < |ops| && ChangesFields(ops[i])
  {
    hide Typed, TypedOp, EncodeFields, ChangesFields, Run, HashOf;
    RunCurrentIff(h, ops);
    CurrentIff(Run(h, ops));
  }

  /** The raw header encode() serialises. */
  function Encoded(h: Header): Raw
    requires Typed(h.fields)
  {
    var e := WithSignatures(WithHashFields(h));
    Raw(e.version, e.hashFieldsData, e.rawSignatures)
  }

  /** decode() into `h`: signatures are appended to those already there. */
  function Decoded(h: Header, raw: Raw): Option<Header> {
    var f :- DecodeFields(raw.hashFieldsData);
    Some(Header(f, h.signatures + raw.signatures, raw.version, raw.hashFieldsData, raw.signatures))
  }

  /** Decoding what a header encodes, into a header without signatures, gives
      the same members, signatures, version and hash, and a coherent header. */
  lemma EncodeDecode(digest: Bytes -> Bytes, h: Header, target: Header)
    requires Coherent(h) && target.signatures == []
    ensures Decoded(target, Encoded(h)).Some?
    ensures var d := Decoded(target, Encoded(h)).value;
            d.fields == h.fields && d.signatures == h.signatures && d.version == h.version &&
            Coherent(d) && HashOf(digest, d) == HashOf(digest, h)
  {
    hide Typed, EncodeFields, DecodeFields;
    EncodingNeverEmpty(h.fields);
    FieldsRoundTrip(h.fields, []);
    assert EncodeFields(h.fields) + [] == EncodeFields(h.fields);
    assert Encoded(h).hashFieldsData == EncodeFields(h.fields);
    assert [] + h.signatures == h.signatures;
  }

  lemma DecodesNothing()
    ensures DecodeFields([]).None?
  {
    hide DecodeMembers;
    EmptyStream(MEMBERS);
  }

  /** Bytes as encodeHashFields writes them: canonical, and nothing after the
      last member. */
  predicate WellFormed(s: Bytes)
    requires DecodeFields(s).Some?
  {
    ScaleCanonical.CanonicalMembers(MEMBERS, s) && DecodeMembers(MEMBERS, s).value.1 == []
  }

  /** Only well-formed bytes are the encoding of the members read from them. */
  lemma WellFormedIff(s: Bytes)
    requires DecodeFields(s).Some?
    ensures EncodeFields(DecodeFields(s).value) == s <==> WellFormed(s)
  {
    hide Encode, Decode, HasType, EncodeMembers, DecodeMembers, ScaleTyping.Expressible, ScaleCanonical.CanonicalMembers,
         Values, FieldsOf, Typed;
    var (vs, rest) := DecodeMembers(MEMBERS, s).value;
    MembersExpressible();
    ScaleCanonical.MembersIff(MEMBERS, s);
    ValuesInverse(vs);
    MembersRecoverable(vs);
    var e := EncodeMembers(MEMBERS, vs).value;
    assert e + [] == e;
    ScaleRoundTrip.MembersRoundTrip(MEMBERS, vs, []);
  }

  /** A decoded header keeps the bytes it came with as its cache, so it hashes
      those. That is coherent exactly if they are well-formed and the signatures
      received are all it has. */
  lemma DecodedCoherentIff(digest: Bytes -> Bytes, target: Header, raw: Raw)
    requires Decoded(target, raw).Some?
    ensures var d := Decoded(target, raw).value;
            && HashOf(digest, d) == digest(raw.hashFieldsData)
            && (Coherent(d) <==>
                WellFormed(raw.hashFieldsData) && (target.signatures == [] || raw.signatures == []))
  {
    hide Typed, EncodeFields, DecodeFields, WellFormed;
    DecodesNothing();
    WellFormedIff(raw.hashFieldsData);
    if target.signatures == [] {
      assert [] + raw.signatures == raw.signatures;
    }
  }

  /** Whatever the hash function, the hash of a decoded header is that of the
      encoding of its members exactly if the bytes are well-formed. */
  lemma DecodedHashIff(target: Header, raw: Raw)
    requires Decoded(target, raw).Some?
    ensures var d := Decoded(target, raw).value;
            (forall digest: Bytes -> Bytes :: HashOf(digest, d) == digest(EncodeFields(d.fields))) <==>
            WellFormed(raw.hashFieldsData)
  {
    hide Typed, EncodeFields, DecodeFields, WellFormed;
    WellFormedIff(raw.hashFieldsData);
    DecodesNothing();
    CurrentIff(Decoded(target, raw).value);
  }

  /** One byte too many is accepted, and the header then hashes it as well. */
  lemma TrailingByteIsHashed(digest: Bytes -> Bytes, f: Fields, target: Header, version: int)
    requires Typed(f)
    ensures var raw := Raw(version, EncodeFields(f) + [0], []);
            && Decoded(target, raw).Some? && Decoded(target, raw).value.fields == f
            && HashOf(digest, Decoded(target, raw).value) == digest(EncodeFields(f) + [0])
            && !Coherent(Decoded(target, raw).value)
  {
    hide Typed, EncodeFields, DecodeFields, WellFormed;
    FieldsRoundTrip(f, [0]);
    var raw := Raw(version, EncodeFields(f) + [0], []);
    DecodedCoherentIff(digest, target, raw);
    WellFormedIff(raw.hashFieldsData);
  }
}
