/** The header object: setters that drop the cached encodings and readers that
    fill them (libprotocol/protobuf/PBBlockHeader.h and .cpp). */
module PBHeader {
  import opened Wrappers
  import opened Bytes
  import opened ScaleCodec
  import opened BlockHeader
  import ScaleEncoder
  import ScaleDecoder
  import ScaleTyping

  class PBBlockHeader {
    const digest: Bytes -> Bytes

    // the raw protobuf header
    var version: int
    var hashFieldsData: Bytes
    var rawSignatures: seq<Signature>

    // the members that take part in the hash
    var fields: Fields
    var signatureList: seq<Signature>

    function State(): Header
      reads this
    {
      Header(fields, signatureList, version, hashFieldsData, rawSignatures)
    }

    /** The members have their C++ types; the caches may hold anything. */
    predicate Valid()
      reads this
    {
      Typed(fields)
    }

    /** A fresh header. The source leaves the block number uninitialised, so it
        starts as any number. */
    constructor (digest: Bytes -> Bytes, anyNumber: int)
      requires HasType(I64, Int(anyNumber))
      ensures Valid() && Coherent(State()) && this.digest == digest && signatureList == []
    {
      this.digest := digest;
      version, hashFieldsData, rawSignatures := 0, [], [];
      fields := Fields([], ZeroHash(), ZeroHash(), ZeroHash(), anyNumber, 0, 0, INVALID_SEALER_INDEX, [], [], []);
      signatureList := [];
      new;
      ClearedTyped();
      hide HasType;
      assert HasType(Vector(U64), IntsValue([])) by {
        NoWeights();
      }
    }

    static lemma NoWeights()
      ensures HasType(Vector(U64), IntsValue([]))
    {
    }

    method NoteDirty()
      modifies this`hashFieldsData
      ensures hashFieldsData == []
    {
      hashFieldsData := [];
    }

    method SetParentInfo(v: seq<ParentInfo>)
      requires Valid() && TypedOp(Op.SetParentInfo(v))
      modifies this
      ensures Valid() && State() == Apply(old(State()), Op.SetParentInfo(v))
    {
      hide Typed, TypedOp, EncodeFields;
      UpdateTyped(fields, Op.SetParentInfo(v));
      fields := fields.(parentInfo := v);
      NoteDirty();
    }

    method SetTxsRoot(v: Bytes)
      requires Valid() && TypedOp(Op.SetTxsRoot(v))
      modifies this
      ensures Valid() && State() == Apply(old(State()), Op.SetTxsRoot(v))
    {
      hide Typed, TypedOp, EncodeFields;
      UpdateTyped(fields, Op.SetTxsRoot(v));
      fields := fields.(txsRoot := v);
      NoteDirty();
    }

    method SetReceiptsRoot(v: Bytes)
      requires Valid() && TypedOp(Op.SetReceiptsRoot(v))
      modifies this
      ensures Valid() && State() == Apply(old(State()), Op.SetReceiptsRoot(v))
    {
      hide Typed, TypedOp, EncodeFields;
      UpdateTyped(fields, Op.SetReceiptsRoot(v));
      fields := fields.(receiptsRoot := v);
      NoteDirty();
    }

    method SetStateRoot(v: Bytes)
      requires Valid() && TypedOp(Op.SetStateRoot(v))
      modifies this
      ensures Valid() && State() == Apply(old(State()), Op.SetStateRoot(v))
    {
      hide Typed, TypedOp, EncodeFields;
      UpdateTyped(fields, Op.SetStateRoot(v));
      fields := fields.(stateRoot := v);
      NoteDirty();
    }

    method SetNumber(v: int)
      requires Valid() && TypedOp(Op.SetNumber(v))
      modifies this
      ensures Valid() && State() == Apply(old(State()), Op.SetNumber(v))
    {
      hide Typed, TypedOp, EncodeFields;
      UpdateTyped(fields, Op.SetNumber(v));
      fields := fields.(number := v);
      NoteDirty();
    }

    method SetGasUsed(v: int)
      requires Valid() && TypedOp(Op.SetGasUsed(v))
      modifies this
      ensures Valid() && State() == Apply(old(State()), Op.SetGasUsed(v))
    {
      hide Typed, TypedOp, EncodeFields;
      UpdateTyped(fields, Op.SetGasUsed(v));
      fields := fields.(gasUsed := v);
      NoteDirty();
    }

    method SetTimestamp(v: int)
      requires Valid() && TypedOp(Op.SetTimestamp(v))
      modifies this
      ensures Valid() && State() == Apply(old(State()), Op.SetTimestamp(v))
    {
      hide Typed, TypedOp, EncodeFields;
      UpdateTyped(fields, Op.SetTimestamp(v));
      fields := fields.(timestamp := v);
      NoteDirty();
    }

    method SetSealer(v: int)
      requires Valid() && TypedOp(Op.SetSealer(v))
      modifies this
      ensures Valid() && State() == Apply(old(State()), Op.SetSealer(v))
    {
      hide Typed, TypedOp, EncodeFields;
      UpdateTyped(fields, Op.SetSealer(v));
      fields := fields.(sealer := v);
      NoteDirty();
    }

    method SetSealerList(v: seq<Bytes>)
      requires Valid() && TypedOp(Op.SetSealerList(v))
      modifies this
      ensures Valid() && State() == Apply(old(State()), Op.SetSealerList(v))
    {
      hide Typed, TypedOp, EncodeFields;
      UpdateTyped(fields, Op.SetSealerList(v));
      fields := fields.(sealerList := v);
      NoteDirty();
    }

    method SetConsensusWeights(v: seq<int>)
      requires Valid() && TypedOp(Op.SetConsensusWeights(v))
      modifies this
      ensures Valid() && State() == Apply(old(State()), Op.SetConsensusWeights(v))
    {
      hide Typed, TypedOp, EncodeFields;
      UpdateTyped(fields, Op.SetConsensusWeights(v));
      fields := fields.(consensusWeights := v);
      NoteDirty();
    }

    method SetExtraData(v: Bytes)
      requires Valid() && TypedOp(Op.SetExtraData(v))
      modifies this
      ensures Valid() && State() == Apply(old(State()), Op.SetExtraData(v))
    {
      hide Typed, TypedOp, EncodeFields;
      UpdateTyped(fields, Op.SetExtraData(v));
      fields := fields.(extraData := v);
      NoteDirty();
    }

    method SetSignatureList(v: seq<Signature>)
      requires Valid()
      modifies this
      ensures Valid() && State() == Apply(old(State()), Op.SetSignatureList(v))
    {
      hide Typed, EncodeFields;
      signatureList := v;
      rawSignatures := [];
    }

    method SetVersion(v: int)
      requires Valid()
      modifies this
      ensures Valid() && State() == Apply(old(State()), Op.SetVersion(v))
    {
      hide Typed, EncodeFields;
      version := v;
    }

    /** Time stamp, weights and signatures stay; the caches go. */
    method Clear()
      requires Valid()
      modifies this
      ensures Valid() && State() == Apply(old(State()), Op.Clear)
    {
      hide Typed, EncodeFields, ZeroHash;
      UpdateTyped(fields, Op.Clear);
      hashFieldsData, rawSignatures := [], [];
      fields := Fields([], ZeroHash(), ZeroHash(), ZeroHash(), 0, 0, fields.timestamp, INVALID_SEALER_INDEX, [],
                       fields.consensusWeights, []);
    }

    /** encodeHashFields: the `<<` chain over all members, unless cached. */
    method EncodeHashFields()
      requires Valid()
      modifies this
      ensures Valid() && State() == Apply(old(State()), Op.CalculateHash)
      ensures hashFieldsData == EncodeFields(fields) <==> Current(old(State()))
    {
      hide Typed, HasType, EncodeMembers;
      EncodingNeverEmpty(fields);
      if |hashFieldsData| > 0 {
        return;
      }
      MembersEncode(fields);
      var stream := new ScaleEncoder.ScaleEncoderStream();
      var ok := stream.EncodeElementOfTuple(MEMBERS, Values(fields));
      hashFieldsData := stream.stream;
    }

    /** encodeSignatureList. */
    method EncodeSignatureList()
      requires Valid()
      modifies this
      ensures Valid() && State() == WithSignatures(old(State()))
      ensures old(rawSignatures) in {[], old(signatureList)} ==> rawSignatures == signatureList
    {
      hide Typed, HasType, EncodeFields;
      if |rawSignatures| > 0 {
        return;
      }
      var i := 0;
      while i < |signatureList|
        invariant 0 <= i <= |signatureList| && rawSignatures == signatureList[..i]
        invariant State() == old(State()).(rawSignatures := rawSignatures)
      {
        rawSignatures := rawSignatures + [signatureList[i]];
        i := i + 1;
      }
    }

    method Hash() returns (r: Bytes)
      requires Valid()
      modifies this
      ensures Valid() && State() == Apply(old(State()), Op.CalculateHash)
      ensures r == HashOf(digest, old(State()))
      ensures Current(old(State())) ==> r == digest(EncodeFields(fields))
    {
      hide Typed, EncodeFields;
      EncodeHashFields();
      r := digest(hashFieldsData);
    }

    method Encode() returns (raw: Raw)
      requires Valid()
      modifies this
      ensures Valid() && State() == Apply(old(State()), Op.EncodeHeader)
      ensures raw == Encoded(old(State()))
    {
      hide Typed, EncodeFields;
      EncodeHashFields();
      EncodeSignatureList();
      raw := Raw(version, hashFieldsData, rawSignatures);
    }

    /** The `>>` chain over all members: those read before an exception are
        replaced. */
    method DecodeHashFields(data: Bytes) returns (ok: bool)
      requires Valid()
      modifies this`fields
      ensures Valid() && fields == Overwritten(old(fields), data)
      ensures ok <==> DecodeFields(data).Some?
    {
      hide HasType, ScaleCodec.Decode, Typed, Values, FieldsOf, ReadPrefix, DecodeMembers, ScaleTyping.Expressible;
      var vs := ReadMembers(data);
      OverwrittenTyped(fields, data);
      MembersExpressible();
      PrefixRead(MEMBERS, data);
      ok := |vs| == |MEMBERS|;
      fields := FieldsOf(vs + Values(fields)[|vs|..]);
      assert fields == Overwritten(old(fields), data);
    }

    method ReadMembers(data: Bytes) returns (vs: seq<ScaleValue>)
      ensures vs == ReadPrefix(MEMBERS, data)
    {
      hide HasType, ScaleCodec.Decode, ScaleDecoder.Supported;
      var stream := new ScaleDecoder.ScaleDecoderStream(data);
      MembersSupported();
      vs := [];
      assert MEMBERS[0..] == MEMBERS && [] + ReadPrefix(MEMBERS, data) == ReadPrefix(MEMBERS, data);
      for i := 0 to |MEMBERS|
        invariant stream.Valid() && fresh(stream)
        invariant ReadPrefix(MEMBERS, data) == vs + ReadPrefix(MEMBERS[i..], stream.Remaining())
      {
        ghost var types := MEMBERS[i..];
        assert types[0] == MEMBERS[i] && types[1..] == MEMBERS[i + 1..];
        var v := stream.DecodeValue(MEMBERS[i]);
        if v.None? {
          assert vs + [] == vs;
          return;
        }
        assert vs + ([v.value] + ReadPrefix(types[1..], stream.Remaining())) ==
               vs + [v.value] + ReadPrefix(types[1..], stream.Remaining());
        vs := vs + [v.value];
      }
      assert MEMBERS[|MEMBERS|..] == [] && vs + [] == vs;
    }

    /** decode: false stands for the exception a short or malformed stream
        throws. */
    method Decode(raw: Raw) returns (ok: bool)
      requires Valid()
      modifies this
      ensures Valid()
      ensures ok <==> Decoded(old(State()), raw).Some?
      ensures ok ==> State() == Decoded(old(State()), raw).value
      ensures version == raw.version && hashFieldsData == raw.hashFieldsData && rawSignatures == raw.signatures
      ensures fields == Overwritten(old(fields), raw.hashFieldsData)
      ensures !ok ==> signatureList == old(signatureList)
    {
      hide DecodeFields, EncodeFields, Typed, Overwritten;
      version, hashFieldsData, rawSignatures := raw.version, raw.hashFieldsData, raw.signatures;
      ok := DecodeHashFields(hashFieldsData);
      if ok {
        OverwrittenAll(old(fields), raw.hashFieldsData);
        AppendSignatures();
      }
    }

    method AppendSignatures()
      modifies this`signatureList
      ensures signatureList == old(signatureList) + rawSignatures
    {
      var i := 0;
      while i < |rawSignatures|
        invariant 0 <= i <= |rawSignatures|
        invariant signatureList == old(signatureList) + rawSignatures[..i]
      {
        signatureList := signatureList + [rawSignatures[i]];
        i := i + 1;
      }
      assert rawSignatures[..i] == rawSignatures;
    }

    static lemma MembersSupported()
      ensures forall i :: 0 <= i < |MEMBERS| ==> ScaleDecoder.Supported(MEMBERS[i])
    {
      assert ScaleDecoder.Supported(PARENT_INFO) by {
        assert ScaleDecoder.Supported(PARENT_INFO.members[0]) && ScaleDecoder.Supported(PARENT_INFO.members[1]);
      }
    }
  }
}
