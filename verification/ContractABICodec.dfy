/** The codec object: it appends to a fixed and a dynamic part when encoding and
    walks its data when decoding (libcodec/abi/ContractABICodec.h and .cpp). */
module AbiObject {
  import opened Wrappers
  import opened Bytes
  import opened AbiTypes
  import opened AbiCodec
  import opened AbiRoundTrip

  type Values = Option<seq<AbiValue>>

  function Prepend(vs: seq<AbiValue>, r: Values): Values {
    if r.None? then None else Some(vs + r.value)
  }

  lemma PrependStep(vs: seq<AbiValue>, v: AbiValue, r: Values)
    ensures Prepend(vs, Prepend([v], r)) == Prepend(vs + [v], r)
  {
    if r.Some? {
      assert vs + ([v] + r.value) == vs + [v] + r.value;
    }
  }

  lemma PrependNothing(r: Values)
    ensures Prepend([], r) == r
  {
    if r.Some? {
      assert [] + r.value == r.value;
    }
  }

  /** The first `i` members are written: what is still to come completes the
      head and the contents. */
  ghost predicate Written(ts: seq<AbiType>, vs: seq<AbiValue>, i: nat, head: Bytes, content: Bytes, length: nat)
    requires HaveTypes(ts, vs)
  {
    && i <= |ts| && HaveTypes(ts[i..], vs[i..])
    && Head(ts, vs, WORD * |ts|) == head + Head(ts[i..], vs[i..], length)
    && Tail(ts, vs) == content + Tail(ts[i..], vs[i..])
  }

  lemma NothingWritten(ts: seq<AbiType>, vs: seq<AbiValue>, length: nat)
    requires HaveTypes(ts, vs) && length == WORD * |ts|
    ensures Written(ts, vs, 0, [], [], length)
  {
    hide Head, Tail, HasType;
    assert ts[0..] == ts && vs[0..] == vs;
    assert [] + Head(ts, vs, length) == Head(ts, vs, length) && [] + Tail(ts, vs) == Tail(ts, vs);
  }

  lemma MemberWritten(ts: seq<AbiType>, vs: seq<AbiValue>, i: nat, head: Bytes, content: Bytes, length: nat)
    requires HaveTypes(ts, vs) && i < |ts| && Written(ts, vs, i, head, content, length)
    ensures var one := Serialise(ts[i], vs[i]);
            if IsDynamic(ts[i]) then Written(ts, vs, i + 1, head + Word(length), content + one, length + |one|)
            else Written(ts, vs, i + 1, head + one, content, length)
  {
    hide Serialise, HasType, Word, IsDynamic;
    var one, rest, types := Serialise(ts[i], vs[i]), vs[i + 1..], ts[i + 1..];
    assert vs[i..][0] == vs[i] && vs[i..][1..] == rest && ts[i..][0] == ts[i] && ts[i..][1..] == types;
    if IsDynamic(ts[i]) {
      assert content + (one + Tail(types, rest)) == (content + one) + Tail(types, rest);
      assert head + (Word(length) + Head(types, rest, length + |one|)) ==
             (head + Word(length)) + Head(types, rest, length + |one|);
    } else {
      assert content + ([] + Tail(types, rest)) == content + Tail(types, rest);
      assert head + (one + Head(types, rest, length)) == (head + one) + Head(types, rest, length);
    }
  }

  lemma AllWritten(ts: seq<AbiType>, vs: seq<AbiValue>, head: Bytes, content: Bytes, length: nat)
    requires HaveTypes(ts, vs) && Written(ts, vs, |ts|, head, content, length)
    ensures head + content == Body(ts, vs)
  {
    assert ts[|ts|..] == [] && head + [] == head && content + [] == content;
  }

  /** The first `i` members are read as `vs`: the result is `vs` and what the
      remaining members give, from position `at` in the head on. */
  ghost predicate ReadUpTo(ts: seq<AbiType>, data: Bytes, base: nat, i: nat, at: nat, vs: seq<AbiValue>) {
    i <= |ts| && DecodeMembers(ts, data, base, 0) == Prepend(vs, DecodeMembers(ts[i..], data, base, at))
  }

  lemma NothingRead(ts: seq<AbiType>, data: Bytes, base: nat)
    ensures ReadUpTo(ts, data, base, 0, 0, [])
  {
    hide DecodeMembers;
    assert ts[0..] == ts;
    PrependNothing(DecodeMembers(ts, data, base, 0));
  }

  lemma MemberRead(ts: seq<AbiType>, data: Bytes, base: nat, i: nat, at: nat, vs: seq<AbiValue>)
    requires i < |ts| && ReadUpTo(ts, data, base, i, at, vs)
    ensures var v := DecodeMember(ts[i], data, base, at);
            if v.None? then DecodeMembers(ts, data, base, 0) == None
            else ReadUpTo(ts, data, base, i + 1, at + WORD * Words(ts[i]), vs + [v.value])
  {
    hide DecodeMember, Words;
    assert ts[i..][0] == ts[i] && ts[i..][1..] == ts[i + 1..];
    var v := DecodeMember(ts[i], data, base, at);
    if v.Some? {
      PrependStep(vs, v.value, DecodeMembers(ts[i + 1..], data, base, at + WORD * Words(ts[i])));
    }
  }

  lemma AllRead(ts: seq<AbiType>, data: Bytes, base: nat, at: nat, vs: seq<AbiValue>)
    requires ReadUpTo(ts, data, base, |ts|, at, vs)
    ensures DecodeMembers(ts, data, base, 0) == Some(vs)
  {
    hide DecodeMember;
    assert ts[|ts|..] == [] && vs + [] == vs;
  }

  class ContractABICodec {
    const hash: string -> Bytes
    var offset: nat
    var fixedPart: Bytes
    var dynamicPart: Bytes
    var data: Bytes

    constructor (hash: string -> Bytes)
      ensures this.hash == hash
    {
      this.hash := hash;
      offset, fixedPart, dynamicPart, data := 0, [], [], [];
    }

    // ---- Encoding ----

    /** serialise, for every supported type. */
    method SerialiseValue(t: AbiType, v: AbiValue) returns (out: Bytes)
      requires HasType(t, v)
      ensures out == Serialise(t, v)
      decreases v
    {
      hide Word, Body;
      match t
      case Uint => out := Word(v.i);
      case Int => out := Word(v.i);
      case Bool => out := Word(if v.b then 1 else 0);
      case Address => out := Zeros(12) + v.s;
      case Bytes32 => out := v.s;
      case DynBytes => out := Word(|v.s|) + v.s + Zeros(RoundUp(|v.s|) - |v.s|);
      case Str => out := Word(|v.s|) + v.s + Zeros(RoundUp(|v.s|) - |v.s|);
      case Fixed(e, _) => out := SerialiseItems(e, v.vs);
      case Vector(e) =>
        out := SerialiseItems(e, v.vs);
        out := Word(|v.vs|) + out;
      case Tuple(ts) => out := SerialiseMembers(ts, v.vs);
    }

    /** The loop over the elements of an array or a vector. */
    method SerialiseItems(e: AbiType, vs: seq<AbiValue>) returns (out: Bytes)
      requires forall i :: 0 <= i < |vs| ==> HasType(e, vs[i])
      ensures HaveTypes(Repeat(e, |vs|), vs) && out == Body(Repeat(e, |vs|), vs)
      decreases vs
    {
      hide Serialise, HasType, Word, IsDynamic, Written;
      ghost var ts := Repeat(e, |vs|);
      var length: nat := WORD * |vs|;
      var offsets: Bytes, content: Bytes := [], [];
      NothingWritten(ts, vs, length);
      for i := 0 to |vs|
        invariant IsDynamic(e) ==> Written(ts, vs, i, offsets, content, length)
        invariant !IsDynamic(e) ==> offsets == [] && Written(ts, vs, i, content, [], length)
      {
        var one := SerialiseValue(e, vs[i]);
        if IsDynamic(e) {
          MemberWritten(ts, vs, i, offsets, content, length);
          offsets := offsets + Word(length);
          length := length + |one|;
        } else {
          MemberWritten(ts, vs, i, content, [], length);
        }
        content := content + one;
      }
      if IsDynamic(e) {
        AllWritten(ts, vs, offsets, content, length);
      } else {
        AllWritten(ts, vs, content, [], length);
        assert [] + content == content + [];
      }
      out := offsets + content;
    }

    /** The traversal of a tuple's members. */
    method SerialiseMembers(ts: seq<AbiType>, vs: seq<AbiValue>) returns (out: Bytes)
      requires HaveTypes(ts, vs)
      ensures out == Body(ts, vs)
      decreases vs
    {
      hide Serialise, HasType, Word, IsDynamic, Written;
      var length: nat := WORD * |ts|;
      var head: Bytes, content: Bytes := [], [];
      NothingWritten(ts, vs, length);
      for i := 0 to |ts|
        invariant Written(ts, vs, i, head, content, length)
      {
        var one := SerialiseValue(ts[i], vs[i]);
        MemberWritten(ts, vs, i, head, content, length);
        if IsDynamic(ts[i]) {
          content := content + one;
          head := head + Word(length);
          length := length + |one|;
        } else {
          head := head + one;
        }
      }
      AllWritten(ts, vs, head, content, length);
      out := head + content;
    }

    /** abiInAux: one argument, then the following ones. */
    method AbiInAux(ts: seq<AbiType>, vs: seq<AbiValue>)
      requires HaveTypes(ts, vs)
      modifies this
      ensures fixedPart == old(fixedPart) + Head(ts, vs, old(offset))
      ensures dynamicPart == old(dynamicPart) + Tail(ts, vs)
      decreases |ts|
    {
      hide Serialise, HasType, Word, IsDynamic, Head, Tail;
      HeadTail(ts, vs, offset);
      if |ts| == 0 {
        assert fixedPart + [] == fixedPart && dynamicPart + [] == dynamicPart;
        return;
      }
      var out := SerialiseValue(ts[0], vs[0]);
      if IsDynamic(ts[0]) {
        dynamicPart := dynamicPart + out;
        fixedPart := fixedPart + Word(offset);
        offset := offset + |out|;
      } else {
        fixedPart := fixedPart + out;
      }
      AbiInAux(ts[1..], vs[1..]);
    }

    /** abiIn: four bytes of the signature's hash in front, unless it is empty. */
    method EncodeCall(sig: string, ts: seq<AbiType>, vs: seq<AbiValue>) returns (out: Bytes)
      requires HaveTypes(ts, vs) && |hash(sig)| == 32
      modifies this
      ensures out == (if sig == "" then [] else hash(sig)[..4]) + AbiIn(ts, vs)
      ensures |fixedPart| == WORD * SumWords(ts)
    {
      hide Head, Tail, HasType;
      offset := WORD * SumWords(ts);
      fixedPart, dynamicPart := [], [];
      HeadLength(ts, vs, offset);
      AbiInAux(ts, vs);
      if sig == "" {
        out := fixedPart + dynamicPart;
      } else {
        out := hash(sig)[..4] + fixedPart + dynamicPart;
      }
    }

    // ---- Decoding ----

    /** deserialize into a u256. */
    method DeserializeWord(at: nat) returns (r: Option<nat>)
      ensures r == ReadWord(data, at)
    {
      if Size(at + 31) >= |data| {
        return None;
      }
      var word := Crop(data, at, 32);
      var u := FromBigEndian(word, TWO256);
      CroppedValue(word);
      r := Some(u);
    }

    static lemma CroppedValue(word: Bytes)
      requires |word| <= 32
      ensures BeValue(word) % TWO256 == BeValue(word)
    {
      BeValueBound(word);
      Pow256Mono(|word|, 32);
      Pow256Wide();
      DivModUnique(BeValue(word), 0, BeValue(word), TWO256);
    }

    method DeserializeBlob(at: nat) returns (r: Option<Bytes>)
      ensures r == AbiCodec.DecodeBlob(data, at)
    {
      var len := DeserializeWord(at);
      if len.None? || Size(at + 31 + Size(len.value)) >= |data| {
        return None;
      }
      r := Some(Crop(data, Size(at + 32), Size(len.value)));
    }

    /** deserialize, for every supported type; None stands for an exception. */
    method DeserializeValue(t: AbiType, at: nat) returns (r: Option<AbiValue>)
      ensures r == Decode(t, data, at)
      decreases Depth(t), 2
    {
      hide ReadWord, AbiCodec.DecodeBlob, DecodeMembers;
      match t
      case Uint =>
        var u := DeserializeWord(at);
        r := if u.None? then None else Some(Num(u.value));
      case Int =>
        var u := DeserializeWord(at);
        r := if u.None? then None else Some(Num(Signed(u.value)));
      case Bool =>
        var u := DeserializeWord(at);
        r := if u.None? then None else Some(Flag(u.value > 0));
      case Address =>
        var u := DeserializeWord(at);
        r := if u.None? then None else Some(Blob(FillTo(Crop(data, Size(at + 12), 20), 20)));
      case Bytes32 =>
        var u := DeserializeWord(at);
        r := if u.None? then None else Some(Blob(FillTo(Crop(data, at, 32), 32)));
      case DynBytes =>
        var s := DeserializeBlob(at);
        r := if s.None? then None else Some(Blob(s.value));
      case Str =>
        var s := DeserializeBlob(at);
        r := if s.None? then None else Some(Blob(s.value));
      case Fixed(e, n) =>
        var vs := DeserializeItems(e, n, at);
        r := if vs.None? then None else Some(List(vs.value));
      case Vector(e) =>
        var len := DeserializeWord(at);
        if len.None? {
          return None;
        }
        var vs := DeserializeItems(e, Size(len.value), Size(at + 32));
        r := if vs.None? then None else Some(List(vs.value));
      case Tuple(ts) =>
        var vs := DeserializeMembers(ts, at);
        r := if vs.None? then None else Some(List(vs.value));
    }

    /** One element or member: directly, or through the offset word. */
    method DeserializeMember(t: AbiType, base: nat, at: nat) returns (r: Option<AbiValue>)
      ensures r == DecodeMember(t, data, base, at)
      decreases Depth(t), 3
    {
      hide ReadWord, Decode, IsDynamic;
      if IsDynamic(t) {
        var w := DeserializeWord(Size(base + at));
        if w.None? {
          return None;
        }
        r := DeserializeValue(t, Size(base + Size(w.value)));
      } else {
        r := DeserializeValue(t, Size(base + at));
      }
    }

    /** The loop over the elements of an array or a vector. */
    method DeserializeItems(e: AbiType, n: nat, base: nat) returns (r: Values)
      ensures r == DecodeMembers(Repeat(e, n), data, base, 0)
      decreases Depth(e) + 1, 0
    {
      hide DecodeMember, DecodeMembers, Words, ReadUpTo;
      ghost var ts := Repeat(e, n);
      var vs: seq<AbiValue>, at: nat := [], 0;
      NothingRead(ts, data, base);
      for u := 0 to n
        invariant ReadUpTo(ts, data, base, u, at, vs)
      {
        var v := DeserializeMember(e, base, at);
        MemberRead(ts, data, base, u, at, vs);
        if v.None? {
          return None;
        }
        at := at + WORD * Words(e);
        vs := vs + [v.value];
      }
      AllRead(ts, data, base, at, vs);
      r := Some(vs);
    }

    /** The traversal of a tuple's members. */
    method DeserializeMembers(ts: seq<AbiType>, base: nat) returns (r: Values)
      ensures r == DecodeMembers(ts, data, base, 0)
      decreases MaxDepth(ts) + 1, 0
    {
      hide DecodeMember, DecodeMembers, Words, ReadUpTo;
      var vs: seq<AbiValue>, at: nat := [], 0;
      NothingRead(ts, data, base);
      for i := 0 to |ts|
        invariant ReadUpTo(ts, data, base, i, at, vs)
      {
        DepthOf(ts, i);
        var v := DeserializeMember(ts[i], base, at);
        MemberRead(ts, data, base, i, at, vs);
        if v.None? {
          return None;
        }
        at := at + WORD * Words(ts[i]);
        vs := vs + [v.value];
      }
      AllRead(ts, data, base, at, vs);
      r := Some(vs);
    }

    static lemma {:induction false} DepthOf(ts: seq<AbiType>, i: nat)
      requires i < |ts|
      ensures Depth(ts[i]) <= MaxDepth(ts)
    {
      if i > 0 {
        DepthOf(ts[1..], i - 1);
      }
    }

    /** abiOutAux: one argument at the running offset, then the following ones. */
    method AbiOutAux(ts: seq<AbiType>) returns (r: Values)
      modifies this`offset
      ensures r == DecodeMembers(ts, data, 0, old(offset))
      decreases |ts|
    {
      hide DecodeMember, Words;
      if |ts| == 0 {
        return Some([]);
      }
      var v := DeserializeMember(ts[0], 0, offset);
      if v.None? {
        return None;
      }
      offset := offset + WORD * Words(ts[0]);
      var vs := AbiOutAux(ts[1..]);
      r := if vs.None? then None else Some([v.value] + vs.value);
    }

    /** abiOut: exceptions end in false. */
    method DecodeCall(bytes: Bytes, ts: seq<AbiType>) returns (ok: bool, vs: seq<AbiValue>)
      modifies this
      ensures ok <==> AbiOut(ts, bytes).Some?
      ensures ok ==> AbiOut(ts, bytes) == Some(vs)
    {
      hide DecodeMembers;
      data, offset := bytes, 0;
      var r := AbiOutAux(ts);
      ok := r.Some?;
      vs := if ok then r.value else [];
    }
  }
}
