/** The contract ABI types the codec handles, and the values they hold
    (libcodec/abi/ContractABICodec.h). */
module AbiTypes {
  import opened Bytes

  datatype AbiType =
    | Uint
    | Int
    | Bool
    | Address
    | Bytes32
    | DynBytes
    | Str
    | Fixed(elem: AbiType, count: nat)
    | Vector(elem: AbiType)
    | Tuple(members: seq<AbiType>)

  datatype AbiValue =
    | Num(i: int)
    | Flag(b: bool)
    | Blob(s: Bytes)
    | List(vs: seq<AbiValue>)

  /** The values of the C++ types; s256 is sign and magnitude, 256 bits wide. */
  predicate HasType(t: AbiType, v: AbiValue)
    decreases t
  {
    match t
    case Uint => v.Num? && 0 <= v.i < TWO256
    case Int => v.Num? && -TWO256 < v.i < TWO256
    case Bool => v.Flag?
    case Address => v.Blob? && |v.s| == 20
    case Bytes32 => v.Blob? && |v.s| == 32
    case DynBytes => v.Blob?
    case Str => v.Blob?
    case Fixed(e, n) => v.List? && |v.vs| == n < TWO64 && forall i :: 0 <= i < n ==> HasType(e, v.vs[i])
    case Vector(e) => v.List? && |v.vs| < TWO64 && forall i :: 0 <= i < |v.vs| ==> HasType(e, v.vs[i])
    case Tuple(ts) => v.List? && |v.vs| == |ts| < TWO64 && forall i :: 0 <= i < |ts| ==> HasType(ts[i], v.vs[i])
  }

  predicate HaveTypes(ts: seq<AbiType>, vs: seq<AbiValue>) {
    |ts| == |vs| && forall i :: 0 <= i < |ts| ==> HasType(ts[i], vs[i])
  }

  /** ABIDynamicType: strip the fixed dimensions; every tuple counts. */
  predicate IsDynamic(t: AbiType) {
    match t
    case Fixed(e, _) => IsDynamic(e)
    case DynBytes => true
    case Str => true
    case Vector(_) => true
    case Tuple(_) => true
    case _ => false
  }

  /** Length: the words a value takes in its parent's head. */
  function Words(t: AbiType): nat {
    if t.Fixed? && !IsDynamic(t) then t.count * Words(t.elem) else 1
  }

  /** Offset: the same for a list of types. */
  function SumWords(ts: seq<AbiType>): nat {
    if ts == [] then 0 else Words(ts[0]) + SumWords(ts[1..])
  }

  /** An array is laid out like a tuple of so many members of one type. */
  function Repeat(e: AbiType, n: nat): (ts: seq<AbiType>)
    ensures |ts| == n && forall i :: 0 <= i < n ==> ts[i] == e
    ensures n > 0 ==> ts[1..] == Repeat(e, n - 1)
  {
    if n == 0 then [] else [e] + Repeat(e, n - 1)
  }

  /** How deeply composites are nested; repeating a type adds nothing. */
  function Depth(t: AbiType): nat
    decreases t
  {
    match t
    case Fixed(e, _) => 1 + Depth(e)
    case Vector(e) => 1 + Depth(e)
    case Tuple(ts) => 1 + MaxDepth(ts)
    case _ => 0
  }

  function MaxDepth(ts: seq<AbiType>): nat
    decreases ts
  {
    if ts == [] then 0
    else
      var d, m := Depth(ts[0]), MaxDepth(ts[1..]);
      if d >= m then d else m
  }

  lemma RepeatDepth(e: AbiType, n: nat)
    ensures MaxDepth(Repeat(e, n)) <= Depth(e)
  {
    if n > 0 {
      RepeatDepth(e, n - 1);
    }
  }
}
