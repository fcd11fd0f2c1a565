/**
 * The parser objects for type names and function signatures: ABIInType is
 * reset to one type after another, ABIFunc collects a function's parameters.
 */
module AbiParser {
  import opened Wrappers
  import opened AbiTypes
  import opened AbiSignature

  // ---- The bracket loop ----

  function Prepend<T>(done: seq<T>, r: Option<seq<T>>): Option<seq<T>> {
    if r.None? then None else Some(done + r.value)
  }

  /** The text is scanned up to `from`, and gave `done`. */
  ghost predicate Scanned(s: string, from: nat, done: seq<nat>) {
    from <= |s| && Scan(s) == Prepend(done, Scan(s[from..]))
  }

  lemma NothingScanned(s: string)
    ensures Scanned(s, 0, [])
  {
    assert s[0..] == s;
    if Scan(s).Some? {
      assert [] + Scan(s).value == Scan(s).value;
    }
  }

  lemma GroupScanned(s: string, from: nat, done: seq<nat>)
    requires from < |s| && Scanned(s, from, done)
    ensures var group := FirstGroup(s[from..]);
            if group.None? then Scan(s) == None
            else Scanned(s, from + group.value.1, done + [Extent(group.value.0)])
  {
    hide FirstGroup, Extent;
    var group := FirstGroup(s[from..]);
    if group.Some? {
      var next, e := group.value.1, Extent(group.value.0);
      assert s[from..][next..] == s[from + next..];
      var more := Scan(s[from + next..]);
      if more.Some? {
        assert done + ([e] + more.value) == done + [e] + more.value;
      }
    }
  }

  class AbiInType {
    var kind: Option<Elementary>
    var elementName: string
    var text: string
    var extents: seq<nat>

    constructor ()
      ensures Cleared()
    {
      kind, elementName, text, extents := None, [], [], [];
    }

    predicate Cleared()
      reads this
    {
      kind.None? && elementName == [] && text == [] && extents == []
    }

    predicate Holds(t: TypeInfo)
      reads this
    {
      kind == Some(t.kind) && elementName == t.name && text == t.text && extents == t.extents
    }

    method Clear()
      modifies this
      ensures Cleared()
    {
      kind, elementName, text, extents := None, [], [], [];
    }

    /** The object holds what the text says, or nothing. */
    method Reset(s: string) returns (ok: bool)
      modifies this
      ensures ok <==> ParseType(s).Some?
      ensures if ok then Holds(ParseType(s).value) else Cleared()
    {
      hide Trim, KindOf, AllDigits, Extent, Scan, Scanned;
      Clear();
      var trimmed := Trim(s);
      var first := Find(trimmed, '[');
      var name := Trim(trimmed[..first]);
      var t := KindOf(name);
      if t.None? {
        return false;
      }
      var found := ScanExtents(trimmed[first..]);
      if found.None? {
        return false;
      }
      kind, extents, text, elementName := t, found.value, trimmed, name;
      ok := true;
    }

    static method ScanExtents(s: string) returns (r: Option<seq<nat>>)
      ensures r == Scan(s)
    {
      hide Trim, AllDigits, Extent, Scan, Scanned, Find;
      var found: seq<nat>, from: nat := [], 0;
      NothingScanned(s);
      while from < |s|
        invariant Scanned(s, from, found)
        invariant from <= |s|
      {
        GroupScanned(s, from, found);
        var rest := s[from..];
        var left, right := Find(rest, '['), Find(rest, ']');
        if left == |rest| || right == |rest| || left >= right {
          return None;
        }
        var digits := Trim(rest[left + 1..right]);
        if !AllDigits(digits) {
          return None;
        }
        found := found + [Extent(digits)];
        from := from + right + 1;
      }
      ScanEnds(s, found);
      r := Some(found);
    }

    /** string, bytes, or a dimension without size. */
    method Dynamic() returns (b: bool)
      ensures b <==> kind in {Some(StringName), Some(BytesName)} || 0 in extents
      ensures kind.Some? ==> (b <==> IsDynamic(TypeOf(kind.value, extents)))
    {
      if kind.Some? {
        DynamicIff(kind.value, extents);
      }
      if kind == Some(StringName) || kind == Some(BytesName) {
        return true;
      }
      for i := 0 to |extents|
        invariant 0 !in extents[..i]
      {
        if extents[i] == 0 {
          return true;
        }
      }
      assert extents[..|extents|] == extents;
      b := false;
    }

    /** An array type becomes its element type. */
    method RemoveExtent() returns (ok: bool)
      modifies this`extents
      ensures ok <==> old(extents) != []
      ensures extents == if ok then old(extents[..|extents| - 1]) else old(extents)
      ensures ok && kind.Some? ==>
                var t := TypeOf(kind.value, old(extents));
                (t.Vector? || t.Fixed?) && t.elem == TypeOf(kind.value, extents)
    {
      var length := |extents|;
      if length > 0 {
        extents := extents[..length - 1];
        return true;
      }
      ok := false;
    }
  }

  lemma ScanEnds(s: string, done: seq<nat>)
    requires Scanned(s, |s|, done)
    ensures Scan(s) == Some(done)
  {
    assert s[|s|..] == [] && done + [] == done;
  }

  // ---- The loop over the parameters ----

  /** The parameters read before the first that is refused. */
  ghost function Accepted(texts: seq<string>): seq<TypeInfo> {
    if texts == [] || ParseType(texts[0]).None? then []
    else [ParseType(texts[0]).value] + Accepted(texts[1..])
  }

  lemma {:induction false} AcceptedAll(texts: seq<string>)
    ensures ParseTypes(texts).Some? ==> Accepted(texts) == ParseTypes(texts).value
  {
    hide ParseType;
    if texts != [] {
      AcceptedAll(texts[1..]);
    }
  }

  ghost predicate Collected(parts: seq<string>, i: nat, written: string, params: seq<TypeInfo>) {
    && i <= |parts|
    && var texts, left := Cleaned(parts), Cleaned(parts[i..]);
    && Commas(texts) == written + Commas(left)
    && ParseTypes(texts) == Prepend(params, ParseTypes(left))
    && Accepted(texts) == params + Accepted(left)
  }

  lemma NothingCollected(parts: seq<string>)
    ensures Collected(parts, 0, [], [])
  {
    hide Commas, ParseTypes, Accepted, Cleaned;
    assert parts[0..] == parts;
    var texts := Cleaned(parts);
    assert Commas(texts) == [] + Commas(texts) && Accepted(texts) == [] + Accepted(texts);
    if ParseTypes(texts).Some? {
      assert [] + ParseTypes(texts).value == ParseTypes(texts).value;
    }
  }

  lemma PartCollected(parts: seq<string>, i: nat, written: string, params: seq<TypeInfo>)
    requires i < |parts| && Collected(parts, i, written, params)
    ensures var text := Trim(parts[i]);
            var t := ParseType(text);
            if text == [] then Collected(parts, i + 1, written, params)
            else if t.Some? then Collected(parts, i + 1, written + (text + ","), params + [t.value])
            else ParseTypes(Cleaned(parts)) == None && Accepted(Cleaned(parts)) == params
  {
    hide Trim, ParseType;
    var text := Trim(parts[i]);
    var left, more := Cleaned(parts[i..]), Cleaned(parts[i + 1..]);
    assert parts[i..][0] == parts[i] && parts[i..][1..] == parts[i + 1..];
    if text == [] {
      assert left == more;
    } else {
      assert left == [text] + more && left[0] == text && left[1..] == more;
      TextCollected(text, more, written, params);
    }
  }

  lemma TextCollected(text: string, more: seq<string>, written: string, params: seq<TypeInfo>)
    ensures var left := [text] + more;
            var t := ParseType(text);
            && written + Commas(left) == written + (text + ",") + Commas(more)
            && (t.Some? ==>
                  && Prepend(params, ParseTypes(left)) == Prepend(params + [t.value], ParseTypes(more))
                  && params + Accepted(left) == params + [t.value] + Accepted(more))
            && (t.None? ==> Prepend(params, ParseTypes(left)) == None && params + Accepted(left) == params)
  {
    hide ParseType;
    var left, t := [text] + more, ParseType(text);
    assert left[0] == text && left[1..] == more;
    assert written + (text + "," + Commas(more)) == written + (text + ",") + Commas(more);
    if t.Some? {
      var ts := ParseTypes(more);
      if ts.Some? {
        assert params + ([t.value] + ts.value) == params + [t.value] + ts.value;
      }
      assert params + ([t.value] + Accepted(more)) == params + [t.value] + Accepted(more);
    } else {
      assert params + [] == params;
    }
  }

  lemma AllCollected(parts: seq<string>, written: string, params: seq<TypeInfo>)
    requires Collected(parts, |parts|, written, params)
    ensures Commas(Cleaned(parts)) == written && ParseTypes(Cleaned(parts)) == Some(params)
  {
    assert parts[|parts|..] == [] && written + [] == written && params + [] == params;
  }

  /** The built-up text ends in a comma exactly if there are parameters. */
  lemma {:induction false} LastComma(texts: seq<string>)
    ensures texts == [] <==> Commas(texts) == []
    ensures texts != [] ==> Commas(texts)[|Commas(texts)| - 1] == ','
  {
    if texts != [] {
      LastComma(texts[1..]);
    }
  }

  /** The parameter texts of a signature, if it has its parentheses. */
  ghost function Parameters(sig: string): seq<string> {
    var i0, i1 := Find(sig, '('), Find(sig, ')');
    if i0 == |sig| || i1 == |sig| || i1 <= i0 then [] else Cleaned(Split(sig[i0 + 1..i1]))
  }

  class AbiFunc {
    var name: string
    var signature: string
    var params: seq<TypeInfo>

    constructor ()
      ensures name == [] && signature == [] && params == []
    {
      name, signature, params := [], [], [];
    }

    /** Name and signature change on success only; the parameters accepted are
        added to those already there, also before a failure. */
    method Parser(sig: string) returns (ok: bool)
      modifies this
      ensures ok <==> ParseFunction(sig).Some?
      ensures params == old(params) + Accepted(Parameters(sig))
      ensures ok ==>
                var f := ParseFunction(sig).value;
                name == f.name && signature == f.signature && params == old(params) + f.params
      ensures !ok ==> name == old(name) && signature == old(signature)
    {
      hide Trim, Split, Cleaned, ParseTypes, Accepted, Commas;
      var i0, i1 := Find(sig, '('), Find(sig, ')');
      if i0 == |sig| || i1 == |sig| || i1 <= i0 {
        AcceptedAll([]);
        NoTypes();
        return false;
      }
      var funcName := Trim(sig[..i0]);
      var types := Split(sig[i0 + 1..i1]);
      var written;
      ok, written := Collect(types);
      AcceptedAll(Cleaned(types));
      if !ok {
        return;
      }
      LastComma(Cleaned(types));
      var built := funcName + "(" + written;
      if built[|built| - 1] == ',' {
        built := built[..|built| - 1] + ")";
      } else {
        built := built + ")";
      }
      name := funcName;
      signature := built;
    }

    method Collect(types: seq<string>) returns (ok: bool, written: string)
      modifies this`params
      ensures ok <==> ParseTypes(Cleaned(types)).Some?
      ensures params == old(params) + Accepted(Cleaned(types))
      ensures ok ==> written == Commas(Cleaned(types))
    {
      hide Trim, Cleaned, ParseType, ParseTypes, Accepted, Commas, Collected;
      written := [];
      ghost var added: seq<TypeInfo> := [];
      var at := new AbiInType();
      NothingCollected(types);
      for i := 0 to |types|
        invariant fresh(at)
        invariant params == old(params) + added
        invariant Collected(types, i, written, added)
      {
        PartCollected(types, i, written, added);
        var text := Trim(types[i]);
        if text != [] {
          written := written + (text + ",");
          ok := at.Reset(text);
          if !ok {
            return;
          }
          var t := TypeInfo(at.kind.value, at.elementName, at.text, at.extents);
          params := params + [t];
          added := added + [t];
        }
      }
      AllCollected(types, written, added);
      AcceptedAll(Cleaned(types));
      ok := true;
    }

    method GetParamsType() returns (r: seq<string>)
      ensures |r| == |params| && forall i :: 0 <= i < |r| ==> r[i] == params[i].text
    {
      r := [];
      for i := 0 to |params|
        invariant |r| == i && forall j :: 0 <= j < i ==> r[j] == params[j].text
      {
        r := r + [params[i].text];
      }
    }
  }

  lemma NoTypes()
    ensures ParseTypes([]) == Some([])
  {
  }
}
