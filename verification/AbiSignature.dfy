/**
 * Solidity type names and function signatures, as text (ABIInType and ABIFunc).
 *
 * `ParseType` and `ParseFunction` say what the two parsers accept and return.
 * The grammar they recognise is given separately, as a way of writing texts
 * (`Written`), and related to them in both directions.
 */
module AbiSignature {
  import opened Wrappers
  import opened Bytes
  import opened AbiTypes

  // ---- Text ----

  /** std::string::find: the first position holding `c`, or the length. */
  function Find(s: string, c: char): (r: nat)
    ensures r <= |s| && (r < |s| ==> s[r] == c)
    ensures forall i :: 0 <= i < r ==> s[i] != c
  {
    if s == [] || s[0] == c then 0
    else
      var r := Find(s[1..], c);
      assert forall i :: 0 < i < 1 + r ==> s[i] == s[1..][i - 1];
      1 + r
  }

  function Spaces(n: nat): string {
    seq(n, i => ' ')
  }

  ghost predicate Tight(s: string) {
    s != [] ==> s[0] != ' ' && s[|s| - 1] != ' '
  }

  function TrimLeft(s: string): string {
    if s != [] && s[0] == ' ' then TrimLeft(s[1..]) else s
  }

  function TrimRight(s: string): string {
    if s != [] && s[|s| - 1] == ' ' then TrimRight(s[..|s| - 1]) else s
  }

  /** trim: spaces only, on both sides. */
  function Trim(s: string): string {
    TrimRight(TrimLeft(s))
  }

  lemma {:induction false} TrimLeftSplit(s: string) returns (n: nat)
    ensures s == Spaces(n) + TrimLeft(s)
    ensures TrimLeft(s) == [] || TrimLeft(s)[0] != ' '
  {
    if s != [] && s[0] == ' ' {
      var m := TrimLeftSplit(s[1..]);
      n := m + 1;
      assert s == [' '] + s[1..];
      assert Spaces(n) == [' '] + Spaces(m);
    } else {
      n := 0;
    }
  }

  lemma {:induction false} TrimRightSplit(s: string) returns (n: nat)
    ensures s == TrimRight(s) + Spaces(n)
    ensures TrimRight(s) == [] || TrimRight(s)[|TrimRight(s)| - 1] != ' '
  {
    if s != [] && s[|s| - 1] == ' ' {
      var m := TrimRightSplit(s[..|s| - 1]);
      n := m + 1;
      assert s == s[..|s| - 1] + [' '];
      assert Spaces(n) == Spaces(m) + [' '];
    } else {
      n := 0;
    }
  }

  /** Trim takes away spaces, and all of them. */
  lemma TrimSplit(s: string) returns (a: nat, b: nat)
    ensures s == Spaces(a) + Trim(s) + Spaces(b) && Tight(Trim(s))
  {
    a := TrimLeftSplit(s);
    b := TrimRightSplit(TrimLeft(s));
    var t := Trim(s);
    assert t != [] ==> t[0] == TrimLeft(s)[0];
  }

  lemma {:induction false} TrimLeftPad(n: nat, s: string)
    requires s == [] || s[0] != ' '
    ensures TrimLeft(Spaces(n) + s) == s
  {
    if n > 0 {
      assert (Spaces(n) + s)[1..] == Spaces(n - 1) + s;
      TrimLeftPad(n - 1, s);
    } else {
      assert Spaces(0) + s == s;
    }
  }

  lemma {:induction false} TrimRightPad(s: string, n: nat)
    requires s == [] || s[|s| - 1] != ' '
    ensures TrimRight(s + Spaces(n)) == s
  {
    if n > 0 {
      var t := s + Spaces(n);
      assert t[..|t| - 1] == s + Spaces(n - 1);
      TrimRightPad(s, n - 1);
    } else {
      assert s + Spaces(0) == s;
    }
  }

  lemma TrimPad(a: nat, s: string, b: nat)
    requires Tight(s)
    ensures Trim(Spaces(a) + s + Spaces(b)) == s
  {
    if s == [] {
      assert Spaces(a) + s + Spaces(b) == Spaces(a + b) + [];
      TrimLeftPad(a + b, []);
    } else {
      assert Spaces(a) + s + Spaces(b) == Spaces(a) + (s + Spaces(b));
      TrimLeftPad(a, s + Spaces(b));
      TrimRightPad(s, b);
    }
  }

  // ---- Decimal numbers ----

  predicate AllDigits(s: string) {
    forall i :: 0 <= i < |s| ==> '0' <= s[i] <= '9'
  }

  function DigitsValue(s: string): nat
    requires AllDigits(s)
  {
    if s == [] then 0 else 10 * DigitsValue(s[..|s| - 1]) + (s[|s| - 1] as int - '0' as int)
  }

  /** strtoul: saturates at the largest 64-bit number. */
  function Extent(s: string): nat
    requires AllDigits(s)
  {
    Saturated(DigitsValue(s))
  }

  function Saturated(n: nat): nat {
    if n < TWO64 then n else TWO64 - 1
  }

  function Decimal(n: nat): (s: string)
    ensures |s| > 0 && AllDigits(s)
  {
    var last := [(n % 10 + '0' as int) as char];
    if n < 10 then last else Decimal(n / 10) + last
  }

  lemma {:induction false} DecimalValue(n: nat)
    ensures DigitsValue(Decimal(n)) == n
  {
    var s := Decimal(n);
    if n < 10 {
      assert s[..|s| - 1] == [];
    } else {
      DecimalValue(n / 10);
      assert s[..|s| - 1] == Decimal(n / 10);
    }
  }

  /** Leading zeros do not count. */
  lemma LeadingZeros(k: nat, n: nat)
    ensures AllDigits(seq(k, _ => '0') + Decimal(n)) && DigitsValue(seq(k, _ => '0') + Decimal(n)) == n
  {
    DecimalValue(n);
    ZerosBefore(k, Decimal(n));
  }

  lemma {:induction false} ZerosBefore(k: nat, s: string)
    requires AllDigits(s)
    ensures AllDigits(seq(k, _ => '0') + s) && DigitsValue(seq(k, _ => '0') + s) == DigitsValue(s)
    decreases |s|, k
  {
    var zeros := seq(k, _ => '0');
    var t := zeros + s;
    if s != [] {
      assert t[..|t| - 1] == zeros + s[..|s| - 1];
      ZerosBefore(k, s[..|s| - 1]);
    } else if k > 0 {
      assert t[..|t| - 1] == seq(k - 1, _ => '0') + s;
      ZerosBefore(k - 1, s);
    }
  }

  // ---- Elementary types ----

  datatype Elementary = BoolName | AddressName | StringName | BytesName | UintName | IntName | BytesNName

  /** The `k`-th name of a sized family, such as uint8 to uint256. */
  function Sized(prefix: string, unit: nat, k: nat): string {
    prefix + Decimal(unit * k)
  }

  predicate SizedIn(s: string, prefix: string, unit: nat) {
    exists k :: 1 <= k <= 32 && s == Sized(prefix, unit, k)
  }

  /** getEnumType: None stands for INVALID. */
  function KindOf(s: string): Option<Elementary> {
    if s == "bool" then Some(BoolName)
    else if s == "address" then Some(AddressName)
    else if s == "string" then Some(StringName)
    else if s == "bytes" then Some(BytesName)
    else if s == "uint" || SizedIn(s, "uint", 8) then Some(UintName)
    else if s == "int" || SizedIn(s, "int", 8) then Some(IntName)
    else if SizedIn(s, "bytes", 1) then Some(BytesNName)
    else None
  }

  /** The sized families are told apart from each other and from the rest. */
  lemma KindOfSized(k: nat)
    requires 1 <= k <= 32
    ensures KindOf(Sized("uint", 8, k)) == Some(UintName)
    ensures KindOf(Sized("int", 8, k)) == Some(IntName)
    ensures KindOf(Sized("bytes", 1, k)) == Some(BytesNName)
  {
    hide Decimal;
    var u, i, b := Sized("uint", 8, k), Sized("int", 8, k), Sized("bytes", 1, k);
    assert SizedIn(u, "uint", 8) && u[0] == 'u';
    assert SizedIn(i, "int", 8) && i[0] == 'i';
    assert SizedIn(b, "bytes", 1) && b[0] == 'b' && b[1] == 'y' && |b| > 5;
    assert "bool"[0] == 'b' && "bool"[1] == 'o' && "address"[0] == 'a' && "string"[0] == 's' && "bytes"[0] == 'b';
    assert forall j :: Sized("uint", 8, j)[0] == 'u';
    assert forall j :: Sized("int", 8, j)[0] == 'i';
  }

  /** The fixed names, and the two families without a size. */
  lemma KindOfFixed()
    ensures KindOf("bool") == Some(BoolName) && KindOf("address") == Some(AddressName)
    ensures KindOf("string") == Some(StringName) && KindOf("bytes") == Some(BytesName)
    ensures KindOf("uint") == Some(UintName) && KindOf("int") == Some(IntName)
  {
    hide Decimal;
    assert forall j :: Sized("uint", 8, j)[0] == 'u';
    assert "uint"[0] == 'u' && "int"[0] == 'i';
    assert "bool"[0] == 'b' && "address"[0] == 'a' && "string"[0] == 's' && "bytes"[0] == 'b';
    assert "int" != "uint" by { assert |"int"| != |"uint"|; }
    assert |"bool"| == 4 && |"address"| == 7 && |"string"| == 6 && |"bytes"| == 5;
  }

  /** No other name is accepted. */
  lemma KindOfOnly(s: string)
    requires KindOf(s).Some?
    ensures s in {"bool", "address", "string", "bytes", "uint", "int"} ||
            exists k :: 1 <= k <= 32 && s in {Sized("uint", 8, k), Sized("int", 8, k), Sized("bytes", 1, k)}
  {
  }

  ghost predicate Alphanumeric(s: string) {
    forall i :: 0 <= i < |s| ==> '0' <= s[i] <= '9' || 'a' <= s[i] <= 'z'
  }

  lemma NamesAreWords(s: string)
    requires KindOf(s).Some?
    ensures s != [] && Alphanumeric(s) && Tight(s)
  {
    hide Decimal;
  }

  // ---- Types ----

  /** What a successful reset leaves in the object. */
  datatype TypeInfo = TypeInfo(kind: Elementary, name: string, text: string, extents: seq<nat>)

  /** The next bracketed dimension and where it ends; anything but brackets
      may stand before it. */
  function FirstGroup(s: string): (r: Option<(string, nat)>)
    ensures r.Some? ==> AllDigits(r.value.0) && 0 < r.value.1 <= |s|
  {
    var left, right := Find(s, '['), Find(s, ']');
    if left == |s| || right == |s| || left >= right then None
    else
      var digits := Trim(s[left + 1..right]);
      if AllDigits(digits) then Some((digits, right + 1)) else None
  }

  /** The bracket loop on what follows the elementary name. */
  function Scan(s: string): Option<seq<nat>>
    decreases |s|
  {
    if s == [] then Some([])
    else
      var group :- FirstGroup(s);
      var rest :- Scan(s[group.1..]);
      Some([Extent(group.0)] + rest)
  }

  function ParseType(s: string): Option<TypeInfo> {
    var text := Trim(s);
    var left := Find(text, '[');
    var name := Trim(text[..left]);
    var kind :- KindOf(name);
    var extents :- Scan(text[left..]);
    Some(TypeInfo(kind, name, text, extents))
  }

  /** A dimension as it may be written. */
  datatype Group = Group(junk: string, before: nat, digits: string, after: nat) {
    ghost predicate Proper() {
      '[' !in junk && ']' !in junk && AllDigits(digits)
    }

    function Text(): string {
      junk + "[" + Spaces(before) + digits + Spaces(after) + "]"
    }
  }

  ghost predicate AllProper(gs: seq<Group>) {
    forall i :: 0 <= i < |gs| ==> gs[i].Proper()
  }

  function TextOf(gs: seq<Group>): string {
    if gs == [] then [] else gs[0].Text() + TextOf(gs[1..])
  }

  ghost function ExtentsOf(gs: seq<Group>): seq<nat>
    requires AllProper(gs)
  {
    if gs == [] then [] else [Extent(gs[0].digits)] + ExtentsOf(gs[1..])
  }

  lemma DigitsTight(s: string)
    requires AllDigits(s)
    ensures Tight(s)
  {
  }

  lemma FindIs(s: string, c: char, k: nat)
    requires k < |s| && s[k] == c && forall i :: 0 <= i < k ==> s[i] != c
    ensures Find(s, c) == k
  {
  }

  /** One group is read off the front. */
  lemma ScanGroup(g: Group, rest: string)
    requires g.Proper()
    ensures FirstGroup(g.Text() + rest) == Some((g.digits, |g.Text()|)) && (g.Text() + rest)[|g.Text()|..] == rest
  {
    hide Trim, AllDigits, Find;
    var inner := Spaces(g.before) + g.digits + Spaces(g.after);
    var s := g.Text() + rest;
    var left, right := |g.junk|, |g.junk| + 1 + |inner|;
    assert s == g.junk + ("[" + inner + "]" + rest);
    assert s[left] == '[' && s[right] == ']' && s[left + 1..right] == inner;
    GroupBrackets(g, s);
    FindIs(s, '[', left);
    FindIs(s, ']', right);
    DigitsTight(g.digits);
    TrimPad(g.before, g.digits, g.after);
  }

  lemma GroupBrackets(g: Group, s: string)
    requires g.Proper() && g.Text() <= s
    ensures forall i :: 0 <= i < |g.junk| ==> s[i] != '['
    ensures forall i :: 0 <= i < |g.Text()| - 1 ==> s[i] != ']'
  {
    var a, b := |g.junk| + 1, |g.junk| + 1 + g.before;
    forall i | 0 <= i < |g.Text()| - 1
      ensures s[i] != ']' && (i < |g.junk| ==> s[i] != '[')
    {
      assert s[i] == g.Text()[i];
      if i < |g.junk| {
        assert s[i] == g.junk[i];
      } else if a <= i < b {
        assert s[i] == Spaces(g.before)[i - a];
      } else if b <= i < b + |g.digits| {
        assert s[i] == g.digits[i - b];
      } else if b + |g.digits| <= i {
        assert s[i] == Spaces(g.after)[i - b - |g.digits|];
      }
    }
  }

  lemma {:induction false} ScanWritten(gs: seq<Group>)
    requires AllProper(gs)
    ensures Scan(TextOf(gs)) == Some(ExtentsOf(gs))
  {
    if gs != [] {
      hide FirstGroup, Extent, Group.Text;
      ScanWritten(gs[1..]);
      ScanGroup(gs[0], TextOf(gs[1..]));
    }
  }

  lemma ScanReadsGroup(s: string) returns (g: Group, rest: string)
    requires FirstGroup(s).Some?
    ensures g.Proper() && s == g.Text() + rest
  {
    hide Trim, Find;
    var left, right := Find(s, '['), Find(s, ']');
    var inner := s[left + 1..right];
    var a, b := TrimSplit(inner);
    g, rest := Group(s[..left], a, Trim(inner), b), s[right + 1..];
    assert g.Text() == s[..left] + "[" + inner + "]";
    assert s == s[..left] + "[" + inner + "]" + rest;
  }

  lemma {:induction false} ScanReads(s: string) returns (gs: seq<Group>)
    requires Scan(s).Some?
    ensures AllProper(gs) && TextOf(gs) == s && Some(ExtentsOf(gs)) == Scan(s)
    decreases |s|
  {
    if s == [] {
      gs := [];
    } else {
      hide FirstGroup, Extent, Group.Text;
      var g, rest := ScanReadsGroup(s);
      ScanGroup(g, rest);
      var more := ScanReads(rest);
      gs := [g] + more;
    }
  }

  /** A type as it may be written: the first bracket directly ends the name. */
  ghost predicate Writable(name: string, gs: seq<Group>) {
    KindOf(name).Some? && AllProper(gs) && (gs != [] ==> gs[0].junk == [])
  }

  ghost function Core(name: string, b: nat, gs: seq<Group>): string {
    if gs == [] then name else name + Spaces(b) + TextOf(gs)
  }

  lemma LastOfText(gs: seq<Group>)
    requires gs != []
    ensures TextOf(gs) != [] && TextOf(gs)[|TextOf(gs)| - 1] == ']'
  {
    if |gs| > 1 {
      LastOfText(gs[1..]);
    }
  }

  lemma FirstOfText(gs: seq<Group>)
    requires gs != [] && AllProper(gs)
    ensures TextOf(gs) != [] && (TextOf(gs)[0] == '[' <==> gs[0].junk == [])
  {
    var junk := gs[0].junk;
    assert junk != [] ==> TextOf(gs)[0] == junk[0] && junk[0] in junk;
  }

  lemma CoreTight(name: string, b: nat, gs: seq<Group>)
    requires Writable(name, gs)
    ensures Tight(Core(name, b, gs))
  {
    hide KindOf, TextOf, Group.Text;
    NamesAreWords(name);
    if gs != [] {
      LastOfText(gs);
      var s := Core(name, b, gs);
      assert s[0] == name[0] && s[|s| - 1] == TextOf(gs)[|TextOf(gs)| - 1];
    }
  }

  lemma NameEnds(name: string, b: nat, gs: seq<Group>)
    requires Writable(name, gs)
    ensures var s := Core(name, b, gs);
            var left := Find(s, '[');
            Trim(s[..left]) == name && s[left..] == TextOf(gs)
  {
    hide KindOf, Trim, TextOf, Group.Text, Tight;
    NamesAreWords(name);
    var s, tail := Core(name, b, gs), TextOf(gs);
    if gs == [] {
      assert TextOf(gs) == [] by { TextOfNone(); }
      assert Find(s, '[') == |s|;
      assert s[..|s|] == Spaces(0) + name + Spaces(0);
      TrimPad(0, name, 0);
    } else {
      FirstOfText(gs);
      var left := |name| + b;
      assert s[..left] == name + Spaces(b) && s[left..] == tail && s[left] == tail[0];
      forall i | 0 <= i < left
        ensures s[i] != '['
      {
        assert s[i] == if i < |name| then name[i] else Spaces(b)[i - |name|];
      }
      FindIs(s, '[', left);
      assert name + Spaces(b) == Spaces(0) + name + Spaces(b);
      TrimPad(0, name, b);
    }
  }

  lemma TextOfNone()
    ensures TextOf([]) == []
  {
  }

  /** Every writing of a type is accepted, and read as what was written. */
  lemma TypeWritten(a: nat, name: string, b: nat, gs: seq<Group>, c: nat)
    requires Writable(name, gs)
    ensures ParseType(Spaces(a) + Core(name, b, gs) + Spaces(c)) ==
            Some(TypeInfo(KindOf(name).value, name, Core(name, b, gs), ExtentsOf(gs)))
  {
    hide KindOf, Trim, TextOf, Scan, ExtentsOf, Core, Tight, Spaces;
    CoreTight(name, b, gs);
    TrimPad(a, Core(name, b, gs), c);
    NameEnds(name, b, gs);
    ScanWritten(gs);
  }

  /** Every text accepted is a writing of a type, of the one returned. */
  lemma TypeRead(s: string) returns (a: nat, b: nat, gs: seq<Group>, c: nat)
    requires ParseType(s).Some?
    ensures var t := ParseType(s).value;
            && Writable(t.name, gs) && t.kind == KindOf(t.name).value
            && s == Spaces(a) + t.text + Spaces(c)
            && t.text == Core(t.name, b, gs) && t.extents == ExtentsOf(gs)
  {
    hide KindOf, Trim, TextOf, Scan, ExtentsOf, Group.Text;
    var t := ParseType(s).value;
    a, c := TrimSplit(s);
    NamesAreWords(t.name);
    var left := Find(t.text, '[');
    gs := ScanReads(t.text[left..]);
    var front, back := TrimSplit(t.text[..left]);
    b := back;
    assert t.text == t.text[..left] + t.text[left..];
    NameFirst(t.text, t.text[..left], front, t.name, b);
    if gs == [] {
      TextOfNone();
      assert t.text == t.text[..left];
      NameLast(t.text, t.name, b);
    } else {
      FirstOfText(gs);
      assert t.text[left..][0] == t.text[left];
    }
  }

  lemma NameFirst(text: string, head: string, front: nat, name: string, b: nat)
    requires Tight(text) && head <= text && head == Spaces(front) + name + Spaces(b) && name != []
    ensures head == name + Spaces(b)
  {
    assert front == 0;
    assert Spaces(0) + name == name;
  }

  lemma NameLast(text: string, name: string, b: nat)
    requires Tight(text) && text == name + Spaces(b) && name != []
    ensures text == name
  {
    assert b == 0;
  }

  // ---- Printing a type ----

  function Dimension(e: nat): Group {
    Group([], 0, if e == 0 then [] else Decimal(e), 0)
  }

  function Dimensions(es: seq<nat>): (gs: seq<Group>)
    ensures |gs| == |es| && forall i :: 0 <= i < |gs| ==> gs[i] == Dimension(es[i])
  {
    if es == [] then [] else [Dimension(es[0])] + Dimensions(es[1..])
  }

  /** The usual writing: no space, [] for a dynamic dimension. */
  function Print(name: string, es: seq<nat>): string {
    name + TextOf(Dimensions(es))
  }

  lemma {:induction false} PrintedExtents(es: seq<nat>)
    ensures AllProper(Dimensions(es))
    ensures |ExtentsOf(Dimensions(es))| == |es|
    ensures forall i :: 0 <= i < |es| ==> ExtentsOf(Dimensions(es))[i] == Saturated(es[i])
  {
    if es != [] {
      PrintedExtents(es[1..]);
      if es[0] > 0 {
        DecimalValue(es[0]);
      }
    }
  }

  /** Printing and parsing gives back name, rank and extents; an extent comes
      back exactly when it is a 64-bit number. */
  lemma PrintParse(name: string, es: seq<nat>)
    requires KindOf(name).Some?
    ensures var r := ParseType(Print(name, es));
            && r.Some? && r.value.kind == KindOf(name).value && r.value.name == name
            && r.value.text == Print(name, es) && |r.value.extents| == |es|
            && (forall i :: 0 <= i < |es| ==> r.value.extents[i] == Saturated(es[i]))
            && (r.value.extents == es <==> forall i :: 0 <= i < |es| ==> es[i] < TWO64)
  {
    hide KindOf, ParseType, TextOf, ExtentsOf;
    var gs := Dimensions(es);
    PrintedExtents(es);
    TypeWritten(0, name, 0, gs, 0);
    var core := Core(name, 0, gs);
    assert Spaces(0) + core + Spaces(0) == core;
    assert core == Print(name, es) by {
      assert name + Spaces(0) == name && name + [] == name;
      TextOfNone();
    }
    var r := ParseType(core).value.extents;
    if r == es {
      forall i | 0 <= i < |es|
        ensures es[i] < TWO64
      {
        assert r[i] == Saturated(es[i]);
      }
    }
  }

  // ---- Dynamic types ----

  function ElementType(kind: Elementary): AbiType {
    match kind
    case BoolName => Bool
    case AddressName => Address
    case StringName => Str
    case BytesName => DynBytes
    case UintName => Uint
    case IntName => Int
    case BytesNName => Bytes32
  }

  /** The codec's type that a name and its dimensions stand for; the last
      dimension is the outermost. */
  function TypeOf(kind: Elementary, es: seq<nat>): AbiType
    decreases |es|
  {
    if es == [] then ElementType(kind)
    else
      var last, inner := es[|es| - 1], TypeOf(kind, es[..|es| - 1]);
      if last == 0 then Vector(inner) else Fixed(inner, last)
  }

  ghost predicate DynamicIn(kind: Elementary, es: seq<nat>) {
    kind == StringName || kind == BytesName || 0 in es
  }

  /** The parser's test for dynamic types is the codec's. */
  lemma {:induction false} DynamicIff(kind: Elementary, es: seq<nat>)
    ensures DynamicIn(kind, es) <==> IsDynamic(TypeOf(kind, es))
    decreases |es|
  {
    if es != [] {
      var front := es[..|es| - 1];
      DynamicIff(kind, front);
      assert es == front + [es[|es| - 1]];
    }
  }

  // ---- Signatures ----

  /** boost::split on commas. */
  function Split(s: string): (parts: seq<string>)
    ensures |parts| > 0
    decreases |s|
  {
    var i := Find(s, ',');
    if i == |s| then [s] else [s[..i]] + Split(s[i + 1..])
  }

  /** Trimmed, without the empty ones. */
  function Cleaned(parts: seq<string>): seq<string> {
    if parts == [] then []
    else (if Trim(parts[0]) == [] then [] else [Trim(parts[0])]) + Cleaned(parts[1..])
  }

  function ParseTypes(texts: seq<string>): Option<seq<TypeInfo>> {
    if texts == [] then Some([])
    else
      var t :- ParseType(texts[0]);
      var ts :- ParseTypes(texts[1..]);
      Some([t] + ts)
  }

  function Commas(texts: seq<string>): string {
    if texts == [] then [] else texts[0] + "," + Commas(texts[1..])
  }

  /** The parameters each with a comma, the last comma turned into the closing
      parenthesis. */
  function Signature(name: string, texts: seq<string>): string {
    var s := name + "(" + Commas(texts);
    if texts == [] then s + ")" else s[..|s| - 1] + ")"
  }

  datatype FunctionInfo = FunctionInfo(name: string, signature: string, params: seq<TypeInfo>)

  /** ABIFunc::parser on a fresh object. */
  function ParseFunction(sig: string): Option<FunctionInfo> {
    var i0, i1 := Find(sig, '('), Find(sig, ')');
    if i0 == |sig| || i1 == |sig| || i1 <= i0 then None
    else
      var name := Trim(sig[..i0]);
      var texts := Cleaned(Split(sig[i0 + 1..i1]));
      var params :- ParseTypes(texts);
      Some(FunctionInfo(name, Signature(name, texts), params))
  }

  /** What a parameter's text is like, once it is between commas and trimmed. */
  ghost predicate Clean(texts: seq<string>) {
    forall i :: 0 <= i < |texts| ==>
      texts[i] != [] && Tight(texts[i]) && ',' !in texts[i] && ')' !in texts[i]
  }

  lemma TrimWithin(s: string, c: char)
    requires c !in s
    ensures c !in Trim(s) && Tight(Trim(s))
  {
    var a, b := TrimSplit(s);
    forall i | 0 <= i < |Trim(s)|
      ensures Trim(s)[i] != c
    {
      assert Trim(s)[i] == s[a + i];
    }
  }

  lemma {:induction false} SplitClean(s: string)
    requires ')' !in s
    ensures Clean(Cleaned(Split(s)))
    decreases |s|
  {
    hide Trim, Tight;
    var i := Find(s, ',');
    var first := s[..i];
    TrimWithin(first, ',');
    TrimWithin(first, ')');
    if i < |s| {
      SplitClean(s[i + 1..]);
      assert Split(s)[1..] == Split(s[i + 1..]);
    } else {
      assert first == s && Split(s)[1..] == [];
    }
  }

  /** Splitting what was joined. */
  ghost function Joined(texts: seq<string>): string {
    var s := Commas(texts);
    if texts == [] then s else s[..|s| - 1]
  }

  lemma JoinedStep(texts: seq<string>)
    requires |texts| > 1
    ensures Joined(texts) == texts[0] + "," + Joined(texts[1..])
  {
    assert texts[1..] != [];
  }

  lemma TrimTight(s: string)
    requires Tight(s)
    ensures Trim(s) == s
  {
    assert s == Spaces(0) + s + Spaces(0);
    TrimPad(0, s, 0);
  }

  lemma SplitAtComma(first: string, rest: string)
    requires ',' !in first
    ensures Split(first + "," + rest) == [first] + Split(rest)
  {
    var s := first + "," + rest;
    assert s[|first|] == ',' && s[..|first|] == first && s[|first| + 1..] == rest;
    assert forall i :: 0 <= i < |first| ==> s[i] == first[i];
    FindIs(s, ',', |first|);
  }

  lemma CleanedStep(first: string, parts: seq<string>)
    requires first != [] && Tight(first)
    ensures Cleaned([first] + parts) == [first] + Cleaned(parts)
  {
    hide Trim;
    TrimTight(first);
    assert ([first] + parts)[1..] == parts;
  }

  lemma {:induction false} SplitJoined(texts: seq<string>)
    requires Clean(texts)
    ensures Cleaned(Split(Joined(texts))) == texts
  {
    hide Tight, Split, Cleaned, Commas;
    if texts == [] {
      CleanedNone();
    } else {
      var first := texts[0];
      if |texts| == 1 {
        CleanedOne(first);
        JoinedOne(first);
        assert texts == [first];
      } else {
        JoinedStep(texts);
        SplitAtComma(first, Joined(texts[1..]));
        CleanedStep(first, Split(Joined(texts[1..])));
        SplitJoined(texts[1..]);
      }
    }
  }

  lemma CleanedNone()
    ensures Cleaned(Split(Joined([]))) == []
  {
    assert Split([])[1..] == [];
  }

  lemma JoinedOne(text: string)
    ensures Joined([text]) == text
  {
    assert Commas([text][1..]) == [];
  }

  lemma CleanedOne(text: string)
    requires text != [] && Tight(text) && ',' !in text
    ensures Cleaned(Split(text)) == [text]
  {
    hide Trim;
    assert Split(text) == [text] + [];
    CleanedStep(text, []);
  }

  lemma {:induction false} JoinedWithin(texts: seq<string>)
    requires Clean(texts)
    ensures ')' !in Joined(texts)
  {
    if |texts| == 1 {
      assert Joined(texts) == texts[0];
    } else if |texts| > 1 {
      JoinedStep(texts);
      JoinedWithin(texts[1..]);
    }
  }

  /** A signature put together from a name and parameters parses as these. */
  lemma ParseSignature(name: string, texts: seq<string>)
    requires Tight(name) && '(' !in name && ')' !in name && Clean(texts)
    ensures ParseFunction(Signature(name, texts)) ==
            var params := ParseTypes(texts);
            if params.None? then None else Some(FunctionInfo(name, Signature(name, texts), params.value))
  {
    hide Trim, Tight, ParseTypes, Split, Cleaned, Commas, Clean;
    var sig, inner := Signature(name, texts), Joined(texts);
    var close := |name| + 1 + |inner|;
    assert sig == name + "(" + inner + ")" by { SignatureJoined(name, texts); }
    assert sig[|name|] == '(' && sig[..|name|] == name;
    assert sig[close] == ')' && sig[|name| + 1..close] == inner;
    JoinedWithin(texts);
    forall i | 0 <= i < close
      ensures sig[i] != ')' && (i < |name| ==> sig[i] != '(')
    {
      if i < |name| {
        assert sig[i] == name[i];
      } else if i > |name| {
        assert sig[i] == inner[i - |name| - 1];
      }
    }
    FindIs(sig, '(', |name|);
    FindIs(sig, ')', close);
    TrimTight(name);
    SplitJoined(texts);
  }

  lemma SignatureJoined(name: string, texts: seq<string>)
    ensures Signature(name, texts) == name + "(" + Joined(texts) + ")"
  {
    if texts != [] {
      var s := name + "(" + Commas(texts);
      assert s[..|s| - 1] == name + "(" + Commas(texts)[..|Commas(texts)| - 1];
    }
  }

  /** The normalised signature is a fixed point: a fresh parser gives the same
      name, the same signature and the same parameters. */
  lemma SignatureFixedPoint(sig: string)
    requires ParseFunction(sig).Some?
    ensures ParseFunction(ParseFunction(sig).value.signature) == ParseFunction(sig)
  {
    hide Trim, ParseTypes, Split, Cleaned, Signature;
    var i0, i1 := Find(sig, '('), Find(sig, ')');
    TrimWithin(sig[..i0], '(');
    TrimWithin(sig[..i0], ')');
    SplitClean(sig[i0 + 1..i1]);
    ParseSignature(Trim(sig[..i0]), Cleaned(Split(sig[i0 + 1..i1])));
  }

  /** So the normalised signature, which the selector hashes, stands for one
      name and one list of parameters. */
  lemma SignatureDetermines(sig: string, other: string)
    requires ParseFunction(sig).Some? && ParseFunction(other).Some?
    requires ParseFunction(sig).value.signature == ParseFunction(other).value.signature
    ensures ParseFunction(sig) == ParseFunction(other)
  {
    hide ParseFunction;
    SignatureFixedPoint(sig);
    SignatureFixedPoint(other);
  }
}
