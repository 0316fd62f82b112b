/** The lexical depth pre-scan of `_strict_json`, judged against the grammar of RFC 8259. */
module JsonScan {
  import opened Outcomes

  // ----- the scanner -----

  /** The loop variables `depth`, `quoted` and `escaped`. */
  datatype Scan = Scan(depth: int, quoted: bool, escaped: bool)

  const MAX_DEPTH := 64

  function Next(s: Scan, c: char): Scan {
    if s.quoted then
      if s.escaped then s.(escaped := false)
      else if c == '\\' then s.(escaped := true)
      else if c == '"' then s.(quoted := false)
      else s
    else if c == '"' then s.(quoted := true)
    else if c == '[' || c == '{' then s.(depth := s.depth + 1)
    else if c == ']' || c == '}' then s.(depth := s.depth - 1)
    else s
  }

  predicate Opens(s: Scan, c: char) {
    !s.quoted && (c == '[' || c == '{')
  }

  /** The scan with its nesting limit. */
  function ScanText(s: Scan, text: string): Outcome<Scan>
    decreases text
  {
    if text == "" then Accepted(s)
    else
      var s' := Next(s, text[0]);
      if Opens(s, text[0]) && s'.depth > MAX_DEPTH then Denied else ScanText(s', text[1..])
  }

  const START := Scan(0, false, false)

  /** The pre-scan loop. */
  method PreScan(text: string) returns (r: Outcome<Scan>)
    ensures r == ScanText(START, text)
  {
    var depth, quoted, escaped := 0, false, false;
    assert text[0..] == text;
    for i := 0 to |text|
      invariant ScanText(START, text) == ScanText(Scan(depth, quoted, escaped), text[i..])
    {
      var c := text[i];
      assert text[i..][1..] == text[i + 1..];
      if quoted {
        if escaped {
          escaped := false;
        } else if c == '\\' {
          escaped := true;
        } else if c == '"' {
          quoted := false;
        }
      } else if c == '"' {
        quoted := true;
      } else if c == '[' || c == '{' {
        depth := depth + 1;
        if depth > MAX_DEPTH {
          return Denied;
        }
      } else if c == ']' || c == '}' {
        depth := depth - 1;
      }
    }
    return Accepted(Scan(depth, quoted, escaped));
  }

  /** `_strict_json`: the byte bound, the decoder, the pre-scan and the parser, in that order. */
  function StrictJson<J>(raw: seq<char>, decode: seq<char> -> Outcome<string>, loads: string -> Outcome<J>): Outcome<J>
  {
    if raw == [] || |raw| > 16 * 1024 * 1024 then Denied
    else
      var text :- decode(raw);
      var scan :- ScanText(START, text);
      loads(text)
  }

  // ----- the grammar of RFC 8259 -----

  /** Section 7: one character of a string, unescaped, escaped by letter, or by four hex digits. */
  datatype Piece = Plain(c: char) | Escaped(c: char) | Unicode(hex: string)

  /** Section 6. */
  datatype Number = Number(minus: bool, digits: string, fraction: Option<string>, exponent: Option<Exponent>)
  datatype Exponent = Exponent(e: char, sign: string, digits: string)

  datatype Bracket = Array | Object

  /** Sections 3-5: a value in one concrete spelling.  Arrays and objects share a shape; their elements are
      given a member name exactly in objects. */
  datatype Value =
    | Word(text: string)
    | Num(number: Number)
    | Str(pieces: seq<Piece>)
    | Empty(bracket: Bracket, ws: string)
    | Container(bracket: Bracket, items: Items)
  datatype Items = One(e: Element) | More(e: Element, rest: Items)
  datatype Element = Element(member: Option<MemberName>, before: string, value: Value, after: string)
  datatype MemberName = MemberName(before: string, name: seq<Piece>, after: string)

  predicate Ws(s: string) {
    forall i :: 0 <= i < |s| ==> s[i] in {' ', '\t', '\n', '\r'}
  }

  predicate Digits(s: string) {
    s != "" && forall i :: 0 <= i < |s| ==> '0' <= s[i] <= '9'
  }

  predicate ValidPiece(p: Piece) {
    match p
    case Plain(c) => c >= ' ' && c != '"' && c != '\\'
    case Escaped(c) => c in {'"', '\\', '/', 'b', 'f', 'n', 'r', 't'}
    case Unicode(hex) => |hex| == 4 && forall i :: 0 <= i < 4 ==>
        '0' <= hex[i] <= '9' || 'a' <= hex[i] <= 'f' || 'A' <= hex[i] <= 'F'
  }

  ghost predicate ValidPieces(ps: seq<Piece>) {
    forall i :: 0 <= i < |ps| ==> ValidPiece(ps[i])
  }

  predicate ValidNumber(n: Number) {
    && Digits(n.digits) && (n.digits[0] == '0' ==> |n.digits| == 1)
    && (n.fraction.Some? ==> Digits(n.fraction.value))
    && (n.exponent.Some? ==>
          var e := n.exponent.value;
          e.e in {'e', 'E'} && e.sign in {"", "+", "-"} && Digits(e.digits))
  }

  ghost predicate ValidValue(v: Value)
    decreases v
  {
    match v
    case Word(text) => text in {"null", "true", "false"}
    case Num(n) => ValidNumber(n)
    case Str(ps) => ValidPieces(ps)
    case Empty(_, ws) => Ws(ws)
    case Container(bracket, items) => ValidItems(bracket, items)
  }

  ghost predicate ValidItems(bracket: Bracket, items: Items)
    decreases items
  {
    && ValidElement(items.e)
    && (items.e.member.Some? <==> bracket.Object?)
    && (items.More? ==> ValidItems(bracket, items.rest))
  }

  ghost predicate ValidElement(e: Element)
    decreases e
  {
    && Ws(e.before) && ValidValue(e.value) && Ws(e.after)
    && (e.member.Some? ==> Ws(e.member.value.before) && ValidPieces(e.member.value.name) && Ws(e.member.value.after))
  }

  /** Section 2: a JSON text is a value between whitespace. */
  ghost predicate JsonText(e: Element) {
    ValidElement(e) && e.member.None?
  }

  // ----- spelling -----

  function PieceText(p: Piece): string {
    match p
    case Plain(c) => [c]
    case Escaped(c) => ['\\', c]
    case Unicode(hex) => "\\u" + hex
  }

  function PiecesText(ps: seq<Piece>): string {
    if ps == [] then "" else PieceText(ps[0]) + PiecesText(ps[1..])
  }

  function StringText(ps: seq<Piece>): string {
    "\"" + (PiecesText(ps) + "\"")
  }

  function NumberText(n: Number): string {
    (if n.minus then "-" else "") + n.digits
    + (if n.fraction.Some? then "." + n.fraction.value else "")
    + (if n.exponent.Some? then [n.exponent.value.e] + n.exponent.value.sign + n.exponent.value.digits else "")
  }

  function Open(b: Bracket): string {
    if b.Array? then "[" else "{"
  }

  function Close(b: Bracket): string {
    if b.Array? then "]" else "}"
  }

  function ValueText(v: Value): string {
    match v
    case Word(text) => text
    case Num(n) => NumberText(n)
    case Str(ps) => StringText(ps)
    case Empty(b, ws) => Open(b) + (ws + Close(b))
    case Container(b, items) => Open(b) + (ItemsText(items) + Close(b))
  }

  function ItemsText(items: Items): string {
    match items
    case One(e) => ElementText(e)
    case More(e, rest) => ElementText(e) + ("," + ItemsText(rest))
  }

  function MemberText(m: MemberName): string {
    m.before + StringText(m.name) + m.after + ":"
  }

  /** Everything before the value: a member name with its colon, and whitespace. */
  function Lead(e: Element): string {
    (if e.member.Some? then MemberText(e.member.value) else "") + e.before
  }

  function ElementText(e: Element): string {
    Lead(e) + (ValueText(e.value) + e.after)
  }

  // ----- structural nesting -----

  function Nesting(v: Value): nat {
    match v
    case Empty(_, _) => 1
    case Container(_, items) => 1 + ItemsNesting(items)
    case _ => 0
  }

  function ItemsNesting(items: Items): nat {
    match items
    case One(e) => Nesting(e.value)
    case More(e, rest) => Max(Nesting(e.value), ItemsNesting(rest))
  }

  function Max(a: int, b: int): int {
    if a < b then b else a
  }

  /** How many containers of the spelling are open after its first `i` characters. */
  function OpenInValue(v: Value, i: nat): nat
    decreases v
  {
    if i == 0 || i >= |ValueText(v)| then 0
    else
      match v
      case Empty(_, _) => 1
      case Container(_, items) => 1 + OpenInItems(items, i - 1)
      case _ => 0
  }

  function OpenInItems(items: Items, i: nat): nat
    decreases items
  {
    match items
    case One(e) => OpenInElement(e, i)
    case More(e, rest) =>
      if i <= |ElementText(e)| then OpenInElement(e, i) else OpenInItems(rest, i - |ElementText(e)| - 1)
  }

  function OpenInElement(e: Element, i: nat): nat
    decreases e
  {
    if i <= |Lead(e)| then 0 else OpenInValue(e.value, i - |Lead(e)|)
  }

  // ----- scanning without the limit -----

  function Walk(s: Scan, text: string): Scan
    decreases text
  {
    if text == "" then s else Walk(Next(s, text[0]), text[1..])
  }

  /** The greatest depth reached, the starting depth included. */
  function Peak(s: Scan, text: string): int
    decreases text
  {
    if text == "" then s.depth else Max(s.depth, Peak(Next(s, text[0]), text[1..]))
  }

  lemma {:induction false} LimitIsPeak(s: Scan, text: string)
    requires s.depth <= MAX_DEPTH
    ensures ScanText(s, text) == if Peak(s, text) <= MAX_DEPTH then Accepted(Walk(s, text)) else Denied
    decreases text
  {
    if text != "" {
      var s' := Next(s, text[0]);
      if s'.depth <= MAX_DEPTH {
        LimitIsPeak(s', text[1..]);
      } else {
        PeakAtLeast(s', text[1..]);
      }
    }
  }

  lemma {:induction false} PeakAtLeast(s: Scan, text: string)
    ensures Peak(s, text) >= s.depth && Peak(s, text) >= Walk(s, text).depth
    decreases text
  {
    if text != "" {
      PeakAtLeast(Next(s, text[0]), text[1..]);
    }
  }

  lemma {:induction false} WalkAppend(s: Scan, a: string, b: string)
    ensures Walk(s, a + b) == Walk(Walk(s, a), b)
    ensures Peak(s, a + b) == Max(Peak(s, a), Peak(Walk(s, a), b))
    decreases a
  {
    if a == "" {
      assert a + b == b;
      PeakAtLeast(s, b);
    } else {
      assert (a + b)[1..] == a[1..] + b;
      WalkAppend(Next(s, a[0]), a[1..], b);
    }
  }

  function At(d: int): Scan {
    Scan(d, false, false)
  }

  /** A text that returns the scanner to where it was, reaching `d + n` on the way. */
  ghost predicate Balanced(text: string, n: nat) {
    forall d: int {:trigger At(d)} :: Walk(At(d), text) == At(d) && Peak(At(d), text) == d + n
  }

  predicate Inert(text: string) {
    forall i :: 0 <= i < |text| ==> text[i] !in {'"', '[', ']', '{', '}'}
  }

  lemma {:induction false} InertWalk(d: int, text: string)
    requires Inert(text)
    ensures Walk(At(d), text) == At(d) && Peak(At(d), text) == d
  {
    if text != "" {
      assert text[0] !in {'"', '[', ']', '{', '}'};
      assert Inert(text[1..]) by {
        forall i | 0 <= i < |text[1..]| ensures text[1..][i] !in {'"', '[', ']', '{', '}'} {
          assert text[1..][i] == text[i + 1];
        }
      }
      InertWalk(d, text[1..]);
    }
  }

  lemma InertIsBalanced(text: string)
    requires Inert(text)
    ensures Balanced(text, 0)
  {
    forall d: int ensures Walk(At(d), text) == At(d) && Peak(At(d), text) == d {
      InertWalk(d, text);
    }
  }

  lemma NumberIsInert(n: Number)
    requires ValidNumber(n)
    ensures Inert(NumberText(n))
  {
    DigitsAreInert(n.digits);
    var sign := if n.minus then "-" else "";
    var head := sign + n.digits;
    InertAppend(sign, n.digits);
    var fraction := if n.fraction.Some? then "." + n.fraction.value else "";
    if n.fraction.Some? {
      DigitsAreInert(n.fraction.value);
      InertAppend(".", n.fraction.value);
    }
    InertAppend(head, fraction);
    if n.exponent.Some? {
      var e := n.exponent.value;
      DigitsAreInert(e.digits);
      InertAppend([e.e], e.sign);
      InertAppend([e.e] + e.sign, e.digits);
      InertAppend(head + fraction, [e.e] + e.sign + e.digits);
    } else {
      InertAppend(head + fraction, "");
    }
  }

  lemma InertAppend(a: string, b: string)
    requires Inert(a) && Inert(b)
    ensures Inert(a + b)
  {
  }

  lemma DigitsAreInert(s: string)
    requires Digits(s)
    ensures Inert(s)
  {
  }

  // ----- strings -----

  function Inside(d: int): Scan {
    Scan(d, true, false)
  }

  lemma PieceWalk(d: int, p: Piece)
    requires ValidPiece(p)
    ensures Walk(Inside(d), PieceText(p)) == Inside(d) && Peak(Inside(d), PieceText(p)) == d
  {
    var text := PieceText(p);
    match p
    case Plain(c) =>
      assert text[1..] == "";
    case Escaped(c) =>
      assert text[1..] == [c] && text[1..][1..] == "";
    case Unicode(hex) =>
      assert text == ['\\', 'u'] + hex && text[1..] == ['u'] + hex && text[1..][1..] == hex;
      HexWalk(d, hex);
  }

  lemma {:induction false} HexWalk(d: int, s: string)
    requires forall i :: 0 <= i < |s| ==> s[i] != '\\' && s[i] != '"'
    ensures Walk(Inside(d), s) == Inside(d) && Peak(Inside(d), s) == d
  {
    if s != "" {
      HexWalk(d, s[1..]);
    }
  }

  lemma {:induction false} PiecesWalk(d: int, ps: seq<Piece>)
    requires ValidPieces(ps)
    ensures Walk(Inside(d), PiecesText(ps)) == Inside(d) && Peak(Inside(d), PiecesText(ps)) == d
  {
    if ps != [] {
      PieceWalk(d, ps[0]);
      PiecesWalk(d, ps[1..]);
      WalkAppend(Inside(d), PieceText(ps[0]), PiecesText(ps[1..]));
    }
  }

  /** A string returns the scanner to its state, whatever brackets, quotes and backslashes it spells. */
  lemma StringIsBalanced(ps: seq<Piece>)
    requires ValidPieces(ps)
    ensures Balanced(StringText(ps), 0)
  {
    forall d: int ensures Walk(At(d), StringText(ps)) == At(d) && Peak(At(d), StringText(ps)) == d {
      PiecesWalk(d, ps);
      WalkAppend(Inside(d), PiecesText(ps), "\"");
      assert StringText(ps)[1..] == PiecesText(ps) + "\"";
    }
  }

  // ----- values -----

  lemma BalancedAppend(a: string, m: nat, b: string, n: nat)
    requires Balanced(a, m) && Balanced(b, n)
    ensures Balanced(a + b, Max(m, n))
  {
    forall d: int ensures Walk(At(d), a + b) == At(d) && Peak(At(d), a + b) == d + Max(m, n) {
      WalkAppend(At(d), a, b);
    }
  }

  lemma BracketedIsBalanced(b: Bracket, inner: string, n: nat)
    requires Balanced(inner, n)
    ensures Balanced(Open(b) + (inner + Close(b)), n + 1)
  {
    var text := Open(b) + (inner + Close(b));
    forall d: int ensures Walk(At(d), text) == At(d) && Peak(At(d), text) == d + n + 1 {
      assert text[1..] == inner + Close(b);
      assert Next(At(d), text[0]) == At(d + 1);
      WalkAppend(At(d + 1), inner, Close(b));
      assert Close(b)[1..] == "";
    }
  }

  lemma LeadIsBalanced(e: Element)
    requires ValidElement(e)
    ensures Balanced(Lead(e), 0)
  {
    InertIsBalanced(e.before);
    if e.member.Some? {
      var l := e.member.value;
      InertIsBalanced(l.before);
      StringIsBalanced(l.name);
      BalancedAppend(l.before, 0, StringText(l.name), 0);
      InertIsBalanced(l.after);
      BalancedAppend(l.before + StringText(l.name), 0, l.after, 0);
      InertIsBalanced(":");
      BalancedAppend(l.before + StringText(l.name) + l.after, 0, ":", 0);
      BalancedAppend(l.before + StringText(l.name) + l.after + ":", 0, e.before, 0);
    } else {
      assert "" + e.before == e.before;
    }
  }

  /** Scanning a value returns to the starting state and peaks at its structural nesting. */
  lemma {:induction false} ValueIsBalanced(v: Value)
    requires ValidValue(v)
    ensures Balanced(ValueText(v), Nesting(v))
    decreases v
  {
    match v
    case Word(text) => InertIsBalanced(text);
    case Num(n) => NumberIsInert(n); InertIsBalanced(NumberText(n));
    case Str(ps) => StringIsBalanced(ps);
    case Empty(b, ws) => InertIsBalanced(ws); BracketedIsBalanced(b, ws, 0);
    case Container(b, items) =>
      ItemsAreBalanced(b, items);
      BracketedIsBalanced(b, ItemsText(items), ItemsNesting(items));
  }

  lemma {:induction false} ItemsAreBalanced(b: Bracket, items: Items)
    requires ValidItems(b, items)
    ensures Balanced(ItemsText(items), ItemsNesting(items))
    decreases items
  {
    ElementIsBalanced(items.e);
    if items.More? {
      ItemsAreBalanced(b, items.rest);
      InertIsBalanced(",");
      BalancedAppend(",", 0, ItemsText(items.rest), ItemsNesting(items.rest));
      BalancedAppend(ElementText(items.e), Nesting(items.e.value), "," + ItemsText(items.rest),
                     ItemsNesting(items.rest));
    }
  }

  lemma {:induction false} ElementIsBalanced(e: Element)
    requires ValidElement(e)
    ensures Balanced(ElementText(e), Nesting(e.value))
    decreases e
  {
    LeadIsBalanced(e);
    ValueIsBalanced(e.value);
    InertIsBalanced(e.after);
    BalancedAppend(ValueText(e.value), Nesting(e.value), e.after, 0);
    BalancedAppend(Lead(e), 0, ValueText(e.value) + e.after, Nesting(e.value));
  }

  /** For every JSON text in every spelling, the pre-scan accepts exactly when the nesting is at most 64,
      and then ends at depth zero outside any string. */
  lemma PreScanMeasuresNesting(e: Element)
    requires JsonText(e)
    ensures ScanText(START, ElementText(e)) == if Nesting(e.value) <= 64 then Accepted(START) else Denied
    ensures Peak(START, ElementText(e)) == Nesting(e.value)
  {
    hide Walk, Peak, ScanText, ElementText, Nesting;
    assert ValidElement(e);
    ElementIsBalanced(e);
    assert START == At(0);
    LimitIsPeak(START, ElementText(e));
  }

  /** `_strict_json` hands a JSON text to the parser exactly when its bytes and its nesting are within bounds. */
  lemma StrictJsonBoundsNesting<J>(raw: seq<char>, decode: seq<char> -> Outcome<string>, loads: string -> Outcome<J>,
                                   e: Element)
    requires JsonText(e) && decode(raw) == Accepted(ElementText(e))
    ensures StrictJson(raw, decode, loads) ==
      if 0 < |raw| <= 16 * 1024 * 1024 && Nesting(e.value) <= 64 then loads(ElementText(e)) else Denied
  {
    hide ScanText, ElementText, Nesting, JsonText;
    PreScanMeasuresNesting(e);
  }

  // ----- viable prefixes -----

  /** A text whose every prefix leaves the depth as it was. */
  ghost predicate Flat(text: string) {
    forall d: int, i: nat {:trigger Walk(At(d), text[..i])} :: i <= |text| ==> Walk(At(d), text[..i]).depth == d
  }

  lemma PrefixOfAppend(s: Scan, a: string, b: string, i: nat)
    requires i <= |a| + |b|
    ensures Walk(s, (a + b)[..i]) == if i <= |a| then Walk(s, a[..i]) else Walk(Walk(s, a), b[..i - |a|])
  {
    if i <= |a| {
      assert (a + b)[..i] == a[..i];
    } else {
      assert (a + b)[..i] == a + b[..i - |a|];
      WalkAppend(s, a, b[..i - |a|]);
    }
  }

  lemma FlatAppend(a: string, b: string)
    requires Flat(a) && Balanced(a, 0) && Flat(b)
    ensures Flat(a + b)
  {
    forall d: int, i: nat | i <= |a + b| ensures Walk(At(d), (a + b)[..i]).depth == d {
      PrefixOfAppend(At(d), a, b, i);
    }
  }

  lemma InertIsFlat(text: string)
    requires Inert(text)
    ensures Flat(text) && Balanced(text, 0)
  {
    InertIsBalanced(text);
    forall d: int, i: nat | i <= |text| ensures Walk(At(d), text[..i]).depth == d {
      InertWalk(d, text[..i]);
    }
  }

  lemma PiecePrefix(d: int, p: Piece, i: nat)
    requires ValidPiece(p) && i <= |PieceText(p)|
    ensures Walk(Inside(d), PieceText(p)[..i]).depth == d
  {
    var text := PieceText(p)[..i];
    if i == |PieceText(p)| {
      assert text == PieceText(p);
      PieceWalk(d, p);
    } else if i == 1 {
      assert text[1..] == "";
    } else if i >= 2 {
      var hex := p.hex[..i - 2];
      assert text == ['\\', 'u'] + hex && text[1..] == ['u'] + hex && text[1..][1..] == hex;
      HexWalk(d, hex);
    }
  }

  lemma {:induction false} PiecesPrefix(d: int, ps: seq<Piece>, i: nat)
    requires ValidPieces(ps) && i <= |PiecesText(ps)|
    ensures Walk(Inside(d), PiecesText(ps)[..i]).depth == d
    decreases ps
  {
    if ps != [] {
      var a, b := PieceText(ps[0]), PiecesText(ps[1..]);
      PrefixOfAppend(Inside(d), a, b, i);
      PieceWalk(d, ps[0]);
      if i <= |a| {
        PiecePrefix(d, ps[0], i);
      } else {
        PiecesPrefix(d, ps[1..], i - |a|);
      }
    }
  }

  lemma StringIsFlat(ps: seq<Piece>)
    requires ValidPieces(ps)
    ensures Flat(StringText(ps)) && Balanced(StringText(ps), 0)
  {
    StringIsBalanced(ps);
    var text := StringText(ps);
    forall d: int, i: nat | i <= |text| ensures Walk(At(d), text[..i]).depth == d {
      if i == |text| {
        assert text[..i] == text;
        assert Walk(At(d), text) == At(d);
      } else if i > 0 {
        assert text[..i][1..] == PiecesText(ps)[..i - 1];
        PiecesPrefix(d, ps, i - 1);
      }
    }
  }

  lemma LeadIsFlat(e: Element)
    requires ValidElement(e)
    ensures Flat(Lead(e)) && Balanced(Lead(e), 0)
  {
    LeadIsBalanced(e);
    InertIsFlat(e.before);
    if e.member.Some? {
      var l := e.member.value;
      InertIsFlat(l.before);
      StringIsFlat(l.name);
      FlatAppend(l.before, StringText(l.name));
      BalancedAppend(l.before, 0, StringText(l.name), 0);
      InertIsFlat(l.after);
      FlatAppend(l.before + StringText(l.name), l.after);
      BalancedAppend(l.before + StringText(l.name), 0, l.after, 0);
      InertIsFlat(":");
      FlatAppend(l.before + StringText(l.name) + l.after, ":");
      BalancedAppend(l.before + StringText(l.name) + l.after, 0, ":", 0);
      FlatAppend(l.before + StringText(l.name) + l.after + ":", e.before);
    } else {
      assert "" + e.before == e.before;
    }
  }

  /** Inside brackets the depth is one more than inside their content. */
  lemma BracketPrefix(b: Bracket, inner: string, n: nat, d: int, i: nat)
    requires Balanced(inner, n)
    requires 0 < i <= |inner| + 1
    ensures Walk(At(d), (Open(b) + (inner + Close(b)))[..i]) == Walk(At(d + 1), inner[..i - 1])
  {
    var text := (Open(b) + (inner + Close(b)))[..i];
    assert text[0] == Open(b)[0] && text[1..] == inner[..i - 1];
  }

  lemma FlatAt(text: string, d: int, i: nat)
    requires Flat(text) && i <= |text|
    ensures Walk(At(d), text[..i]).depth == d
  {
    hide Walk;
  }

  lemma BalancedReturns(text: string, n: nat, d: int)
    requires Balanced(text, n)
    ensures Walk(At(d), text) == At(d)
  {
    hide Walk, Peak;
  }

  lemma {:induction false} ValuePrefix(v: Value, d: int, i: nat)
    requires ValidValue(v) && i <= |ValueText(v)|
    ensures Walk(At(d), ValueText(v)[..i]).depth == d + OpenInValue(v, i)
    decreases v
  {
    hide Walk, Peak, Balanced, Flat, StringText, NumberText;
    var text := ValueText(v);
    if i == 0 || i == |text| {
      ValueIsBalanced(v);
      BalancedReturns(text, Nesting(v), d);
      InertIsFlat("");
      FlatAt("", d, 0);
      assert text[..i] == if i == 0 then ""[..0] else text;
    } else {
      match v
      case Word(w) => InertIsFlat(w); FlatAt(w, d, i);
      case Num(n) => NumberIsInert(n); InertIsFlat(NumberText(n)); FlatAt(NumberText(n), d, i);
      case Str(ps) => StringIsFlat(ps); FlatAt(StringText(ps), d, i);
      case Empty(b, ws) =>
        InertIsFlat(ws);
        BracketPrefix(b, ws, 0, d, i);
        FlatAt(ws, d + 1, i - 1);
      case Container(b, items) =>
        ItemsAreBalanced(b, items);
        BracketPrefix(b, ItemsText(items), ItemsNesting(items), d, i);
        ItemsPrefix(b, items, d + 1, i - 1);
    }
  }

  lemma {:induction false} ItemsPrefix(b: Bracket, items: Items, d: int, i: nat)
    requires ValidItems(b, items) && i <= |ItemsText(items)|
    ensures Walk(At(d), ItemsText(items)[..i]).depth == d + OpenInItems(items, i)
    decreases items
  {
    match items
    case One(e) => ElementPrefix(e, d, i);
    case More(e, rest) =>
      ElementIsBalanced(e);
      BalancedReturns(ElementText(e), Nesting(e.value), d);
      PrefixOfAppend(At(d), ElementText(e), "," + ItemsText(rest), i);
      if i <= |ElementText(e)| {
        ElementPrefix(e, d, i);
      } else {
        var k := i - |ElementText(e)| - 1;
        var after := ("," + ItemsText(rest))[..k + 1];
        assert after[0] == ',' && after[1..] == ItemsText(rest)[..k];
        ItemsPrefix(b, rest, d, k);
      }
  }

  lemma {:induction false} ElementPrefix(e: Element, d: int, i: nat)
    requires ValidElement(e) && i <= |ElementText(e)|
    ensures Walk(At(d), ElementText(e)[..i]).depth == d + OpenInElement(e, i)
    decreases e
  {
    hide Balanced, Flat, Peak, Lead;
    LeadIsFlat(e);
    BalancedReturns(Lead(e), 0, d);
    PrefixOfAppend(At(d), Lead(e), ValueText(e.value) + e.after, i);
    if i <= |Lead(e)| {
      FlatAt(Lead(e), d, i);
    } else {
      var k := i - |Lead(e)|;
      ValueIsBalanced(e.value);
      BalancedReturns(ValueText(e.value), Nesting(e.value), d);
      PrefixOfAppend(At(d), ValueText(e.value), e.after, k);
      if k <= |ValueText(e.value)| {
        ValuePrefix(e.value, d, k);
      } else {
        InertIsFlat(e.after);
        FlatAt(e.after, d, k - |ValueText(e.value)|);
      }
    }
  }

  /** After every prefix of every JSON text the depth is the number of containers open there. */
  lemma PrefixDepthIsOpenContainers(e: Element, i: nat)
    requires JsonText(e) && i <= |ElementText(e)|
    ensures Walk(START, ElementText(e)[..i]).depth == OpenInElement(e, i)
  {
    ElementPrefix(e, 0, i);
  }

  // ----- duplicate members -----

  ghost predicate DistinctKeys<K, J>(pairs: seq<(K, J)>) {
    forall i, j :: 0 <= i < j < |pairs| ==> pairs[i].0 != pairs[j].0
  }

  ghost predicate DistinctUpTo<K, J>(pairs: seq<(K, J)>, n: nat)
    requires n <= |pairs|
  {
    forall i, j :: 0 <= i < j < n ==> pairs[i].0 != pairs[j].0
  }

  /** Every name of the map comes from one of the first `n` pairs: `at` tells which. */
  ghost predicate ComesFrom<K, J>(pairs: seq<(K, J)>, n: nat, result: map<K, J>, at: map<K, int>)
    requires n <= |pairs|
  {
    at.Keys == result.Keys && forall k :: k in at ==> 0 <= at[k] < n && pairs[at[k]].0 == k
  }

  /** Each of the first `n` pairs is in the map. */
  ghost predicate HoldsPairs<K, J>(pairs: seq<(K, J)>, n: nat, result: map<K, J>)
    requires n <= |pairs|
  {
    forall j :: 0 <= j < n ==> pairs[j].0 in result && result[pairs[j].0] == pairs[j].1
  }

  lemma HoldsOneMore<K, J>(pairs: seq<(K, J)>, n: nat, result: map<K, J>)
    requires n < |pairs| && HoldsPairs(pairs, n, result) && pairs[n].0 !in result
    ensures HoldsPairs(pairs, n + 1, result[pairs[n].0 := pairs[n].1])
  {
    var name, value, next := pairs[n].0, pairs[n].1, result[pairs[n].0 := pairs[n].1];
    forall j | 0 <= j < n + 1 ensures pairs[j].0 in next && next[pairs[j].0] == pairs[j].1 {
      assert j < n ==> pairs[j].0 in result && pairs[j].0 != name;
    }
  }

  lemma DistinctOneMore<K, J>(pairs: seq<(K, J)>, n: nat, result: map<K, J>)
    requires n < |pairs| && DistinctUpTo(pairs, n) && HoldsPairs(pairs, n, result) && pairs[n].0 !in result
    ensures DistinctUpTo(pairs, n + 1)
  {
    forall i, j | 0 <= i < j < n + 1 ensures pairs[i].0 != pairs[j].0 {
      assert pairs[i].0 in result;
    }
  }

  lemma Repeats<K, J>(pairs: seq<(K, J)>, n: nat, result: map<K, J>, at: map<K, int>)
    requires n < |pairs| && ComesFrom(pairs, n, result, at) && pairs[n].0 in result
    ensures !DistinctKeys(pairs)
  {
    assert pairs[at[pairs[n].0]].0 == pairs[n].0;
  }

  lemma MapGrows<K, J>(m: map<K, J>, k: K, v: J)
    requires k !in m
    ensures |m[k := v]| == |m| + 1
  {
    assert m[k := v].Keys == m.Keys + {k};
  }

  lemma ComesFromOneMore<K, J>(pairs: seq<(K, J)>, n: nat, result: map<K, J>, at: map<K, int>)
    requires n < |pairs| && ComesFrom(pairs, n, result, at) && pairs[n].0 !in result
    ensures ComesFrom(pairs, n + 1, result[pairs[n].0 := pairs[n].1], at[pairs[n].0 := n])
  {
  }

  /** `_reject_duplicate_members`: accepted exactly when the member names are distinct, and then a map of all of
      them. */
  method RejectDuplicateMembers<K(==), J>(pairs: seq<(K, J)>) returns (r: Outcome<map<K, J>>)
    ensures r.Accepted? <==> DistinctKeys(pairs)
    ensures r.Accepted? ==>
      |r.value| == |pairs| &&
      forall i :: 0 <= i < |pairs| ==> pairs[i].0 in r.value && r.value[pairs[i].0] == pairs[i].1
  {
    hide HoldsPairs, ComesFrom, DistinctUpTo, DistinctKeys;
    var result := map[];
    ghost var at := map[];
    HoldsNone(pairs, result);
    for i := 0 to |pairs|
      invariant |result| == i && DistinctUpTo(pairs, i)
      invariant HoldsPairs(pairs, i, result) && ComesFrom(pairs, i, result, at)
    {
      if pairs[i].0 in result {
        Repeats(pairs, i, result, at);
        return Denied;
      }
      DistinctOneMore(pairs, i, result);
      MapGrows(result, pairs[i].0, pairs[i].1);
      HoldsOneMore(pairs, i, result);
      ComesFromOneMore(pairs, i, result, at);
      result, at := result[pairs[i].0 := pairs[i].1], at[pairs[i].0 := i];
    }
    HoldsAll(pairs, result);
    return Accepted(result);
  }

  lemma HoldsNone<K, J>(pairs: seq<(K, J)>, result: map<K, J>)
    ensures HoldsPairs(pairs, 0, result) && DistinctUpTo(pairs, 0) && ComesFrom(pairs, 0, map[], map[])
  {
  }

  lemma HoldsAll<K, J>(pairs: seq<(K, J)>, result: map<K, J>)
    requires HoldsPairs(pairs, |pairs|, result) && DistinctUpTo(pairs, |pairs|)
    ensures DistinctKeys(pairs)
    ensures forall i :: 0 <= i < |pairs| ==> pairs[i].0 in result && result[pairs[i].0] == pairs[i].1
  {
  }
}
