// JSON values as sections 2 to 7 of RFC 8259 define them; every object among
// them is a text that the splitter takes.
module JsonGrammar {
  import opened Bytes
  import opened JsonSplit

  const LBRACKET: u8 := 0x5b
  const RBRACKET: u8 := 0x5d
  const COMMA: u8 := 0x2c
  const COLON: u8 := 0x3a
  const MINUS: u8 := 0x2d
  const PLUS: u8 := 0x2b
  const POINT: u8 := 0x2e

  datatype Json =
    | True | False | Null
    | Number(negative: bool, whole: seq<u8>, fraction: seq<u8>, exponent: seq<u8>)
    | String(chars: Chars)
    | EmptyArray(gap: seq<u8>)
    | Array(elements: Elements)
    | EmptyObject(gap: seq<u8>)
    | Dictionary(members: Members)

  // The gaps are the whitespace before and after a value or a name.
  datatype Elements =
    | LastElement(before: seq<u8>, value: Json, after: seq<u8>)
    | Element(before: seq<u8>, value: Json, after: seq<u8>, rest: Elements)

  datatype Members =
    | LastMember(before: seq<u8>, name: Chars, colon: seq<u8>, gap: seq<u8>, value: Json, after: seq<u8>)
    | Member(before: seq<u8>, name: Chars, colon: seq<u8>, gap: seq<u8>, value: Json, after: seq<u8>, rest: Members)

  // ----- which of them are JSON -----

  predicate Digit(b: u8) { 0x30 <= b <= 0x39 }

  predicate Hex(b: u8) { Digit(b) || 0x41 <= b <= 0x46 || 0x61 <= b <= 0x66 }

  predicate Digits(s: seq<u8>) { s != [] && forall i :: 0 <= i < |s| ==> Digit(s[i]) }

  // e or E, an optional sign and digits
  predicate ExponentText(s: seq<u8>)
  {
    && |s| >= 2 && (s[0] == 0x65 || s[0] == 0x45)
    && (Digits(s[1..]) || ((s[1] == PLUS || s[1] == MINUS) && Digits(s[2..])))
  }

  predicate FourHex(c: Chars)
  {
    && c.Char? && Hex(c.b) && c.rest.Char? && Hex(c.rest.b)
    && c.rest.rest.Char? && Hex(c.rest.rest.b) && c.rest.rest.rest.Char? && Hex(c.rest.rest.rest.b)
  }

  predicate StringChars(c: Chars)
  {
    match c
    case EndOfString => true
    case Char(b, rest) => b >= 0x20 && b != QUOTE && b != BACKSLASH && StringChars(rest)
    case Escape(b, rest) =>
      // quote, backslash, slash, b, f, n, r, t, or u with four hexadecimal digits
      (b in {QUOTE, BACKSLASH, 0x2f, 0x62, 0x66, 0x6e, 0x72, 0x74} || (b == 0x75 && FourHex(rest))) && StringChars(rest)
  }

  ghost predicate ValidJson(v: Json)
  {
    match v
    case True => true
    case False => true
    case Null => true
    case Number(_, whole, fraction, exponent) =>
      && Digits(whole) && (|whole| > 1 ==> whole[0] != 0x30)
      && (fraction == [] || Digits(fraction)) && (exponent == [] || ExponentText(exponent))
    case String(chars) => StringChars(chars)
    case EmptyArray(gap) => Blank(gap)
    case Array(elements) => ValidElements(elements)
    case EmptyObject(gap) => Blank(gap)
    case Dictionary(members) => ValidMembers(members)
  }

  ghost predicate ValidElements(e: Elements)
  {
    Blank(e.before) && ValidJson(e.value) && Blank(e.after) && (e.Element? ==> ValidElements(e.rest))
  }

  ghost predicate ValidMembers(m: Members)
  {
    && Blank(m.before) && StringChars(m.name) && Blank(m.colon) && Blank(m.gap)
    && ValidJson(m.value) && Blank(m.after) && (m.Member? ==> ValidMembers(m.rest))
  }

  // ----- their texts -----

  function Render(v: Json): seq<u8>
  {
    match v
    case True => [0x74, 0x72, 0x75, 0x65]
    case False => [0x66, 0x61, 0x6c, 0x73, 0x65]
    case Null => [0x6e, 0x75, 0x6c, 0x6c]
    case Number(negative, whole, fraction, exponent) =>
      (if negative then [MINUS] else []) + whole + (if fraction == [] then [] else [POINT] + fraction) + exponent
    case String(chars) => [QUOTE] + RenderChars(chars)
    case EmptyArray(gap) => [LBRACKET] + gap + [RBRACKET]
    case Array(elements) => [LBRACKET] + RenderElements(elements)
    case EmptyObject(gap) => [LBRACE] + gap + [RBRACE]
    case Dictionary(members) => [LBRACE] + RenderMembers(members)
  }

  function RenderElements(e: Elements): seq<u8>
  {
    e.before + (Render(e.value) + (e.after + (if e.Element? then [COMMA] + RenderElements(e.rest) else [RBRACKET])))
  }

  function RenderMembers(m: Members): seq<u8>
  {
    m.before + ([QUOTE] + RenderChars(m.name)) + (m.colon + ([COLON] + (m.gap + (Render(m.value)
    + (m.after + (if m.Member? then [COMMA] + RenderMembers(m.rest) else [RBRACE]))))))
  }

  // ----- as the splitter sees them -----

  ghost predicate PlainBytes(s: seq<u8>)
  {
    forall i :: 0 <= i < |s| ==> s[i] != QUOTE && s[i] != LBRACE && s[i] != RBRACE
  }

  function Others(s: seq<u8>, rest: Items): Items
  {
    if s == [] then rest else Other(s[0], Others(s[1..], rest))
  }

  // The value, then `rest`.
  function Flatten(v: Json, rest: Items): Items
    decreases v, 1
  {
    match v
    case String(chars) => Text(chars, rest)
    case Array(elements) => Other(LBRACKET, FlattenElements(elements, rest))
    case EmptyObject(gap) => Object(Others(gap, EndOfObject), rest)
    case Dictionary(members) => Object(FlattenMembers(members), rest)
    case _ => Others(Render(v), rest)
  }

  function FlattenElements(e: Elements, rest: Items): Items
    decreases e, 1
  {
    var end := if e.Element? then Other(COMMA, FlattenElements(e.rest, rest)) else Other(RBRACKET, rest);
    Others(e.before, Flatten(e.value, Others(e.after, end)))
  }

  function FlattenMembers(m: Members): Items
    decreases m, 1
  {
    var end := if m.Member? then Other(COMMA, FlattenMembers(m.rest)) else EndOfObject;
    Others(m.before, Text(m.name, Others(m.colon, Other(COLON, Others(m.gap, Flatten(m.value, Others(m.after, end)))))))
  }

  ghost predicate Shows(i: Items, text: seq<u8>) { ValidItems(i) && RenderItems(i) == text }

  lemma {:induction false} OthersShown(s: seq<u8>, rest: Items)
    requires PlainBytes(s) && ValidItems(rest)
    ensures Shows(Others(s, rest), s + RenderItems(rest))
    decreases |s|
  {
    if s == [] {
      assert s + RenderItems(rest) == RenderItems(rest);
    } else {
      OthersShown(s[1..], rest);
      FirstByte(s, RenderItems(rest));
    }
  }

  lemma FirstByte(s: seq<u8>, rest: seq<u8>)
    requires s != []
    ensures [s[0]] + (s[1..] + rest) == s + rest
  {
  }

  lemma NumberIsPlain(v: Json)
    requires v.Number? && ValidJson(v)
    ensures PlainBytes(Render(v))
  {
    var sign: seq<u8> := if v.negative then [MINUS] else [];
    var tail: seq<u8> := if v.fraction == [] then [] else [POINT] + v.fraction;
  }

  lemma {:induction false} StringIsValid(c: Chars)
    requires StringChars(c)
    ensures ValidChars(c)
  {
    match c
    case EndOfString =>
    case Char(_, rest) => StringIsValid(rest);
    case Escape(_, rest) => StringIsValid(rest);
  }

  lemma Associative(a: seq<u8>, b: seq<u8>, c: seq<u8>)
    ensures a + (b + c) == a + b + c
  {
  }

  lemma {:induction false} ValueShown(v: Json, rest: Items)
    requires ValidJson(v) && ValidItems(rest)
    ensures Shows(Flatten(v, rest), Render(v) + RenderItems(rest))
    decreases v, 1
  {
    match v
    case True => OthersShown(Render(v), rest);
    case False => OthersShown(Render(v), rest);
    case Null => OthersShown(Render(v), rest);
    case Number(_, _, _, _) =>
      NumberIsPlain(v);
      OthersShown(Render(v), rest);
    case String(chars) =>
      StringIsValid(chars);
    case EmptyArray(gap) =>
      OthersShown(Render(v), rest);
    case Array(elements) =>
      ElementsShown(elements, rest);
      Associative([LBRACKET], RenderElements(elements), RenderItems(rest));
    case EmptyObject(gap) =>
      OthersShown(gap, EndOfObject);
      Associative([LBRACE], gap, [RBRACE]);
    case Dictionary(members) =>
      MembersShown(members);
  }

  lemma {:induction false} ElementsShown(e: Elements, rest: Items)
    requires ValidElements(e) && ValidItems(rest)
    ensures Shows(FlattenElements(e, rest), RenderElements(e) + RenderItems(rest))
    decreases e, 1
  {
    var end := if e.Element? then Other(COMMA, FlattenElements(e.rest, rest)) else Other(RBRACKET, rest);
    var close := if e.Element? then [COMMA] + RenderElements(e.rest) else [RBRACKET];
    if e.Element? {
      ElementsShown(e.rest, rest);
      Associative([COMMA], RenderElements(e.rest), RenderItems(rest));
    }
    OthersShown(e.after, end);
    ValueShown(e.value, Others(e.after, end));
    OthersShown(e.before, Flatten(e.value, Others(e.after, end)));
    Associative(e.after, close, RenderItems(rest));
    Associative(Render(e.value), e.after + close, RenderItems(rest));
    Associative(e.before, Render(e.value) + (e.after + close), RenderItems(rest));
  }

  lemma {:induction false} MembersShown(m: Members)
    requires ValidMembers(m)
    ensures Shows(FlattenMembers(m), RenderMembers(m))
    decreases m, 1
  {
    var end := if m.Member? then Other(COMMA, FlattenMembers(m.rest)) else EndOfObject;
    if m.Member? { MembersShown(m.rest); }
    StringIsValid(m.name);
    OthersShown(m.after, end);
    var after := Others(m.after, end);
    ValueShown(m.value, after);
    OthersShown(m.gap, Flatten(m.value, after));
    var colon := Other(COLON, Others(m.gap, Flatten(m.value, after)));
    OthersShown(m.colon, colon);
    OthersShown(m.before, Text(m.name, Others(m.colon, colon)));
    Associative(m.before, [QUOTE] + RenderChars(m.name), RenderItems(Others(m.colon, colon)));
  }

  // Every JSON object, however it is spaced, is an object text.
  lemma ObjectsAreTexts(v: Json)
    requires ValidJson(v) && (v.EmptyObject? || v.Dictionary?)
    ensures ObjectText(Render(v))
  {
    var i := if v.EmptyObject? then Others(v.gap, EndOfObject) else FlattenMembers(v.members);
    if v.EmptyObject? {
      OthersShown(v.gap, EndOfObject);
      Associative([LBRACE], v.gap, [RBRACE]);
    } else {
      MembersShown(v.members);
    }
    assert RendersTo(i, Render(v));
  }

  function RenderAll(values: seq<Json>): (texts: seq<seq<u8>>)
    ensures |texts| == |values|
  {
    seq(|values|, i requires 0 <= i < |values| => Render(values[i]))
  }

  // A row of JSON objects is split into just their texts, in order.
  lemma JsonRowSplit(gaps: seq<seq<u8>>, values: seq<Json>, last: seq<u8>)
    requires |gaps| == |values| && Blank(last) && forall k :: 0 <= k < |gaps| ==> Blank(gaps[k])
    requires forall k :: 0 <= k < |values| ==> ValidJson(values[k]) && (values[k].EmptyObject? || values[k].Dictionary?)
    ensures Objects(Row(gaps, RenderAll(values)) + last) == RenderAll(values)
  {
    forall k | 0 <= k < |values| ensures ObjectText(RenderAll(values)[k]) {
      ObjectsAreTexts(values[k]);
    }
    RowSplit(gaps, RenderAll(values), last);
    TrimBlank(last, []);
    assert last + [] == last;
    assert RenderAll(values) + [] == RenderAll(values);
  }
}
