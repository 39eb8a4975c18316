// Splitting the bar's output, a row of JSON objects, into object texts.
module JsonSplit {
  import opened Wrappers
  import opened Bytes

  const SPACE: u8 := 0x20
  const NEWLINE: u8 := 0x0a
  const RETURN: u8 := 0x0d
  const TAB: u8 := 0x09
  const QUOTE: u8 := 0x22
  const BACKSLASH: u8 := 0x5c
  const LBRACE: u8 := 0x7b
  const RBRACE: u8 := 0x7d

  predicate IsWhitespace(b: u8) { b == SPACE || b == NEWLINE || b == RETURN || b == TAB }

  // ----- object texts (sections 2, 4 and 7 of RFC 8259) -----

  // A string after its opening quote.
  datatype Chars = EndOfString | Char(b: u8, rest: Chars) | Escape(b: u8, rest: Chars)

  // An object after its opening brace. Only strings and braces matter: `Other`
  // is any other byte, of a number, a literal, an array or whitespace.
  datatype Items =
    | EndOfObject
    | Other(b: u8, rest: Items)
    | Text(chars: Chars, rest: Items)
    | Object(inner: Items, rest: Items)

  predicate ValidChars(c: Chars)
  {
    match c
    case EndOfString => true
    case Char(b, rest) => b != QUOTE && b != BACKSLASH && ValidChars(rest)
    case Escape(_, rest) => ValidChars(rest)
  }

  predicate ValidItems(i: Items)
  {
    match i
    case EndOfObject => true
    case Other(b, rest) => b != QUOTE && b != LBRACE && b != RBRACE && ValidItems(rest)
    case Text(chars, rest) => ValidChars(chars) && ValidItems(rest)
    case Object(inner, rest) => ValidItems(inner) && ValidItems(rest)
  }

  function RenderChars(c: Chars): seq<u8>
  {
    match c
    case EndOfString => [QUOTE]
    case Char(b, rest) => [b] + RenderChars(rest)
    case Escape(b, rest) => [BACKSLASH, b] + RenderChars(rest)
  }

  function RenderItems(i: Items): seq<u8>
  {
    match i
    case EndOfObject => [RBRACE]
    case Other(b, rest) => [b] + RenderItems(rest)
    case Text(chars, rest) => [QUOTE] + RenderChars(chars) + RenderItems(rest)
    case Object(inner, rest) => [LBRACE] + RenderItems(inner) + RenderItems(rest)
  }

  ghost predicate RendersTo(i: Items, text: seq<u8>) { ValidItems(i) && text == [LBRACE] + RenderItems(i) }

  ghost predicate ObjectText(text: seq<u8>) { exists i :: RendersTo(i, text) }

  // ----- the scanner -----

  datatype Scan = Scan(depth: int, inString: bool, escaped: bool)

  const START: Scan := Scan(0, false, false)

  function Outside(depth: int): Scan { Scan(depth, false, false) }

  function Next(s: Scan, b: u8): Scan
  {
    if s.inString then
      if s.escaped then s.(escaped := false)
      else if b == BACKSLASH then s.(escaped := true)
      else if b == QUOTE then s.(inString := false)
      else s
    else if b == QUOTE then s.(inString := true)
    else if b == LBRACE then s.(depth := s.depth + 1)
    else if b == RBRACE then s.(depth := s.depth - 1)
    else s
  }

  predicate Closes(s: Scan, b: u8) { !s.inString && b == RBRACE && s.depth == 1 }

  function Plus(n: nat, o: Option<nat>): Option<nat>
  {
    if o.None? then None else Some(n + o.value)
  }

  // The number of bytes up to the brace that closes the object.
  function Length(bytes: seq<u8>, s: Scan): (n: Option<nat>)
    ensures n.Some? ==> 0 < n.value <= |bytes|
    decreases |bytes|
  {
    if bytes == [] then None
    else if Closes(s, bytes[0]) then Some(1)
    else Plus(1, Length(bytes[1..], Next(s, bytes[0])))
  }

  function Trim(bytes: seq<u8>): (t: seq<u8>)
    ensures |t| <= |bytes|
    decreases |bytes|
  {
    if bytes != [] && IsWhitespace(bytes[0]) then Trim(bytes[1..]) else bytes
  }

  // The object texts, in order.
  function Objects(bytes: seq<u8>): (texts: seq<seq<u8>>)
    decreases |bytes|
  {
    var t := Trim(bytes);
    if t == [] || t[0] != LBRACE then []
    else
      match Length(t, START)
      case None => []
      case Some(n) => [t[..n]] + Objects(t[n..])
  }

  function Decoded<T>(texts: seq<seq<u8>>, decode: seq<u8> -> Option<T>): seq<T>
    decreases |texts|
  {
    if texts == [] then []
    else
      var front := Decoded(texts[..|texts| - 1], decode);
      match decode(texts[|texts| - 1])
      case None => front
      case Some(x) => front + [x]
  }

  // ----- the same, as loops -----

  // `decode` stands for the JSON library: it may reject a text.
  method ParseObjects<T>(bytes: seq<u8>, decode: seq<u8> -> Option<T>) returns (objects: seq<T>)
    ensures objects == Decoded(Objects(bytes), decode)
  {
    var index := 0;
    objects := [];
    ghost var found: seq<seq<u8>> := [];
    while index < |bytes|
      invariant index <= |bytes| && found + Objects(bytes[index..]) == Objects(bytes)
      invariant objects == Decoded(found, decode)
      decreases |bytes| - index
    {
      ghost var first := index;
      index := SkipWhitespace(bytes, index);
      if !(index < |bytes| && bytes[index] == LBRACE) {
        assert Objects(bytes[first..]) == [] && found + [] == found;
        return;
      }
      var start, closed := index, false;
      index, closed := SkipObject(bytes, start);
      NextObject(bytes, first, start, index, closed);
      if closed {
        var text := bytes[start..index];
        OneMore(found, text, Objects(bytes[index..]), decode);
        found := found + [text];
        match decode(text)
        case None =>
        case Some(decoded) => objects := objects + [decoded];
      }
    }
    assert Objects([]) == [] && bytes[index..] == [] && found + [] == found;
  }

  lemma NextObject(bytes: seq<u8>, first: nat, start: nat, end: nat, closed: bool)
    requires first <= start < end <= |bytes| && bytes[start] == LBRACE && bytes[start..] == Trim(bytes[first..])
    requires Length(bytes[start..], START) == if closed then Some(end - start) else None
    requires !closed ==> end == |bytes|
    ensures Objects(bytes[first..]) == (if closed then [bytes[start..end]] else []) + Objects(bytes[end..])
  {
    if closed { CutTwice(bytes, start, end - start); } else { assert bytes[end..] == []; }
  }

  lemma OneMore<T>(found: seq<seq<u8>>, text: seq<u8>, more: seq<seq<u8>>, decode: seq<u8> -> Option<T>)
    ensures found + ([text] + more) == found + [text] + more
    ensures Decoded(found + [text], decode)
         == Decoded(found, decode) + match decode(text) { case None => [] case Some(x) => [x] }
  {
    var longer := found + [text];
    assert longer[..|longer| - 1] == found;
  }

  method SkipWhitespace(bytes: seq<u8>, start: nat) returns (index: nat)
    requires start <= |bytes|
    ensures start <= index <= |bytes| && bytes[index..] == Trim(bytes[start..])
  {
    index := start;
    while index < |bytes| && IsWhitespace(bytes[index])
      invariant start <= index <= |bytes| && Trim(bytes[index..]) == Trim(bytes[start..])
    {
      assert bytes[index..][1..] == bytes[index + 1..];
      index := index + 1;
    }
  }

  method SkipObject(bytes: seq<u8>, start: nat) returns (index: nat, closed: bool)
    requires start < |bytes| && bytes[start] == LBRACE
    ensures start < index <= |bytes|
    ensures Length(bytes[start..], START) == if closed then Some(index - start) else None
    ensures !closed ==> index == |bytes|
  {
    index := start;
    var depth, inString, escaped := 0, false, false;
    while index < |bytes|
      invariant start <= index <= |bytes|
      invariant index == start ==> Scan(depth, inString, escaped) == START
      invariant index > start || index < |bytes|
      invariant Plus(index - start, Length(bytes[index..], Scan(depth, inString, escaped)))
           == Length(bytes[start..], START)
    {
      var byte := bytes[index];
      assert bytes[index..][0] == byte && bytes[index..][1..] == bytes[index + 1..];
      if inString {
        if escaped {
          escaped := false;
        } else if byte == BACKSLASH {
          escaped := true;
        } else if byte == QUOTE {
          inString := false;
        }
      } else if byte == QUOTE {
        inString := true;
      } else if byte == LBRACE {
        depth := depth + 1;
      } else if byte == RBRACE {
        depth := depth - 1;
        if depth == 0 {
          index := index + 1;
          closed := true;
          return;
        }
      }
      index := index + 1;
    }
    closed := false;
  }

  // ----- sequences -----

  lemma Regroup(a: seq<u8>, b: seq<u8>, c: seq<u8>, d: seq<u8>)
    ensures a + b + c + d == a + (b + (c + d))
    ensures a + b + d == a + (b + d)
  {
  }

  lemma CutTwice(bytes: seq<u8>, m: nat, k: nat)
    requires m + k <= |bytes|
    ensures bytes[..m + k] == bytes[..m] + bytes[m..][..k] && bytes[m + k..] == bytes[m..][k..]
    ensures bytes[m..m + k] == bytes[m..][..k]
  {
  }

  // ----- the scanner closes an object exactly at its end -----

  lemma {:induction false} StringScanned(c: Chars, tail: seq<u8>, depth: int)
    requires ValidChars(c)
    ensures Length(RenderChars(c) + tail, Scan(depth, true, false))
         == Plus(|RenderChars(c)|, Length(tail, Outside(depth)))
  {
    var bytes := RenderChars(c) + tail;
    match c
    case EndOfString =>
      assert bytes[1..] == tail;
    case Char(b, rest) =>
      assert bytes[1..] == RenderChars(rest) + tail;
      StringScanned(rest, tail, depth);
    case Escape(b, rest) =>
      assert bytes[1..] == [b] + RenderChars(rest) + tail;
      assert bytes[1..][1..] == RenderChars(rest) + tail;
      StringScanned(rest, tail, depth);
  }

  // What is left to scan once an object at this depth is closed.
  function Resume(tail: seq<u8>, depth: int): Option<nat>
  {
    if depth == 1 then Some(0) else Length(tail, Outside(depth - 1))
  }

  lemma {:induction false} ItemsScanned(i: Items, tail: seq<u8>, depth: int)
    requires ValidItems(i) && depth >= 1
    ensures Length(RenderItems(i) + tail, Outside(depth))
         == Plus(|RenderItems(i)|, Resume(tail, depth))
  {
    match i
    case EndOfObject =>
    case Other(b, rest) =>
      ItemsScanned(rest, tail, depth);
      ByteScanned(b, RenderItems(rest), tail, Outside(depth), Resume(tail, depth));
    case Text(chars, rest) =>
      StringScanned(chars, RenderItems(rest) + tail, depth);
      ItemsScanned(rest, tail, depth);
      PartScanned(QUOTE, RenderChars(chars), RenderItems(rest), tail, Outside(depth), Resume(tail, depth));
    case Object(inner, rest) =>
      ItemsScanned(inner, RenderItems(rest) + tail, depth + 1);
      ItemsScanned(rest, tail, depth);
      PartScanned(LBRACE, RenderItems(inner), RenderItems(rest), tail, Outside(depth), Resume(tail, depth));
  }

  // One byte and the rest of the object.
  lemma ByteScanned(b: u8, r: seq<u8>, tail: seq<u8>, s: Scan, more: Option<nat>)
    requires !Closes(s, b) && Next(s, b) == s && Length(r + tail, s) == Plus(|r|, more)
    ensures Length([b] + r + tail, s) == Plus(|[b] + r|, more)
  {
    Associate([b], r, tail);
  }

  // One byte, what it opens, and the rest of the object.
  lemma PartScanned(b: u8, a: seq<u8>, r: seq<u8>, tail: seq<u8>, s: Scan, more: Option<nat>)
    requires !Closes(s, b) && Length(r + tail, s) == Plus(|r|, more)
    requires Length(a + (r + tail), Next(s, b)) == Plus(|a|, Length(r + tail, s))
    ensures Length([b] + a + r + tail, s) == Plus(|[b] + a + r|, more)
  {
    Regroup([b], a, r, tail);
  }

  lemma Associate(a: seq<u8>, b: seq<u8>, c: seq<u8>)
    ensures a + b + c == a + (b + c)
  {
  }

  lemma ObjectScanned(text: seq<u8>, tail: seq<u8>)
    requires ObjectText(text)
    ensures Length(text + tail, START) == Some(|text|)
  {
    var i :| RendersTo(i, text);
    ItemsScanned(i, tail, 1);
    Regroup([LBRACE], RenderItems(i), [], tail);
  }

  lemma {:induction false} StringFound(bytes: seq<u8>, depth: int) returns (c: Chars, tail: seq<u8>)
    requires Length(bytes, Scan(depth, true, false)).Some?
    ensures ValidChars(c) && bytes == RenderChars(c) + tail && |tail| < |bytes|
    ensures Length(tail, Outside(depth)).Some?
    decreases |bytes|
  {
    var b, rest := bytes[0], bytes[1..];
    if b == QUOTE {
      c, tail := EndOfString, rest;
    } else if b == BACKSLASH {
      assert Length(rest, Scan(depth, true, true)) == Plus(1, Length(rest[1..], Scan(depth, true, false)));
      var more;
      more, tail := StringFound(rest[1..], depth);
      c := Escape(rest[0], more);
      Regroup([b, rest[0]], RenderChars(more), [], tail);
    } else {
      var more;
      more, tail := StringFound(rest, depth);
      c := Char(b, more);
      Regroup([b], RenderChars(more), [], tail);
    }
  }

  lemma {:induction false} ItemsFound(bytes: seq<u8>, depth: int) returns (i: Items, tail: seq<u8>)
    requires depth >= 1 && Length(bytes, Outside(depth)).Some?
    ensures ValidItems(i) && bytes == RenderItems(i) + tail && |tail| < |bytes|
    ensures Resume(tail, depth).Some?
    decreases |bytes|
  {
    var b, rest := bytes[0], bytes[1..];
    if b == RBRACE {
      i, tail := EndOfObject, rest;
    } else if b == QUOTE {
      var c, after := StringFound(rest, depth);
      var more;
      more, tail := ItemsFound(after, depth);
      i := Text(c, more);
      Regroup([b], RenderChars(c), RenderItems(more), tail);
    } else if b == LBRACE {
      var inner, after := ItemsFound(rest, depth + 1);
      var more;
      more, tail := ItemsFound(after, depth);
      i := Object(inner, more);
      Regroup([b], RenderItems(inner), RenderItems(more), tail);
    } else {
      var more;
      more, tail := ItemsFound(rest, depth);
      i := Other(b, more);
      Regroup([b], RenderItems(more), [], tail);
    }
  }

  // The scanner finds an object at the front exactly when there is one.
  lemma FoundExactly(bytes: seq<u8>, n: nat)
    requires n <= |bytes| && bytes != [] && bytes[0] == LBRACE
    ensures Length(bytes, START) == Some(n) <==> ObjectText(bytes[..n])
  {
    if ObjectText(bytes[..n]) {
      ObjectScanned(bytes[..n], bytes[n..]);
      assert bytes[..n] + bytes[n..] == bytes;
    }
    if Length(bytes, START) == Some(n) {
      var i, tail := ItemsFound(bytes[1..], 1);
      var text := [LBRACE] + RenderItems(i);
      assert RendersTo(i, text) && ObjectText(text);
      Regroup([LBRACE], RenderItems(i), [], tail);
      assert bytes == text + tail;
      ObjectScanned(text, tail);
    }
  }

  // ----- rows of objects -----

  ghost predicate Blank(bytes: seq<u8>)
  {
    forall k :: 0 <= k < |bytes| ==> IsWhitespace(bytes[k])
  }

  function Row(gaps: seq<seq<u8>>, texts: seq<seq<u8>>): seq<u8>
    requires |gaps| == |texts|
    decreases |gaps|
  {
    if gaps == [] then [] else gaps[0] + texts[0] + Row(gaps[1..], texts[1..])
  }

  ghost predicate RowOfObjects(gaps: seq<seq<u8>>, texts: seq<seq<u8>>)
  {
    && |gaps| == |texts|
    && (forall k :: 0 <= k < |gaps| ==> Blank(gaps[k]))
    && (forall k :: 0 <= k < |texts| ==> ObjectText(texts[k]))
  }

  // No object text follows the leading whitespace.
  ghost predicate NoObjectAhead(rest: seq<u8>)
  {
    forall gap, n: nat :: n <= |rest| && Blank(gap) && gap <= rest && |gap| <= n ==> !ObjectText(rest[|gap|..n])
  }

  lemma {:induction false} TrimBlank(gap: seq<u8>, tail: seq<u8>)
    requires Blank(gap)
    ensures Trim(gap + tail) == Trim(tail)
    decreases |gap|
  {
    if gap == [] {
      assert gap + tail == tail;
    } else {
      assert (gap + tail)[1..] == gap[1..] + tail;
      TrimBlank(gap[1..], tail);
    }
  }

  // One object text after whitespace is split off.
  lemma FirstObject(gap: seq<u8>, text: seq<u8>, tail: seq<u8>)
    requires Blank(gap) && ObjectText(text)
    ensures Objects(gap + (text + tail)) == [text] + Objects(tail)
  {
    TrimBlank(gap, text + tail);
    ObjectScanned(text, tail);
    assert (text + tail)[..|text|] == text && (text + tail)[|text|..] == tail;
  }

  // Objects written one after another are all found, whatever follows them.
  lemma {:induction false} RowSplit(gaps: seq<seq<u8>>, texts: seq<seq<u8>>, rest: seq<u8>)
    requires RowOfObjects(gaps, texts)
    ensures Objects(Row(gaps, texts) + rest) == texts + Objects(rest)
    decreases |gaps|
  {
    if gaps == [] {
      assert Row(gaps, texts) + rest == rest;
    } else {
      var tail := Row(gaps[1..], texts[1..]) + rest;
      Regroup(gaps[0], texts[0], Row(gaps[1..], texts[1..]), rest);
      FirstObject(gaps[0], texts[0], tail);
      RowSplit(gaps[1..], texts[1..], rest);
      assert texts == [texts[0]] + texts[1..];
    }
  }

  lemma NothingFound(bytes: seq<u8>)
    ensures Objects(bytes) == [] <==> NoObjectAhead(bytes)
  {
    if !NoObjectAhead(bytes) {
      var gap, n: nat :| n <= |bytes| && Blank(gap) && gap <= bytes && |gap| <= n && ObjectText(bytes[|gap|..n]);
      assert bytes == gap + (bytes[|gap|..n] + bytes[n..]);
      FirstObject(gap, bytes[|gap|..n], bytes[n..]);
    }
    if Objects(bytes) != [] {
      var gap, n := Leading(bytes);
      assert Blank(gap) && ObjectText(bytes[|gap|..n]);
    }
  }

  lemma {:induction false} TrimmedGap(bytes: seq<u8>)
    ensures Blank(bytes[..|bytes| - |Trim(bytes)|])
    ensures bytes[|bytes| - |Trim(bytes)|..] == Trim(bytes)
    decreases |bytes|
  {
    if bytes != [] && IsWhitespace(bytes[0]) {
      TrimmedGap(bytes[1..]);
      var n := |bytes| - |Trim(bytes)|;
      assert bytes[..n] == [bytes[0]] + bytes[1..][..n - 1];
    }
  }

  lemma Leading(bytes: seq<u8>) returns (gap: seq<u8>, n: nat)
    requires Objects(bytes) != []
    ensures gap <= bytes && Blank(gap) && |gap| < n <= |bytes| && ObjectText(bytes[|gap|..n])
    ensures Objects(bytes) == [bytes[|gap|..n]] + Objects(bytes[n..])
  {
    var t := Trim(bytes);
    var g := |bytes| - |t|;
    gap := bytes[..g];
    TrimmedGap(bytes);
    var m := LeadingText(bytes, t);
    n := g + m;
    CutTwice(bytes, g, m);
  }

  lemma LeadingText(bytes: seq<u8>, t: seq<u8>) returns (m: nat)
    requires t == Trim(bytes) && Objects(bytes) != []
    ensures 0 < m <= |t| && ObjectText(t[..m]) && Objects(bytes) == [t[..m]] + Objects(t[m..])
  {
    m := Length(t, START).value;
    FoundExactly(t, m);
  }

  // On any bytes: the texts found are object texts with nothing but whitespace
  // in between, and no further object follows the last one.
  lemma {:induction false} SplitSound(bytes: seq<u8>) returns (gaps: seq<seq<u8>>, rest: seq<u8>)
    ensures RowOfObjects(gaps, Objects(bytes))
    ensures bytes == Row(gaps, Objects(bytes)) + rest && NoObjectAhead(rest)
    decreases |bytes|
  {
    if Objects(bytes) == [] {
      gaps, rest := [], bytes;
      NothingFound(bytes);
      assert bytes == Row(gaps, Objects(bytes)) + rest;
    } else {
      var gap, n := Leading(bytes);
      var text, tail := bytes[|gap|..n], bytes[n..];
      var gaps', rest' := SplitSound(tail);
      gaps, rest := [gap] + gaps', rest';
      assert bytes == gap + text + tail;
      Regroup(gap, text, Row(gaps', Objects(tail)), rest);
    }
  }

  ghost predicate SplitsInto(bytes: seq<u8>, texts: seq<seq<u8>>, gaps: seq<seq<u8>>, rest: seq<u8>)
  {
    RowOfObjects(gaps, texts) && bytes == Row(gaps, texts) + rest && NoObjectAhead(rest)
  }

  // The result is the only way to cut the bytes into objects.
  lemma SplitExactly(bytes: seq<u8>, texts: seq<seq<u8>>)
    ensures Objects(bytes) == texts <==> exists gaps, rest :: SplitsInto(bytes, texts, gaps, rest)
  {
    if Objects(bytes) == texts {
      var gaps, rest := SplitSound(bytes);
      assert SplitsInto(bytes, texts, gaps, rest);
    }
    if exists gaps, rest :: SplitsInto(bytes, texts, gaps, rest) {
      var gaps, rest :| SplitsInto(bytes, texts, gaps, rest);
      RowSplit(gaps, texts, rest);
      NothingFound(rest);
      assert texts + [] == texts;
    }
  }

  lemma {:induction false} DecodedConcat<T>(a: seq<seq<u8>>, b: seq<seq<u8>>, decode: seq<u8> -> Option<T>)
    ensures Decoded(a + b, decode) == Decoded(a, decode) + Decoded(b, decode)
    decreases |b|
  {
    if b == [] {
      assert a + b == a;
    } else {
      assert (a + b)[..|a + b| - 1] == a + b[..|b| - 1];
      DecodedConcat(a, b[..|b| - 1], decode);
    }
  }

  // A text that the library rejects is left out, and nothing else changes;
  // every other one gives its object at its place.
  lemma DecodedExactly<T>(a: seq<seq<u8>>, text: seq<u8>, b: seq<seq<u8>>, decode: seq<u8> -> Option<T>)
    ensures Decoded(a + [text] + b, decode) == Decoded(a, decode)
      + (if decode(text).None? then [] else [decode(text).value]) + Decoded(b, decode)
  {
    DecodedConcat(a + [text], b, decode);
    assert (a + [text])[..|a|] == a;
  }

  // When the library decodes every text, nothing is lost and order is kept.
  lemma {:induction false} DecodedAll<T>(texts: seq<seq<u8>>, decode: seq<u8> -> Option<T>)
    requires forall k :: 0 <= k < |texts| ==> decode(texts[k]).Some?
    ensures |Decoded(texts, decode)| == |texts|
    ensures forall k :: 0 <= k < |texts| ==> Some(Decoded(texts, decode)[k]) == decode(texts[k])
    decreases |texts|
  {
    if texts != [] { DecodedAll(texts[..|texts| - 1], decode); }
  }
}
