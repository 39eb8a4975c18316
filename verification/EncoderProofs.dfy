// The generator and the live tool give a key the same code.
module EncoderProofs {
  import opened Wrappers
  import opened Text
  import opened Keycode
  import opened KeycodeProofs
  import opened Encoder

  // ----- the two trims -----

  lemma {:induction false} StartIsStrip(s: string)
    ensures TrimStart(s) == StripStart(s, IsWhitespace)
  {
    if s != "" && IsWhitespace(s[0]) { StartIsStrip(s[1..]); }
  }

  lemma {:induction false} EndIsStrip(s: string)
    ensures TrimEnd(s) == StripEnd(s, IsWhitespace)
  {
    if s != "" && IsWhitespace(s[|s| - 1]) { EndIsStrip(s[..|s| - 1]); }
  }

  lemma TrimIsStrip(s: string)
    ensures Trim(s) == Strip(s, IsWhitespace)
  {
    StartIsStrip(s);
    EndIsStrip(TrimStart(s));
  }

  ghost predicate NoSpace(s: string)
  {
    forall i :: 0 <= i < |s| ==> !PySpace(s[i])
  }

  lemma {:induction false} StripEndPrefix(s: string, ws: char -> bool)
    ensures StripEnd(s, ws) <= s
    ensures s != "" && !ws(s[0]) ==> StripEnd(s, ws) != ""
  {
    if s != "" && ws(s[|s| - 1]) { StripEndPrefix(s[..|s| - 1], ws); }
  }

  lemma {:induction false} SameEnd(s: string)
    requires NoSpace(StripEnd(s, IsWhitespace))
    ensures StripEnd(s, PySpace) == StripEnd(s, IsWhitespace)
  {
    if s != "" {
      if IsWhitespace(s[|s| - 1]) { SameEnd(s[..|s| - 1]); }
    }
  }

  lemma {:induction false} SameStart(s: string)
    requires NoSpace(Strip(s, IsWhitespace))
    ensures StripStart(s, PySpace) == StripStart(s, IsWhitespace)
  {
    if s != "" {
      if IsWhitespace(s[0]) { SameStart(s[1..]); } else { StripEndPrefix(s, IsWhitespace); }
    }
  }

  // Where one trim leaves no space at all, both give the same.
  lemma SameStrip(s: string)
    requires NoSpace(Trim(s))
    ensures PyStrip(s) == Trim(s)
  {
    TrimIsStrip(s);
    SameStart(s);
    SameEnd(StripStart(s, IsWhitespace));
  }

  lemma {:induction false} StripStartKeeps(s: string, ws: char -> bool, c: char)
    requires !ws(c) && c in s
    ensures c in StripStart(s, ws)
  {
    if ws(s[0]) {
      assert s == [s[0]] + s[1..];
      StripStartKeeps(s[1..], ws, c);
    }
  }

  lemma {:induction false} StripEndKeeps(s: string, ws: char -> bool, c: char)
    requires !ws(c) && c in s
    ensures c in StripEnd(s, ws)
  {
    if ws(s[|s| - 1]) {
      assert s == s[..|s| - 1] + [s[|s| - 1]];
      StripEndKeeps(s[..|s| - 1], ws, c);
    }
  }

  lemma TrimKeeps(s: string, c: char)
    requires !IsWhitespace(c) && c in s
    ensures c in Trim(s)
  {
    TrimIsStrip(s);
    StripStartKeeps(s, IsWhitespace, c);
    StripEndKeeps(StripStart(s, IsWhitespace), IsWhitespace, c);
  }

  // ----- stripping before or after splitting -----

  lemma {:induction false} SplitPrepend(w: char, s: string, c: char)
    requires w != c
    ensures Split([w] + s, c) == [[w] + Split(s, c)[0]] + Split(s, c)[1..]
  {
    assert ([w] + s)[1..] == s;
    var i := IndexOf(s, c);
    if i < |s| {
      assert ([w] + s)[..i + 1] == [w] + s[..i];
      assert ([w] + s)[i + 2..] == s[i + 1..];
    }
  }

  lemma {:induction false} SplitAppend(s: string, w: char, c: char)
    requires w != c
    ensures var pieces := Split(s, c);
      Split(s + [w], c) == pieces[..|pieces| - 1] + [pieces[|pieces| - 1] + [w]]
    decreases |s|
  {
    var i := IndexOf(s, c);
    if i == |s| {
      assert c !in s + [w];
      IndexOfAbsent(s + [w], c);
    } else {
      var tail := s[i + 1..];
      SplitAppend(tail, w, c);
      Rejoined(s, i, w);
      SplitCons(s[..i], c, tail + [w]);
      LastOf(s[..i], Split(tail, c), w);
    }
  }

  lemma Rejoined(s: string, i: nat, w: char)
    requires i < |s|
    ensures s + [w] == s[..i] + [s[i]] + (s[i + 1..] + [w])
  {
  }

  lemma LastOf(first: string, pieces: seq<string>, w: char)
    requires pieces != []
    ensures var all := [first] + pieces;
      all[..|all| - 1] + [all[|all| - 1] + [w]] == [first] + (pieces[..|pieces| - 1] + [pieces[|pieces| - 1] + [w]])
  {
  }

  lemma {:induction false} StripStartAppend(s: string, w: char, ws: char -> bool)
    requires ws(w)
    ensures StripStart(s + [w], ws) == (if StripStart(s, ws) == "" then "" else StripStart(s, ws) + [w])
  {
    if s == "" {
      assert s + [w] == [w] && [w][1..] == "";
    } else {
      assert (s + [w])[1..] == s[1..] + [w];
      if ws(s[0]) { StripStartAppend(s[1..], w, ws); }
    }
  }

  lemma StripOutside(s: string, w: char, ws: char -> bool)
    requires ws(w)
    ensures Strip([w] + s, ws) == Strip(s, ws) && Strip(s + [w], ws) == Strip(s, ws)
  {
    assert ([w] + s)[1..] == s;
    StripStartAppend(s, w, ws);
    var t := StripStart(s, ws);
    assert (t + [w])[..|t|] == t;
  }

  lemma {:induction false} SplitStart(s: string, c: char, ws: char -> bool)
    requires !ws(c)
    ensures StripAll(Split(StripStart(s, ws), c), ws) == StripAll(Split(s, c), ws)
    decreases |s|
  {
    if s != "" && ws(s[0]) {
      var rest := s[1..];
      SplitStart(rest, c, ws);
      assert s == [s[0]] + rest;
      SplitPrepend(s[0], rest, c);
      StripOutside(Split(rest, c)[0], s[0], ws);
    }
  }

  lemma {:induction false} SplitEnd(s: string, c: char, ws: char -> bool)
    requires !ws(c)
    ensures StripAll(Split(StripEnd(s, ws), c), ws) == StripAll(Split(s, c), ws)
    decreases |s|
  {
    if s != "" && ws(s[|s| - 1]) {
      var front, w := s[..|s| - 1], s[|s| - 1];
      SplitEnd(front, c, ws);
      assert s == front + [w];
      SplitAppend(front, w, c);
      LastStripped(Split(front, c), w, ws);
    }
  }

  lemma LastStripped(pieces: seq<string>, w: char, ws: char -> bool)
    requires pieces != [] && ws(w)
    ensures var last := pieces[|pieces| - 1];
      StripAll(pieces[..|pieces| - 1] + [last + [w]], ws) == StripAll(pieces, ws)
  {
    StripOutside(pieces[|pieces| - 1], w, ws);
  }

  lemma SplitStripped(s: string, c: char, ws: char -> bool)
    requires !ws(c)
    ensures StripAll(Split(Strip(s, ws), c), ws) == StripAll(Split(s, c), ws)
  {
    SplitStart(s, c, ws);
    SplitEnd(StripStart(s, ws), c, ws);
  }

  // ----- modifiers -----

  lemma SameTables(name: string)
    ensures PyModifier(name) == ModifierCode(name) && PyMacro(name) == ModTapMacro(name)
  {
  }

  lemma ModifierText(name: string)
    requires ModifierCode(name).Some?
    ensures NoSpace(name) && '(' !in name
  {
  }

  lemma {:induction false} SameMods(names: seq<string>, mods: nat)
    ensures PyMods(names, mods) == OrModifiers(names, mods)
    decreases |names|
  {
    if names != [] {
      SameTables(names[0]);
      if ModifierCode(names[0]).Some? { SameMods(names[1..], BitOr(mods, ModifierCode(names[0]).value)); }
    }
  }

  lemma {:induction false} AllModifiers(names: seq<string>, mods: nat, i: nat)
    requires OrModifiers(names, mods).Some? && i < |names|
    ensures ModifierCode(names[i]).Some?
    decreases |names|
  {
    if i > 0 { AllModifiers(names[1..], BitOr(mods, ModifierCode(names[0]).value), i - 1); }
  }

  function RustMods(modifier: string): Option<nat> { OrModifiers(TrimAll(Split(modifier, '|')), 0) }

  function GeneratorMods(modifier: string): Option<nat> { PyMods(StripAll(Split(modifier, '|'), PySpace), 0) }

  // Modifiers that the live tool accepts mean the same to the generator.
  lemma ModifiersAgree(modifier: string)
    requires RustMods(Trim(modifier)).Some?
    ensures GeneratorMods(PyStrip(modifier)) == RustMods(Trim(modifier))
  {
    var pieces, trimmed := Split(modifier, '|'), TrimAll(Split(Trim(modifier), '|'));
    TrimIsStrip(modifier);
    forall i | 0 <= i < |Split(Trim(modifier), '|')|
      ensures trimmed[i] == StripAll(Split(Trim(modifier), '|'), IsWhitespace)[i]
    {
      TrimIsStrip(Split(Trim(modifier), '|')[i]);
    }
    assert trimmed == StripAll(Split(Trim(modifier), '|'), IsWhitespace);
    SplitStripped(modifier, '|', IsWhitespace);
    SplitStripped(modifier, '|', PySpace);
    forall i | 0 <= i < |pieces| ensures StripAll(pieces, PySpace)[i] == trimmed[i] {
      AllModifiers(trimmed, 0, i);
      TrimIsStrip(pieces[i]);
      ModifierText(trimmed[i]);
      SameStrip(pieces[i]);
    }
    assert StripAll(pieces, PySpace) == trimmed;
    SameMods(trimmed, 0);
  }

  lemma ModifierHasNoCall(modifier: string)
    requires RustMods(Trim(modifier)).Some?
    ensures '(' !in modifier
  {
    if '(' in modifier {
      TrimKeeps(modifier, '(');
      var i := PieceWith(Trim(modifier), '|', '(');
      TrimKeeps(Split(Trim(modifier), '|')[i], '(');
      AllModifiers(TrimAll(Split(Trim(modifier), '|')), 0, i);
      ModifierText(TrimAll(Split(Trim(modifier), '|'))[i]);
    }
  }

  lemma {:induction false} PieceWith(s: string, c: char, x: char) returns (i: nat)
    requires x != c && x in s
    ensures i < |Split(s, c)| && x in Split(s, c)[i]
    decreases |s|
  {
    var k := IndexOf(s, c);
    if k == |s| || x in s[..k] {
      i := 0;
    } else {
      assert s == s[..k] + [c] + s[k + 1..];
      var j := PieceWith(s[k + 1..], c, x);
      i := j + 1;
    }
  }

  // ----- numbers -----

  lemma {:induction false} DecimalValue(n: nat, digits: Digits)
    requires UnicodeDigits(digits)
    ensures AllDigits(Decimal(n), digits) && IntOf(Decimal(n), digits) == n
  {
    var s := Decimal(n);
    forall i | 0 <= i < |s| ensures digits(s[i]).Some? { assert '0' <= s[i] <= '9'; }
    if n >= 10 {
      DecimalValue(n / 10, digits);
      IntOfLast(Decimal(n / 10), s[|s| - 1], digits, 0);
      assert s == Decimal(n / 10) + [s[|s| - 1]];
    } else {
      assert s[1..] == "" && IntOf(s[1..], digits, n) == n;
    }
  }

  lemma {:induction false} IntOfLast(s: string, c: char, digits: Digits, value: nat)
    requires digits(c).Some? && forall i :: 0 <= i < |s| ==> digits(s[i]).Some?
    ensures forall i :: 0 <= i < |s + [c]| ==> digits((s + [c])[i]).Some?
    ensures IntOf(s + [c], digits, value) == IntOf(s, digits, value) * 10 + digits(c).value
    decreases |s|
  {
    if s == "" {
      assert s + [c] == [c] && [c][1..] == "";
    } else {
      assert (s + [c])[1..] == s[1..] + [c];
      IntOfLast(s[1..], c, digits, value * 10 + digits(s[0]).value);
    }
  }

  lemma {:induction false} ParseIsInt(s: string, digits: Digits, value: nat)
    requires UnicodeDigits(digits) && value < 0x100 && ParseDigits(s, value).Some?
    requires forall i :: 0 <= i < |s| ==> digits(s[i]).Some?
    ensures ParseDigits(s, value) == Some(IntOf(s, digits, value))
  {
    if s != "" { ParseIsInt(s[1..], digits, value * 10 + digits(s[0]).value); }
  }

  lemma ParsedNumber(s: string, digits: Digits)
    requires UnicodeDigits(digits) && AllDigits(s, digits) && ParseU8(s).Some?
    ensures ParseU8(s) == Some(IntOf(s, digits))
  {
    assert digits(s[0]).Some?;
    assert s[0] != '+';
    ParseIsInt(s, digits, 0);
  }

  lemma {:induction false} ParsedIsDigits(s: string, value: nat)
    requires value < 0x100 && ParseDigits(s, value).Some?
    ensures forall i :: 0 <= i < |s| ==> '0' <= s[i] <= '9'
  {
    if s != "" {
      ParsedIsDigits(s[1..], value * 10 + Digit(s[0]).value);
      assert s == [s[0]] + s[1..];
    }
  }

  lemma ParsedText(s: string)
    requires ParseU8(s).Some?
    ensures NoParens(s) && s[0] != '_'
  {
    if s[0] == '+' {
      ParsedIsDigits(s[1..], 0);
      assert s == ['+'] + s[1..];
    } else {
      ParsedIsDigits(s, 0);
    }
  }

  // ----- replacing layer names -----

  ghost predicate OccursAt(s: string, part: string, p: nat)
  {
    p + |part| <= |s| && s[p..p + |part|] == part
  }

  lemma {:induction false} ReplaceAbsent(s: string, part: string, other: string)
    requires part != "" && forall p :: !OccursAt(s, part, p)
    ensures Replace(s, part, other) == s
    decreases |s|
  {
    if |s| >= |part| {
      assert !OccursAt(s, part, 0);
      forall p: nat ensures !OccursAt(s[1..], part, p) {
        assert !OccursAt(s, part, p + 1);
        if p + |part| <= |s[1..]| { assert s[1..][p..p + |part|] == s[p + 1..p + 1 + |part|]; }
      }
      ReplaceAbsent(s[1..], part, other);
    }
  }

  // A call whose text has one opening parenthesis.
  ghost predicate OneCall(function_: string, argument: string, rest: string, end: string)
  {
    && '(' !in function_ && '(' !in argument && '(' !in rest
    && |end| == 1 && end <= rest && end[0] !in argument
  }

  lemma CallAt(f: string, a: string, rest: string)
    ensures var s := LayerCall(f, a, rest);
      |s| == |f| + 1 + |a| + |rest| && s[..|f|] == f && s[|f|] == '('
      && s[|f| + 1..] == a + rest && s[|f| + 1..|f| + 1 + |a|] == a && s[|f| + 1 + |a|..] == rest
  {
  }

  lemma NoOtherParen(f: string, a: string, rest: string, p: nat)
    requires '(' !in f && '(' !in a && '(' !in rest && p < |LayerCall(f, a, rest)|
    ensures LayerCall(f, a, rest)[p] == '(' <==> p == |f|
  {
    CallAt(f, a, rest);
    var s := LayerCall(f, a, rest);
    if p < |f| { assert s[p] == f[p]; }
    if p > |f| {
      assert s[p] == (a + rest)[p - |f| - 1];
    }
  }

  // A layer name occurs in a call only as its own first argument.
  lemma OnlyOwnName(f: string, a: string, rest: string, end: string, g: string, id: string, e: string, p: nat)
    requires OneCall(f, a, rest, end) && '(' !in g && |e| == 1
    requires e[0] !in id
    requires OccursAt(LayerCall(f, a, rest), LayerCall(g, id, e), p)
    ensures p + |g| == |f| && f[p..] == g
    ensures e == end ==> a == id
  {
    var s, part := LayerCall(f, a, rest), LayerCall(g, id, e);
    CallAt(f, a, rest);
    CallAt(g, id, e);
    assert s[p + |g|] == part[|g|] == '(';
    NoOtherParen(f, a, rest, p + |g|);
    assert f[p..] == s[p..p + |g|] == part[..|g|] == g;
    var tail := s[p + |g| + 1..p + |part|];
    assert tail == part[|g| + 1..] == id + e;
    assert tail == (a + rest)[..|id| + 1];
    if e == end {
      SameFirst(a, rest, id, end);
    }
  }

  lemma SameFirst(a: string, rest: string, id: string, end: string)
    requires |end| == 1 && end <= rest && end[0] !in a && end[0] !in id
    requires |id| + 1 <= |a + rest| && (a + rest)[..|id| + 1] == id + end
    ensures a == id
  {
    var s := a + rest;
    assert s[..|a|] == a && s[|a|] == end[0];
    assert s[..|id|] == (id + end)[..|id|] == id && s[|id|] == (id + end)[|id|] == end[0];
    assert forall j :: 0 <= j < |a| ==> s[j] == a[j];
    assert forall j :: 0 <= j < |id| ==> s[j] == s[..|id|][j];
    FirstPlace(s, |a|, |id|, end[0]);
  }

  lemma FirstPlace(s: string, i: nat, k: nat, c: char)
    requires i < |s| && s[i] == c && forall j :: 0 <= j < i ==> s[j] != c
    requires k < |s| && s[k] == c && forall j :: 0 <= j < k ==> s[j] != c
    ensures i == k
  {
  }

  // Function name f ends in g.
  ghost predicate Ends(f: string, g: string) { |g| <= |f| && f[|f| - |g|..] == g }

  lemma ReplaceElsewhere(
    f: string, a: string, rest: string, end: string, g: string, name: string, index: nat, e: string)
    requires OneCall(f, a, rest, end) && '(' !in g && (e == ")" || e == ",")
    requires !Ends(f, g) || (e == end && a != CIdent(name))
    ensures ReplaceCall(LayerCall(f, a, rest), g, name, index, e) == LayerCall(f, a, rest)
  {
    var s, part := LayerCall(f, a, rest), LayerCall(g, CIdent(name), e);
    forall p: nat ensures !OccursAt(s, part, p) {
      if OccursAt(s, part, p) { OnlyOwnName(f, a, rest, end, g, CIdent(name), e, p); }
    }
    ReplaceAbsent(s, part, LayerCall(g, Decimal(index), e));
  }

  lemma CallHasParen(s: string, f: string, id: string, end: string, p: nat)
    requires OccursAt(s, LayerCall(f, id, end), p)
    ensures '(' in s
  {
    CallAt(f, id, end);
    assert s[p + |f|] == LayerCall(f, id, end)[|f|];
  }

  lemma ReplaceHere(f: string, rest: string, end: string, name: string, index: nat)
    requires OneCall(f, CIdent(name), rest, end) && (end == ")" || end == ",")
    ensures ReplaceCall(LayerCall(f, CIdent(name), rest), f, name, index, end) == LayerCall(f, Decimal(index), rest)
  {
    var id, more := CIdent(name), rest[1..];
    var part, other := LayerCall(f, id, end), LayerCall(f, Decimal(index), end);
    var s := LayerCall(f, id, rest);
    assert rest == end + more;
    assert '(' !in more;
    assert s == part + more;
    assert s[..|part|] == part && s[|part|..] == more;
    forall p: nat ensures !OccursAt(more, part, p) {
      if OccursAt(more, part, p) { CallHasParen(more, f, id, end, p); }
    }
    ReplaceAbsent(more, part, other);
    assert other + more == LayerCall(f, Decimal(index), rest);
  }

  // ----- all layer names -----

  ghost predicate LayerFunction(f: string, end: string)
  {
    ((f == "MO" || f == "TO") && end == ")") || (f == "LT" && end == ",")
  }

  lemma ReplaceLayerOnce(f: string, a: string, rest: string, end: string, name: string, index: nat)
    requires OneCall(f, a, rest, end) && LayerFunction(f, end)
    ensures ReplaceLayer(LayerCall(f, a, rest), name, index)
         == LayerCall(f, if a == CIdent(name) then Decimal(index) else a, rest)
  {
    var b := if a == CIdent(name) then Decimal(index) else a;
    if a == CIdent(name) {
      ReplaceHere(f, rest, end, name, index);
    } else {
      ReplaceElsewhere(f, a, rest, end, f, name, index, end);
    }
    if f != "MO" {
      ReplaceElsewhere(f, a, rest, end, "MO", name, index, ")");
    }
    if f == "MO" || f == "TO" {
      ReplaceElsewhere(f, if f == "MO" then b else a, rest, end, "LT", name, index, ",");
    }
    if f != "TO" {
      ReplaceElsewhere(f, b, rest, end, "TO", name, index, ")");
    }
  }

  // The first argument once layer names have become indices: the index of the
  // first name that is spelled like it.
  function Named(a: string, names: seq<string>): string
    decreases |names|
  {
    if names == [] then a
    else
      var b := Named(a, names[..|names| - 1]);
      if b == CIdent(names[|names| - 1]) then Decimal(|names| - 1) else b
  }

  ghost predicate DistinctIdents(names: seq<string>)
  {
    forall i, j :: 0 <= i < j < |names| ==> CIdent(names[i]) != CIdent(names[j])
  }

  ghost predicate FirstSpelled(a: string, names: seq<string>, i: nat)
  {
    i < |names| && a == CIdent(names[i]) && forall j :: 0 <= j < i ==> a != CIdent(names[j])
  }

  // For any names: the first one with that identifier counts.
  lemma {:induction false} NamedIsFirst(a: string, names: seq<string>)
    ensures forall i: nat :: FirstSpelled(a, names, i) ==> Named(a, names) == Decimal(i)
    ensures (forall i :: 0 <= i < |names| ==> a != CIdent(names[i])) ==> Named(a, names) == a
    ensures Named(a, names) == a
      || exists i: nat :: i < |names| && a == CIdent(names[i]) && Named(a, names) == Decimal(i)
    decreases |names|
  {
    if names != [] {
      var front := names[..|names| - 1];
      NamedIsFirst(a, front);
      forall i: nat | FirstSpelled(a, names, i) ensures i == |front| || FirstSpelled(a, front, i) {
      }
      if Named(a, front) != a {
        var i: nat :| i < |front| && a == CIdent(front[i]) && Named(a, front) == Decimal(i);
        assert names[i] == front[i];
      }
    }
  }

  lemma NamedMeans(a: string, names: seq<string>)
    requires DistinctIdents(names)
    ensures forall i :: 0 <= i < |names| && a == CIdent(names[i]) ==> Named(a, names) == Decimal(i)
    ensures (forall i :: 0 <= i < |names| ==> a != CIdent(names[i])) ==> Named(a, names) == a
    ensures Named(a, names) == a || exists i :: 0 <= i < |names| && a == CIdent(names[i])
  {
    NamedIsFirst(a, names);
    forall i: nat | i < |names| && a == CIdent(names[i]) ensures FirstSpelled(a, names, i) {
    }
  }

  lemma {:induction false} LayersReplaced(f: string, a: string, rest: string, end: string, names: seq<string>)
    requires OneCall(f, a, rest, end) && LayerFunction(f, end)
    ensures ReplaceLayers(LayerCall(f, a, rest), names) == LayerCall(f, Named(a, names), rest)
    ensures OneCall(f, Named(a, names), rest, end)
    decreases |names|
  {
    if names != [] {
      var front, last := names[..|names| - 1], names[|names| - 1];
      LayersReplaced(f, a, rest, end, front);
      ReplaceLayerOnce(f, Named(a, front), rest, end, last, |front|);
    }
  }

  lemma {:induction false} OtherCallUnchanged(f: string, inner: string, names: seq<string>)
    requires '(' !in f && '(' !in inner && !Ends(f, "MO") && !Ends(f, "LT") && !Ends(f, "TO")
    ensures ReplaceLayers(LayerCall(f, inner, ")"), names) == LayerCall(f, inner, ")")
    decreases |names|
  {
    if names != [] {
      var name, index := names[|names| - 1], |names| - 1;
      OtherCallUnchanged(f, inner, names[..index]);
      OtherCallKept(f, inner, "MO", name, index, ")");
      OtherCallKept(f, inner, "LT", name, index, ",");
      OtherCallKept(f, inner, "TO", name, index, ")");
    }
  }

  lemma OtherCallKept(f: string, inner: string, g: string, name: string, index: nat, e: string)
    requires '(' !in f && '(' !in inner && '(' !in g && !Ends(f, g) && (e == ")" || e == ",")
    ensures ReplaceCall(LayerCall(f, inner, ")"), g, name, index, e) == LayerCall(f, inner, ")")
  {
    var s, part := LayerCall(f, inner, ")"), LayerCall(g, CIdent(name), e);
    forall p: nat ensures !OccursAt(s, part, p) {
      if OccursAt(s, part, p) { OnlyOwnFunction(f, inner, g, CIdent(name), e, p); }
    }
    ReplaceAbsent(s, part, LayerCall(g, Decimal(index), e));
  }

  lemma OnlyOwnFunction(f: string, inner: string, g: string, id: string, e: string, p: nat)
    requires '(' !in f && '(' !in inner && '(' !in g
    requires OccursAt(LayerCall(f, inner, ")"), LayerCall(g, id, e), p)
    ensures Ends(f, g)
  {
    var s, part := LayerCall(f, inner, ")"), LayerCall(g, id, e);
    CallAt(f, inner, ")");
    CallAt(g, id, e);
    assert s[p + |g|] == part[|g|] == '(';
    NoOtherParen(f, inner, ")", p + |g|);
    assert f[p..] == s[p..p + |g|] == part[..|g|] == g;
  }

  lemma {:induction false} NoCallUnchanged(code: string, names: seq<string>)
    requires '(' !in code
    ensures ReplaceLayers(code, names) == code
    decreases |names|
  {
    if names != [] {
      var name, index := names[|names| - 1], |names| - 1;
      NoCallUnchanged(code, names[..index]);
      NoCallKept(code, "MO", name, index, ")");
      NoCallKept(code, "LT", name, index, ",");
      NoCallKept(code, "TO", name, index, ")");
    }
  }

  lemma NoCallKept(code: string, g: string, name: string, index: nat, e: string)
    requires '(' !in code
    ensures ReplaceCall(code, g, name, index, e) == code
  {
    var part := LayerCall(g, CIdent(name), e);
    forall p: nat ensures !OccursAt(code, part, p) {
      if OccursAt(code, part, p) { CallHasParen(code, g, CIdent(name), e, p); }
    }
    ReplaceAbsent(code, part, LayerCall(g, Decimal(index), e));
  }
}
