// Where the generator and the live tool both accept a key, they agree on its
// code, except for labels that the generator rewrites and the catalog names.
module EncoderAgreement {
  import opened Wrappers
  import opened Text
  import opened Keycode
  import opened KeycodeProofs
  import opened Encoder
  import opened EncoderProofs

  predicate Rewritten(key: string, aliases: Aliases) { key in aliases || BareKey(key) }

  // One catalog and one layer table behind both encoders. `names` are the
  // layers' names in order; `layers` maps names and identifiers to indices.
  ghost predicate CatalogFits(catalog: Catalog)
  {
    forall i :: 0 <= i < |catalog| ==> NoParens(catalog[i].name) && NoSpace(catalog[i].name)
  }

  ghost predicate LayersFit(layers: Layers, aliases: Aliases, names: seq<string>, digits: Digits)
  {
    forall x :: x in layers ==>
      && NoParens(x)
      && (AllDigits(x, digits) ==> layers[x] == IntOf(x, digits))
      && (Rewritten(x, aliases) ==> x in names)
  }

  ghost predicate NamesFit(names: seq<string>, layers: Layers, catalog: Catalog)
  {
    && DistinctIdents(names)
    && (forall i :: 0 <= i < |names| ==>
      && '(' !in names[i] && Get(catalog, names[i]).None?
      && (names[i] in layers ==> layers[names[i]] == i)
      && (CIdent(names[i]) in layers ==> layers[CIdent(names[i])] == i))
  }

  ghost predicate AliasesFit(aliases: Aliases)
  {
    forall key :: key in aliases ==> SplitCall(key).None? && '(' !in aliases[key]
  }

  ghost predicate Consistent(names: seq<string>, layers: Layers, aliases: Aliases, catalog: Catalog, digits: Digits)
  {
    && UnicodeDigits(digits) && CatalogFits(catalog) && AliasesFit(aliases)
    && LayersFit(layers, aliases, names, digits) && NamesFit(names, layers, catalog)
  }

  // ----- taps -----

  lemma {:induction false} GetMember(catalog: Catalog, name: string)
    requires CatalogFits(catalog) && Get(catalog, name).Some?
    ensures NoParens(name) && NoSpace(name)
  {
    if catalog[0].name != name {
      assert forall i :: 0 <= i < |catalog[1..]| ==> catalog[1..][i] == catalog[i + 1];
      GetMember(catalog[1..], name);
    }
  }

  lemma {:induction false} OrAtLeast(a: nat, b: nat)
    ensures BitOr(a, b) >= a
  {
    if a != 0 || b != 0 { OrAtLeast(a / 2, b / 2); }
  }

  // Only the catalog gives codes up to 0xff.
  lemma LowCodeIsNamed(e: string, layers: Layers, catalog: Catalog)
    requires ResolveKeycode(e, layers, catalog).Some? && ResolveKeycode(e, layers, catalog).value <= 0xff
    ensures Get(catalog, e).Some?
  {
    if Get(catalog, e).None? {
      if e in layers {
        OrAtLeast(0x5220, layers[e]);
      } else {
        var (name, inner) := SplitCall(e).value;
        CallIsHigh(name, TrimAll(Split(inner, ',')), |inner|, layers, catalog);
      }
    }
  }

  lemma CallIsHigh(name: string, arguments: seq<string>, length: nat, layers: Layers, catalog: Catalog)
    requires forall i :: 0 <= i < |arguments| ==> |arguments[i]| <= length
    requires ResolveCall(name, arguments, length, layers, catalog).Some?
    ensures ResolveCall(name, arguments, length, layers, catalog).value > 0xff
  {
    if name == "TO" && |arguments| == 1 {
      OrAtLeast(0x5200, ResolveLayer(arguments[0], layers).value);
    } else if name == "MO" && |arguments| == 1 {
      OrAtLeast(0x5220, ResolveLayer(arguments[0], layers).value);
    } else if name == "LT" && |arguments| == 2 {
      LayerTapIsHigh(ResolveLayer(arguments[0], layers), ResolveKeycode(arguments[1], layers, catalog));
    } else if name == "MT" && |arguments| == 2 {
      ModTapIsHigh(arguments[0], arguments[1], layers, catalog);
    } else {
      ModTapIsHigh(ModTapMacro(name).value, arguments[0], layers, catalog);
    }
  }

  lemma PackAtLeast(base: nat, high: nat, tap: nat)
    ensures PackTap(base, high, tap) >= base
  {
    OrAtLeast(base, high * 0x100);
    OrAtLeast(BitOr(base, high * 0x100), tap);
  }

  lemma LayerTapIsHigh(layer: Option<nat>, tap: Option<nat>)
    requires PackLayerTap(layer, tap).Some?
    ensures PackLayerTap(layer, tap).value > 0xff
  {
    PackAtLeast(0x4000, layer.value, tap.value);
  }

  lemma ModTapIsHigh(modifier: string, tap: string, layers: Layers, catalog: Catalog)
    requires ModTapKeycode(modifier, tap, layers, catalog).Some?
    ensures ModTapKeycode(modifier, tap, layers, catalog).value > 0xff
  {
    var mods, code := RustMods(modifier), ResolveKeycode(tap, layers, catalog);
    PackAtLeast(0x2000, mods.value % 32, code.value);
  }

  // The live tool accepts a tap only if the catalog names it; then the
  // generator reads the same.
  lemma TapAgrees(tap: string, layers: Layers, catalog: Catalog, digits: Digits)
    requires CatalogFits(catalog)
    requires ResolveKeycode(Trim(tap), layers, catalog).Some?
    requires ResolveKeycode(Trim(tap), layers, catalog).value <= 0xff
    ensures NoParens(tap) && ViaKeycode(PyStrip(tap), catalog, digits) == ResolveKeycode(Trim(tap), layers, catalog)
  {
    LowCodeIsNamed(Trim(tap), layers, catalog);
    GetMember(catalog, Trim(tap));
    SameStrip(tap);
    if '(' in tap { TrimKeeps(tap, '('); }
    if ')' in tap { TrimKeeps(tap, ')'); }
    IndexOfAbsent(Trim(tap), '(');
  }

  // ----- calls -----

  lemma SplitCallOf(f: string, inner: string)
    requires '(' !in f
    ensures SplitCall(LayerCall(f, inner, ")")) == Some((f, inner))
  {
    var e := LayerCall(f, inner, ")");
    assert e == f + ['('] + (inner + ")");
    IndexOfAt(f, '(', inner + ")");
    assert e[|f| + 1..] == inner + ")";
    assert (inner + ")")[..|inner|] == inner && e[..|f|] == f;
  }

  lemma CallNotNamed(f: string, inner: string, catalog: Catalog)
    requires CatalogFits(catalog)
    ensures Lookup(LayerCall(f, inner, ")"), catalog) == None
  {
    var e := LayerCall(f, inner, ")");
    assert e[|f|] == '(';
    if Get(catalog, e).Some? { GetMember(catalog, e); }
  }

  // A layer argument that both accept is the same layer.
  lemma LayerAgrees(a: string, names: seq<string>, layers: Layers, aliases: Aliases, catalog: Catalog, digits: Digits)
    requires Consistent(names, layers, aliases, catalog, digits)
    requires ResolveLayer(Trim(a), layers).Some? && AllDigits(Named(a, names), digits)
    ensures ResolveLayer(Trim(a), layers) == Some(IntOf(Named(a, names), digits))
  {
    NamedMeans(a, names);
    if Named(a, names) != a {
      var i :| 0 <= i < |names| && a == CIdent(names[i]);
      DecimalValue(i, digits);
    } else {
      assert NoSpace(a);
      if a !in layers { ParsedNumber(a, digits); }
    }
  }

  lemma LayerText(a: string, names: seq<string>, layers: Layers, aliases: Aliases, digits: Digits)
    requires LayersFit(layers, aliases, names, digits) && ResolveLayer(Trim(a), layers).Some?
    ensures NoParens(a)
  {
    if Trim(a) !in layers { ParsedText(Trim(a)); }
    if '(' in a { TrimKeeps(a, '('); }
    if ')' in a { TrimKeeps(a, ')'); }
  }

  lemma TwoPieces(inner: string) returns (a: string, b: string)
    requires |Split(inner, ',')| == 2
    ensures inner == a + "," + b && ',' !in a && ',' !in b
    ensures TrimAll(Split(inner, ',')) == [Trim(a), Trim(b)]
    ensures IndexOf(inner, ',') == |a| < |inner| && inner[..|a|] == a && inner[|a| + 1..] == b
  {
    var i := IndexOf(inner, ',');
    a, b := inner[..i], inner[i + 1..];
    assert Split(inner, ',') == [a] + Split(b, ',');
    assert |Split(b, ',')| == 1;
    assert Split(b, ',') == [b];
    assert b[..IndexOf(b, ',')] == b;
  }

  // `TO` and `MO`
  lemma LayerMoveAgrees(
    f: string, inner: string, names: seq<string>, layers: Layers, aliases: Aliases, catalog: Catalog,
    digits: Digits)
    requires Consistent(names, layers, aliases, catalog, digits) && (f == "TO" || f == "MO")
    requires |Split(inner, ',')| == 1
    requires ResolveCall(f, [Trim(inner)], |inner|, layers, catalog).Some?
    requires ViaKeycode(ReplaceLayers(LayerCall(f, inner, ")"), names), catalog, digits).Some?
    ensures ViaKeycode(ReplaceLayers(LayerCall(f, inner, ")"), names), catalog, digits)
         == ResolveCall(f, [Trim(inner)], |inner|, layers, catalog)
  {
    LayerText(inner, names, layers, aliases, digits);
    LayersReplaced(f, inner, ")", ")", names);
    ViaLayerMove(f, Named(inner, names), catalog, digits);
    LayerAgrees(inner, names, layers, aliases, catalog, digits);
  }

  lemma ViaLayerMove(f: string, a: string, catalog: Catalog, digits: Digits)
    requires CatalogFits(catalog) && (f == "TO" || f == "MO")
    requires ViaKeycode(LayerCall(f, a, ")"), catalog, digits).Some?
    ensures AllDigits(a, digits)
    ensures f == "TO" ==> IntOf(a, digits) <= 31
    ensures ViaKeycode(LayerCall(f, a, ")"), catalog, digits)
         == Some(BitOr(if f == "TO" then 0x5200 else 0x5220, IntOf(a, digits)))
  {
    SplitCallOf(f, a);
    CallNotNamed(f, a, catalog);
  }

  lemma LayerTapAgrees(
    inner: string, names: seq<string>, layers: Layers, aliases: Aliases, catalog: Catalog, digits: Digits)
    requires Consistent(names, layers, aliases, catalog, digits)
    requires |Split(inner, ',')| == 2
    requires ResolveCall("LT", TrimAll(Split(inner, ',')), |inner|, layers, catalog).Some?
    requires ViaKeycode(ReplaceLayers(LayerCall("LT", inner, ")"), names), catalog, digits).Some?
    ensures ViaKeycode(ReplaceLayers(LayerCall("LT", inner, ")"), names), catalog, digits)
         == ResolveCall("LT", TrimAll(Split(inner, ',')), |inner|, layers, catalog)
  {
    var a, b := TwoPieces(inner);
    LayerText(a, names, layers, aliases, digits);
    TapAgrees(b, layers, catalog, digits);
    LayerTapReplaced(a, b, names);
    ViaLayerTap(Named(a, names), b, catalog, digits);
    LayerAgrees(a, names, layers, aliases, catalog, digits);
  }

  lemma LayerTapReplaced(a: string, b: string, names: seq<string>)
    requires '(' !in a && ',' !in a && '(' !in b
    ensures ReplaceLayers(LayerCall("LT", a + "," + b, ")"), names) == LayerCall("LT", Named(a, names) + "," + b, ")")
    ensures '(' !in Named(a, names) && ',' !in Named(a, names)
  {
    var rest := "," + b + ")";
    var n := Named(a, names);
    LayersReplaced("LT", a, rest, ",", names);
    PairCall("LT", a, b);
    PairCall("LT", n, b);
  }

  lemma PairCall(f: string, a: string, b: string)
    ensures LayerCall(f, a + "," + b, ")") == LayerCall(f, a, "," + b + ")")
  {
  }

  lemma ViaLayerTap(n: string, b: string, catalog: Catalog, digits: Digits)
    requires CatalogFits(catalog) && ',' !in n && NoParens(b)
    requires ViaKeycode(LayerCall("LT", n + "," + b, ")"), catalog, digits).Some?
    ensures AllDigits(n, digits)
    ensures ViaKeycode(LayerCall("LT", n + "," + b, ")"), catalog, digits)
         == PyLayerTap(IntOf(n, digits), b, catalog, digits)
  {
    var inner := n + "," + b;
    SplitCallOf("LT", inner);
    CallNotNamed("LT", inner, catalog);
    PairOf(n, b);
  }

  lemma ViaModTap(a: string, b: string, catalog: Catalog, digits: Digits)
    requires CatalogFits(catalog) && ',' !in a && NoParens(b)
    requires ViaKeycode(LayerCall("MT", a + "," + b, ")"), catalog, digits).Some?
    ensures ViaKeycode(LayerCall("MT", a + "," + b, ")"), catalog, digits) == PyModTap(PyStrip(a), b, catalog, digits)
  {
    var inner := a + "," + b;
    SplitCallOf("MT", inner);
    CallNotNamed("MT", inner, catalog);
    PairOf(a, b);
  }

  lemma PairOf(a: string, b: string)
    requires ',' !in a && NoParens(b)
    ensures SplitPair(a + "," + b) == if a == "" || b == "" then None else Some((a, b))
  {
    var inner := a + "," + b;
    assert inner == a + [','] + b;
    IndexOfAt(a, ',', b);
    assert inner[..|a|] == a && inner[|a| + 1..] == b;
  }

  lemma ModTapAgrees(modifier: string, tap: string, layers: Layers, catalog: Catalog, digits: Digits)
    requires CatalogFits(catalog) && ModTapKeycode(Trim(modifier), Trim(tap), layers, catalog).Some?
    ensures PyModTap(PyStrip(modifier), tap, catalog, digits)
         == ModTapKeycode(Trim(modifier), Trim(tap), layers, catalog)
    ensures '(' !in modifier && NoParens(tap)
  {
    ModifiersAgree(modifier);
    ModifierHasNoCall(modifier);
    TapAgrees(tap, layers, catalog, digits);
  }

  lemma NamedModTapAgrees(inner: string, names: seq<string>, layers: Layers, catalog: Catalog, digits: Digits)
    requires CatalogFits(catalog) && |Split(inner, ',')| == 2
    requires ResolveCall("MT", TrimAll(Split(inner, ',')), |inner|, layers, catalog).Some?
    requires ViaKeycode(ReplaceLayers(LayerCall("MT", inner, ")"), names), catalog, digits).Some?
    ensures ViaKeycode(ReplaceLayers(LayerCall("MT", inner, ")"), names), catalog, digits)
         == ResolveCall("MT", TrimAll(Split(inner, ',')), |inner|, layers, catalog)
  {
    var a, b := TwoPieces(inner);
    ModTapAgrees(a, b, layers, catalog, digits);
    OtherCallUnchanged("MT", inner, names);
    ViaModTap(a, b, catalog, digits);
  }

  lemma MacroShape(f: string)
    requires ModTapMacro(f).Some?
    ensures |f| == 6 && f[4] == '_' && f[5] == 'T' && forall i :: 0 <= i < 6 ==> f[i] != '('
  {
  }

  lemma MacroText(f: string)
    requires |f| == 6 && f[4] == '_' && f[5] == 'T' && forall i :: 0 <= i < 6 ==> f[i] != '('
    ensures '(' !in f && !Ends(f, "MO") && !Ends(f, "LT") && !Ends(f, "TO")
    ensures f != "MT" && f != "LT" && f != "MO" && f != "TO"
  {
    assert f[4..][0] == '_';
  }

  lemma MacroAgrees(f: string, inner: string, names: seq<string>, layers: Layers, catalog: Catalog, digits: Digits)
    requires CatalogFits(catalog) && ModTapMacro(f).Some?
    requires ModTapKeycode(ModTapMacro(f).value, Trim(inner), layers, catalog).Some?
    requires ViaKeycode(ReplaceLayers(LayerCall(f, inner, ")"), names), catalog, digits).Some?
    ensures ViaKeycode(ReplaceLayers(LayerCall(f, inner, ")"), names), catalog, digits)
         == ModTapKeycode(ModTapMacro(f).value, Trim(inner), layers, catalog)
  {
    var modifier := ModTapMacro(f).value;
    MacroShape(f);
    MacroText(f);
    ModifierText(modifier);
    SameStrip(modifier);
    ModTapAgrees(modifier, inner, layers, catalog, digits);
    OtherCallUnchanged(f, inner, names);
    SplitCallOf(f, inner);
    CallNotNamed(f, inner, catalog);
    SameTables(f);
  }

  lemma CallAgrees(
    f: string, inner: string, names: seq<string>, layers: Layers, aliases: Aliases, catalog: Catalog,
    digits: Digits)
    requires Consistent(names, layers, aliases, catalog, digits) && '(' !in f
    requires ResolveCall(f, TrimAll(Split(inner, ',')), |inner|, layers, catalog).Some?
    requires ViaKeycode(ReplaceLayers(LayerCall(f, inner, ")"), names), catalog, digits).Some?
    ensures ViaKeycode(ReplaceLayers(LayerCall(f, inner, ")"), names), catalog, digits)
         == ResolveCall(f, TrimAll(Split(inner, ',')), |inner|, layers, catalog)
  {
    if |Split(inner, ',')| == 1 {
      if f == "TO" || f == "MO" {
        LayerMoveAgrees(f, inner, names, layers, aliases, catalog, digits);
      } else {
        MacroAgrees(f, inner, names, layers, catalog, digits);
      }
    } else if f == "LT" {
      LayerTapAgrees(inner, names, layers, aliases, catalog, digits);
    } else {
      NamedModTapAgrees(inner, names, layers, catalog, digits);
    }
  }

  // ----- labels -----

  // The generator looks up another name than the live tool.
  ghost predicate Shadowed(key: string, names: seq<string>, aliases: Aliases, catalog: Catalog)
  {
    && key !in names && Rewritten(key, aliases)
    && Get(catalog, key) != Get(catalog, QmkKeycode(key, names, aliases).value)
  }

  lemma LayerNameAgrees(i: nat, names: seq<string>, layers: Layers, aliases: Aliases, catalog: Catalog, digits: Digits)
    requires Consistent(names, layers, aliases, catalog, digits) && i < |names|
    requires ResolveKeycode(names[i], layers, catalog).Some?
    ensures Encode(names[i], names, aliases, catalog, digits) == ResolveKeycode(names[i], layers, catalog)
  {
    IndexOfAbsent(names[i], '(');
    var id := CIdent(names[i]);
    LayersReplaced("MO", id, ")", ")", names);
    NamedMeans(id, names);
    SplitCallOf("MO", Decimal(i));
    DecimalValue(i, digits);
  }

  lemma PlainAgrees(key: string, names: seq<string>, aliases: Aliases, catalog: Catalog, digits: Digits)
    requires '(' !in key
    ensures ViaKeycode(ReplaceLayers(key, names), catalog, digits) == Lookup(key, catalog)
  {
    NoCallUnchanged(key, names);
    IndexOfAbsent(key, '(');
  }

  // Whenever both accept a label, they agree exactly if it is not shadowed.
  lemma EncodersAgree(
    key: string, names: seq<string>, layers: Layers, aliases: Aliases, catalog: Catalog, digits: Digits)
    requires Consistent(names, layers, aliases, catalog, digits)
    requires ResolveKeycode(key, layers, catalog).Some? && Encode(key, names, aliases, catalog, digits).Some?
    ensures Encode(key, names, aliases, catalog, digits) == ResolveKeycode(key, layers, catalog)
       <==> !Shadowed(key, names, aliases, catalog)
  {
    if key in names {
      var i :| 0 <= i < |names| && names[i] == key;
      LayerNameAgrees(i, names, layers, aliases, catalog, digits);
    } else if Rewritten(key, aliases) {
      if key !in aliases { IndexOfAbsent(key, '('); }
      RewrittenCode(key, names, aliases);
      PlainAgrees(QmkKeycode(key, names, aliases).value, names, aliases, catalog, digits);
    } else if '(' !in key {
      PlainAgrees(key, names, aliases, catalog, digits);
      IndexOfAbsent(key, '(');
    } else {
      CallKeyAgrees(key, names, layers, aliases, catalog, digits);
    }
  }

  lemma RewrittenCode(key: string, names: seq<string>, aliases: Aliases)
    requires key !in names && Rewritten(key, aliases) && AliasesFit(aliases)
    ensures QmkKeycode(key, names, aliases).Some? && '(' !in QmkKeycode(key, names, aliases).value
  {
    if key !in aliases { assert '(' !in "KC_" && '(' !in key; }
  }

  lemma CallKeyAgrees(
    key: string, names: seq<string>, layers: Layers, aliases: Aliases, catalog: Catalog, digits: Digits)
    requires Consistent(names, layers, aliases, catalog, digits)
    requires key !in names && !Rewritten(key, aliases) && '(' in key
    requires ResolveKeycode(key, layers, catalog).Some? && Encode(key, names, aliases, catalog, digits).Some?
    ensures Encode(key, names, aliases, catalog, digits) == ResolveKeycode(key, layers, catalog)
  {
    var f, inner := CallParts(key, names, layers, aliases, catalog, digits);
    CallAgrees(f, inner, names, layers, aliases, catalog, digits);
  }

  lemma CallParts(key: string, names: seq<string>, layers: Layers, aliases: Aliases, catalog: Catalog, digits: Digits)
    returns (f: string, inner: string)
    requires CatalogFits(catalog) && LayersFit(layers, aliases, names, digits)
    requires '(' in key && ResolveKeycode(key, layers, catalog).Some?
    ensures key == LayerCall(f, inner, ")") && '(' !in f
    ensures ResolveKeycode(key, layers, catalog) == ResolveCall(f, TrimAll(Split(inner, ',')), |inner|, layers, catalog)
  {
    if Get(catalog, key).Some? { GetMember(catalog, key); }
    f, inner := SplitCall(key).value.0, SplitCall(key).value.1;
    CallJoined(key);
  }

  lemma CallJoined(key: string)
    requires SplitCall(key).Some?
    ensures key == LayerCall(SplitCall(key).value.0, SplitCall(key).value.1, ")") && '(' !in SplitCall(key).value.0
  {
    var open, inner := IndexOf(key, '('), SplitCall(key).value.1;
    var rest := key[open + 1..];
    assert rest == inner + ")";
    assert key == key[..open] + "(" + rest;
    assert key[..open] + "(" + (inner + ")") == LayerCall(key[..open], inner, ")");
  }

  const REDO: string := "KC_REDO"
  const AGAIN: string := "KC_AGIN"

  lemma RedoText(name: string)
    requires name == REDO || name == AGAIN
    ensures NoParens(name) && NoSpace(name) && SplitCall(name).None?
  {
  }

  lemma TwoNames(first: string, second: string)
    requires first != second
    ensures var catalog := [Entry(first, 1), Entry(second, 2)];
      Get(catalog, first) == Some(1) && Get(catalog, second) == Some(2)
  {
    var catalog := [Entry(first, 1), Entry(second, 2)];
    assert catalog[1..] == [Entry(second, 2)];
    assert Get(catalog[1..], second) == Some(2);
  }

  lemma PairDisagrees(name: string, other: string, catalog: Catalog, aliases: Aliases, digits: Digits)
    requires UnicodeDigits(digits) && catalog == [Entry(name, 1), Entry(other, 2)] && aliases == map[name := other]
    requires name != other && SplitCall(name).None?
    requires NoParens(name) && NoParens(other) && NoSpace(name) && NoSpace(other)
    ensures Consistent([], map[], aliases, catalog, digits)
    ensures ResolveKeycode(name, map[], catalog) == Some(1) && Encode(name, [], aliases, catalog, digits) == Some(2)
  {
    TwoNames(name, other);
    PlainAgrees(other, [], aliases, catalog, digits);
  }

  // Redo, if the catalog names it with a code of its own, is such a label.
  lemma RedoDisagrees(catalog: Catalog, aliases: Aliases, digits: Digits)
    requires UnicodeDigits(digits) && catalog == [Entry(REDO, 1), Entry(AGAIN, 2)] && aliases == map[REDO := AGAIN]
    ensures Consistent([], map[], aliases, catalog, digits)
    ensures ResolveKeycode(REDO, map[], catalog) == Some(1) && Encode(REDO, [], aliases, catalog, digits) == Some(2)
  {
    assert REDO[3] != AGAIN[3];
    RedoText(REDO);
    RedoText(AGAIN);
    PairDisagrees(REDO, AGAIN, catalog, aliases, digits);
  }
}
