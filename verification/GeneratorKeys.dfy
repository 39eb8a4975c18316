// Which keys the generator accepts, of those that the live tool accepts.
module GeneratorKeys {
  import opened Wrappers
  import opened Text
  import opened Keycode
  import opened KeycodeProofs
  import opened Encoder
  import opened EncoderProofs
  import opened EncoderAgreement

  // ----- labels that are rewritten -----

  // A letter, a digit or F1 to F24 has the code of `KC_` and the whole label.
  lemma BareKeyCode(key: string, names: seq<string>, aliases: Aliases, catalog: Catalog, digits: Digits)
    requires BareKey(key) && key !in names && key !in aliases
    ensures Encode(key, names, aliases, catalog, digits) == Get(catalog, "KC_" + key)
  {
    assert '(' !in "KC_" && '(' !in key;
    PlainAgrees("KC_" + key, names, aliases, catalog, digits);
  }

  lemma AliasCode(key: string, names: seq<string>, aliases: Aliases, catalog: Catalog, digits: Digits)
    requires key in aliases && key !in names && '(' !in aliases[key]
    ensures Encode(key, names, aliases, catalog, digits) == Get(catalog, aliases[key])
  {
    PlainAgrees(aliases[key], names, aliases, catalog, digits);
  }

  // ----- calls, exactly -----

  function MoveCode(f: string, layer: nat): Option<nat>
  {
    if f == "MO" then Some(BitOr(0x5220, layer)) else if layer > 31 then None else Some(BitOr(0x5200, layer))
  }

  lemma ViaMove(f: string, a: string, catalog: Catalog, digits: Digits)
    requires UnicodeDigits(digits) && CatalogFits(catalog) && (f == "TO" || f == "MO")
    ensures ViaKeycode(LayerCall(f, a, ")"), catalog, digits)
         == if AllDigits(a, digits) then MoveCode(f, IntOf(a, digits)) else None
  {
    SplitCallOf(f, a);
    CallNotNamed(f, a, catalog);
  }

  lemma ViaLayer(n: string, b: string, catalog: Catalog, digits: Digits)
    requires UnicodeDigits(digits) && CatalogFits(catalog) && ',' !in n && NoParens(b)
    ensures ViaKeycode(LayerCall("LT", n + "," + b, ")"), catalog, digits)
         == if AllDigits(n, digits) && b != "" then PyLayerTap(IntOf(n, digits), b, catalog, digits) else None
  {
    var inner := n + "," + b;
    SplitCallOf("LT", inner);
    CallNotNamed("LT", inner, catalog);
    PairOf(n, b);
  }

  lemma ViaMods(a: string, b: string, catalog: Catalog, digits: Digits)
    requires CatalogFits(catalog) && ',' !in a && NoParens(b)
    ensures ViaKeycode(LayerCall("MT", a + "," + b, ")"), catalog, digits)
         == if a != "" && b != "" then PyModTap(PyStrip(a), b, catalog, digits) else None
  {
    var inner := a + "," + b;
    SplitCallOf("MT", inner);
    CallNotNamed("MT", inner, catalog);
    PairOf(a, b);
  }

  lemma ViaMacro(f: string, inner: string, catalog: Catalog, digits: Digits)
    requires CatalogFits(catalog) && ModTapMacro(f).Some? && inner != "" && NoParens(inner)
    ensures ViaKeycode(LayerCall(f, inner, ")"), catalog, digits)
         == PyModTap(ModTapMacro(f).value, inner, catalog, digits)
  {
    MacroShape(f);
    SameTables(f);
    SplitCallOf(f, inner);
  }

  // ----- what the generator takes -----

  // Layers must be written as an identifier or in digits, and without spaces;
  // a layer-tap must be of one of the first sixteen.
  ghost predicate TakesCall(f: string, inner: string, names: seq<string>, digits: Digits)
  {
    if f == "TO" || f == "MO" then AllDigits(Named(inner, names), digits)
    else if f == "LT" then
      var layer := Named(inner[..IndexOf(inner, ',')], names);
      AllDigits(layer, digits) && IntOf(layer, digits) <= 15
    else true
  }

  lemma MoveTaken(
    f: string, inner: string, names: seq<string>, layers: Layers, aliases: Aliases, catalog: Catalog, digits: Digits)
    requires Consistent(names, layers, aliases, catalog, digits) && (f == "TO" || f == "MO")
    requires ResolveCall(f, [Trim(inner)], |inner|, layers, catalog).Some?
    ensures ViaKeycode(ReplaceLayers(LayerCall(f, inner, ")"), names), catalog, digits).Some? <==>
      TakesCall(f, inner, names, digits)
  {
    LayerText(inner, names, layers, aliases, digits);
    LayersReplaced(f, inner, ")", ")", names);
    ViaMove(f, Named(inner, names), catalog, digits);
    if AllDigits(Named(inner, names), digits) {
      LayerAgrees(inner, names, layers, aliases, catalog, digits);
    }
  }

  lemma TapNotEmpty(tap: string, layers: Layers, catalog: Catalog)
    requires Get(catalog, "").None?
    requires ResolveKeycode(Trim(tap), layers, catalog).Some?
    requires ResolveKeycode(Trim(tap), layers, catalog).value <= 0xff
    ensures tap != ""
  {
    LowCodeIsNamed(Trim(tap), layers, catalog);
  }

  lemma LayerTapTaken(
    inner: string, names: seq<string>, layers: Layers, aliases: Aliases, catalog: Catalog, digits: Digits)
    requires Consistent(names, layers, aliases, catalog, digits) && Get(catalog, "").None?
    requires |Split(inner, ',')| == 2
    requires ResolveCall("LT", TrimAll(Split(inner, ',')), |inner|, layers, catalog).Some?
    ensures ViaKeycode(ReplaceLayers(LayerCall("LT", inner, ")"), names), catalog, digits).Some? <==>
      TakesCall("LT", inner, names, digits)
  {
    var a, b := TwoPieces(inner);
    LayerText(a, names, layers, aliases, digits);
    TapAgrees(b, layers, catalog, digits);
    TapNotEmpty(b, layers, catalog);
    LayerTapReplaced(a, b, names);
    ViaLayer(Named(a, names), b, catalog, digits);
  }

  lemma ModTapTaken(inner: string, names: seq<string>, layers: Layers, catalog: Catalog, digits: Digits)
    requires CatalogFits(catalog) && Get(catalog, "").None? && |Split(inner, ',')| == 2
    requires ResolveCall("MT", TrimAll(Split(inner, ',')), |inner|, layers, catalog).Some?
    ensures ViaKeycode(ReplaceLayers(LayerCall("MT", inner, ")"), names), catalog, digits).Some?
  {
    var a, b := TwoPieces(inner);
    ModTapAgrees(a, b, layers, catalog, digits);
    TapNotEmpty(b, layers, catalog);
    OtherCallUnchanged("MT", inner, names);
    ViaMods(a, b, catalog, digits);
  }

  lemma MacroTaken(f: string, inner: string, names: seq<string>, layers: Layers, catalog: Catalog, digits: Digits)
    requires CatalogFits(catalog) && Get(catalog, "").None? && ModTapMacro(f).Some?
    requires ModTapKeycode(ModTapMacro(f).value, Trim(inner), layers, catalog).Some?
    ensures ViaKeycode(ReplaceLayers(LayerCall(f, inner, ")"), names), catalog, digits).Some?
  {
    var modifier := ModTapMacro(f).value;
    MacroShape(f);
    MacroText(f);
    ModifierText(modifier);
    SameStrip(modifier);
    ModTapAgrees(modifier, inner, layers, catalog, digits);
    TapNotEmpty(inner, layers, catalog);
    OtherCallUnchanged(f, inner, names);
    ViaMacro(f, inner, catalog, digits);
  }

  lemma CallTaken(
    f: string, inner: string, names: seq<string>, layers: Layers, aliases: Aliases, catalog: Catalog, digits: Digits)
    requires Consistent(names, layers, aliases, catalog, digits) && Get(catalog, "").None? && '(' !in f
    requires ResolveCall(f, TrimAll(Split(inner, ',')), |inner|, layers, catalog).Some?
    ensures ViaKeycode(ReplaceLayers(LayerCall(f, inner, ")"), names), catalog, digits).Some? <==>
      TakesCall(f, inner, names, digits)
  {
    if |Split(inner, ',')| == 1 {
      if f == "TO" || f == "MO" {
        MoveTaken(f, inner, names, layers, aliases, catalog, digits);
      } else {
        MacroShape(f);
        MacroText(f);
        MacroTaken(f, inner, names, layers, catalog, digits);
      }
    } else if f == "LT" {
      LayerTapTaken(inner, names, layers, aliases, catalog, digits);
    } else {
      ModTapTaken(inner, names, layers, catalog, digits);
    }
  }

  // What the generator asks of a key beyond what the live tool asks.
  ghost predicate Takes(key: string, names: seq<string>, aliases: Aliases, catalog: Catalog, digits: Digits)
  {
    if key in names then true
    else if key in aliases then Get(catalog, aliases[key]).Some?
    else if BareKey(key) then Get(catalog, "KC_" + key).Some?
    else if '(' !in key then (StartsWith(key, "KC_") || StartsWith(key, "QK_")) && Get(catalog, key).Some?
    else SplitCall(key).Some? ==> TakesCall(SplitCall(key).value.0, SplitCall(key).value.1, names, digits)
  }

  lemma PlainTaken(key: string, names: seq<string>, aliases: Aliases, catalog: Catalog, digits: Digits)
    requires key !in names && key !in aliases && !BareKey(key) && '(' !in key
    ensures Encode(key, names, aliases, catalog, digits).Some? <==>
      (StartsWith(key, "KC_") || StartsWith(key, "QK_")) && Get(catalog, key).Some?
  {
    PlainAgrees(key, names, aliases, catalog, digits);
  }

  lemma CallKeyTaken(
    key: string, names: seq<string>, layers: Layers, aliases: Aliases, catalog: Catalog, digits: Digits)
    requires Consistent(names, layers, aliases, catalog, digits) && Get(catalog, "").None?
    requires key !in names && !Rewritten(key, aliases) && '(' in key
    requires ResolveKeycode(key, layers, catalog).Some?
    ensures SplitCall(key).Some?
    ensures Encode(key, names, aliases, catalog, digits).Some? <==>
      TakesCall(SplitCall(key).value.0, SplitCall(key).value.1, names, digits)
  {
    var f, inner := CallParts(key, names, layers, aliases, catalog, digits);
    SplitCallOf(f, inner);
    CallTaken(f, inner, names, layers, aliases, catalog, digits);
  }

  // Of the keys that the live tool accepts, the generator accepts just these.
  lemma TakenExactly(
    key: string, names: seq<string>, layers: Layers, aliases: Aliases, catalog: Catalog, digits: Digits)
    requires Consistent(names, layers, aliases, catalog, digits) && Get(catalog, "").None?
    requires ResolveKeycode(key, layers, catalog).Some?
    ensures Encode(key, names, aliases, catalog, digits).Some? <==> Takes(key, names, aliases, catalog, digits)
  {
    if key in names {
      var i :| 0 <= i < |names| && names[i] == key;
      LayerNameAgrees(i, names, layers, aliases, catalog, digits);
    } else if key in aliases {
      AliasCode(key, names, aliases, catalog, digits);
    } else if BareKey(key) {
      BareKeyCode(key, names, aliases, catalog, digits);
    } else if '(' !in key {
      PlainTaken(key, names, aliases, catalog, digits);
    } else {
      CallKeyTaken(key, names, layers, aliases, catalog, digits);
    }
  }
}
