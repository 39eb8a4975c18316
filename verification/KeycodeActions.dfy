// What a 16-bit code does, which texts mean it, and who accepts them.
module KeycodeActions {
  import opened Wrappers
  import opened Text
  import opened Keycode
  import opened KeycodeProofs
  import opened Encoder
  import opened EncoderProofs
  import opened EncoderAgreement

  // ----- codes -----

  datatype Action =
    | Tap(code: nat)
    | ModTap(mods: nat, tap: nat)
    | LayerTap(layer: nat, tap: nat)
    | Move(layer: nat)
    | Momentary(layer: nat)

  predicate InRange(a: Action)
  {
    match a
    case Tap(code) => code < 0x100
    case ModTap(mods, tap) => mods < 32 && tap < 0x100
    case LayerTap(layer, tap) => layer < 16 && tap < 0x100
    case Move(layer) => layer < 32
    case Momentary(layer) => layer < 16
  }

  function CodeOf(a: Action): nat
  {
    match a
    case Tap(code) => code
    case ModTap(mods, tap) => PackTap(0x2000, mods, tap)
    case LayerTap(layer, tap) => PackTap(0x4000, layer, tap)
    case Move(layer) => BitOr(0x5200, layer)
    case Momentary(layer) => BitOr(0x5220, layer)
  }

  // The same, as sums.
  function Value(a: Action): nat
  {
    match a
    case Tap(code) => code
    case ModTap(mods, tap) => 0x2000 + mods * 0x100 + tap
    case LayerTap(layer, tap) => 0x4000 + layer * 0x100 + tap
    case Move(layer) => 0x5200 + layer
    case Momentary(layer) => 0x5220 + layer
  }

  lemma CodeValue(a: Action)
    requires InRange(a)
    ensures CodeOf(a) == Value(a)
  {
    match a
    case Tap(_) =>
    case ModTap(mods, tap) => ModTapPacked(mods, tap);
    case LayerTap(layer, tap) => LayerTapPacked(layer, tap);
    case Move(layer) =>
      assert Pow2(5) == 32;
      OrDisjoint(0x290, 5, layer);
    case Momentary(layer) =>
      assert Pow2(4) == 16;
      OrDisjoint(0x522, 4, layer);
  }

  lemma CodesDistinct(a: Action, b: Action)
    requires InRange(a) && InRange(b) && CodeOf(a) == CodeOf(b)
    ensures a == b
  {
    CodeValue(a);
    CodeValue(b);
  }

  // ----- describing a code -----

  function LayerOf(a: Action): Option<nat>
  {
    match a
    case Tap(_) => None
    case ModTap(_, _) => None
    case LayerTap(layer, _) => Some(layer)
    case Move(layer) => Some(layer)
    case Momentary(layer) => Some(layer)
  }

  function TapOf(a: Action): Option<nat>
  {
    match a
    case Tap(code) => Some(code)
    case ModTap(_, tap) => Some(tap)
    case LayerTap(_, tap) => Some(tap)
    case Move(_) => None
    case Momentary(_) => None
  }

  // The layer has an identifier and the tap a name.
  ghost predicate Describable(a: Action, layerIds: seq<string>, catalog: Catalog)
  {
    && (LayerOf(a).Some? ==> LayerOf(a).value < |layerIds|)
    && (TapOf(a).Some? ==> exists name :: Names(catalog, name, TapOf(a).value))
  }

  // How an action is written, with `name` for its tap.
  function Spelled(a: Action, layerIds: seq<string>, name: string): string
    requires LayerOf(a).Some? ==> LayerOf(a).value < |layerIds|
  {
    match a
    case Tap(_) => name
    case ModTap(mods, _) => "MT" + "(" + (Join(ModifierNames(mods), '|') + [','] + ([' '] + name)) + ")"
    case LayerTap(layer, _) => "LT" + "(" + (layerIds[layer] + [','] + ([' '] + name)) + ")"
    case Move(layer) => "TO" + "(" + layerIds[layer] + ")"
    case Momentary(layer) => "MO" + "(" + layerIds[layer] + ")"
  }

  // A mod-tap whose modifiers have a macro of their own is written with it.
  function Description(a: Action, layerIds: seq<string>, name: string): string
    requires LayerOf(a).Some? ==> LayerOf(a).value < |layerIds|
  {
    if a.ModTap? && SimpleModTap(a.mods).Some? then SimpleModTap(a.mods).value + "(" + name + ")"
    else Spelled(a, layerIds, name)
  }

  lemma NamedExactly(code: nat, catalog: Catalog)
    ensures PreferredKeycodeName(code, catalog).Some? <==> exists name :: Names(catalog, name, code)
  {
    if PreferredKeycodeName(code, catalog).Some? { PreferredIsNamed(code, catalog); }
    if exists name :: Names(catalog, name, code) {
      var name :| Names(catalog, name, code);
      PreferredIsLeast(code, catalog, name);
    }
  }

  lemma ModTapParts(mods: nat, tap: nat, code: nat)
    requires mods < 32 && tap < 0x100 && code == 0x2000 + mods * 0x100 + tap
    ensures code / 0x1000 != 4 && code / 0x2000 == 1 && code < 0x5200
    ensures code / 0x100 % 32 == mods && code % 0x100 == tap
  {
    assert code / 0x100 == 0x20 + mods;
  }

  lemma LayerTapParts(layer: nat, tap: nat, code: nat)
    requires layer < 16 && tap < 0x100 && code == 0x4000 + layer * 0x100 + tap
    ensures code / 0x1000 == 4 && code < 0x5200 && code / 0x100 % 16 == layer && code % 0x100 == tap
  {
    assert code / 0x100 == 0x40 + layer;
  }

  function DescribedAs(a: Action, layerIds: seq<string>, catalog: Catalog): Option<string>
  {
    match a
    case Tap(code) => PreferredKeycodeName(code, catalog)
    case ModTap(mods, tap) => DescribeModTap(mods, PreferredKeycodeName(tap, catalog))
    case LayerTap(layer, tap) => DescribeLayerTap(layer, PreferredKeycodeName(tap, catalog), layerIds)
    case Move(layer) => DescribeLayer("TO", layer, layerIds)
    case Momentary(layer) => DescribeLayer("MO", layer, layerIds)
  }

  lemma DescribedParts(a: Action, layerIds: seq<string>, catalog: Catalog)
    requires InRange(a)
    ensures DescribeKeycode(Value(a), layerIds, catalog) == DescribedAs(a, layerIds, catalog)
  {
    if a.ModTap? {
      ModTapDescribed(a.mods, a.tap, layerIds, catalog);
    } else if a.LayerTap? {
      LayerTapDescribed(a.layer, a.tap, layerIds, catalog);
    }
  }

  lemma ModTapDescribed(mods: nat, tap: nat, layerIds: seq<string>, catalog: Catalog)
    requires mods < 32 && tap < 0x100
    ensures DescribeKeycode(0x2000 + mods * 0x100 + tap, layerIds, catalog)
         == DescribeModTap(mods, PreferredKeycodeName(tap, catalog))
  {
    ModTapParts(mods, tap, 0x2000 + mods * 0x100 + tap);
  }

  lemma LayerTapDescribed(layer: nat, tap: nat, layerIds: seq<string>, catalog: Catalog)
    requires layer < 16 && tap < 0x100
    ensures DescribeKeycode(0x4000 + layer * 0x100 + tap, layerIds, catalog)
         == DescribeLayerTap(layer, PreferredKeycodeName(tap, catalog), layerIds)
  {
    LayerTapParts(layer, tap, 0x4000 + layer * 0x100 + tap);
  }

  // Every action is described exactly if its layer has an identifier and its
  // tap a name, and by which text.
  lemma DescribedExactly(a: Action, layerIds: seq<string>, catalog: Catalog)
    requires InRange(a)
    ensures DescribeKeycode(CodeOf(a), layerIds, catalog).Some? <==> Describable(a, layerIds, catalog)
    ensures Describable(a, layerIds, catalog) ==>
      var name := if TapOf(a).Some? then PreferredKeycodeName(TapOf(a).value, catalog) else Some("");
      name.Some? && DescribeKeycode(CodeOf(a), layerIds, catalog) == Some(Description(a, layerIds, name.value))
  {
    CodeValue(a);
    DescribedParts(a, layerIds, catalog);
    if TapOf(a).Some? { NamedExactly(TapOf(a).value, catalog); }
  }

  // Any other code is described exactly if it has a name of its own.
  lemma OtherDescribedExactly(code: nat, layerIds: seq<string>, catalog: Catalog)
    requires forall a :: InRange(a) ==> CodeOf(a) != code
    ensures DescribeKeycode(code, layerIds, catalog).Some? <==> exists name :: Names(catalog, name, code)
  {
    NamedExactly(code, catalog);
    TapFields(code);
    if 0x5200 <= code <= 0x521f { CodeValue(Move(code - 0x5200)); }
    if 0x5220 <= code <= 0x522f { CodeValue(Momentary(code - 0x5220)); }
    if code / 0x1000 == 4 { CodeValue(LayerTap(code / 0x100 % 16, code % 0x100)); }
    if code / 0x2000 == 1 { CodeValue(ModTap(code / 0x100 % 32, code % 0x100)); }
  }

  // ----- what the live tool accepts -----

  // Every action is read back from its spelling, with any name for its tap.
  lemma LiveReads(a: Action, layerIds: seq<string>, name: string, layers: Layers, catalog: Catalog)
    requires Printable(layerIds, layers, catalog) && InRange(a)
    requires LayerOf(a).Some? ==> LayerOf(a).value < |layerIds|
    requires TapOf(a).Some? ==> Names(catalog, name, TapOf(a).value)
    requires a.ModTap? ==> a.mods % 16 != 0
    ensures ResolveKeycode(Spelled(a, layerIds, name), layers, catalog) == Some(CodeOf(a))
  {
    match a
    case Tap(code) => GetFinds(catalog, name, code);
    case ModTap(mods, tap) => ModTapReads(a, layerIds, name, layers, catalog);
    case LayerTap(layer, tap) => LayerTapReads(a, layerIds, name, layers, catalog);
    case Move(layer) =>
      CodeValue(a);
      LayerMoveRoundTrip(layer, layerIds, layers, catalog);
    case Momentary(layer) =>
      CodeValue(a);
      MomentaryRoundTrip(layer, layerIds, layers, catalog);
  }

  lemma ModTapReads(a: Action, layerIds: seq<string>, name: string, layers: Layers, catalog: Catalog)
    requires NoCallNames(layers, catalog) && a.ModTap? && InRange(a) && a.mods % 16 != 0
    requires Names(catalog, name, a.tap)
    ensures ResolveKeycode(Spelled(a, layerIds, name), layers, catalog) == Some(CodeOf(a))
  {
    GetFinds(catalog, name, a.tap);
    CodeValue(a);
    LiveReadsModTap(a.mods, a.tap, name, layers, catalog);
  }

  lemma LayerTapReads(a: Action, layerIds: seq<string>, name: string, layers: Layers, catalog: Catalog)
    requires Printable(layerIds, layers, catalog) && a.LayerTap? && InRange(a) && a.layer < |layerIds|
    requires Names(catalog, name, a.tap)
    ensures ResolveKeycode(Spelled(a, layerIds, name), layers, catalog) == Some(CodeOf(a))
  {
    GetFinds(catalog, name, a.tap);
    CodeValue(a);
    ResolveLayerTap(layerIds[a.layer], name, layers, catalog);
    LayerTapValue(a.layer, a.tap);
  }

  lemma LiveReadsModTap(mods: nat, tap: nat, name: string, layers: Layers, catalog: Catalog)
    requires NoCallNames(layers, catalog) && mods < 32 && mods % 16 != 0 && tap < 0x100
    requires Get(catalog, name) == Some(tap) && Plain(name)
    ensures ResolveKeycode(
        "MT" + "(" + (Join(ModifierNames(mods), '|') + [','] + ([' '] + name)) + ")", layers, catalog)
         == Some(0x2000 + mods * 0x100 + tap)
  {
    ModifiersRoundTrip(mods);
    NibbleOfBits(mods);
    var modifier := JoinAndSplit(ModifierNames(mods));
    ResolveModTap(modifier, name, layers, catalog);
    ModTapValue(modifier, mods, name, tap, layers, catalog);
  }

  lemma LiveReadsMacro(mods: nat, tap: nat, name: string, layers: Layers, catalog: Catalog)
    requires NoCallNames(layers, catalog) && SimpleModTap(mods).Some? && mods < 32 && tap < 0x100
    requires Get(catalog, name) == Some(tap) && Plain(name)
    ensures ResolveKeycode(SimpleModTap(mods).value + "(" + name + ")", layers, catalog)
         == Some(CodeOf(ModTap(mods, tap)))
  {
    MacroReads(mods, tap, name, layers, catalog);
    CodeValue(ModTap(mods, tap));
  }

  lemma MacroReads(mods: nat, tap: nat, name: string, layers: Layers, catalog: Catalog)
    requires NoCallNames(layers, catalog) && SimpleModTap(mods).Some? && tap < 0x100
    requires Get(catalog, name) == Some(tap) && Plain(name)
    ensures ResolveKeycode(SimpleModTap(mods).value + "(" + name + ")", layers, catalog)
         == Some(0x2000 + mods * 0x100 + tap)
  {
    var modifier := ResolveSimple(mods, name, layers, catalog);
    OneModifier(modifier, mods);
    ModTapValue(modifier, mods, name, tap, layers, catalog);
  }

  // A layer's name alone, or its number, means its momentary key.
  lemma LiveReadsLayerName(name: string, layers: Layers, catalog: Catalog)
    requires name in layers && layers[name] < 16 && Get(catalog, name).None?
    ensures ResolveKeycode(name, layers, catalog) == Some(CodeOf(Momentary(layers[name])))
  {
  }

  lemma {:induction false} DecimalParsed(n: nat)
    requires n < 0x100
    ensures ParseDigits(Decimal(n), 0) == Some(n)
    decreases n
  {
    var s := Decimal(n);
    if n < 10 {
      assert s[1..] == "";
    } else {
      DecimalParsed(n / 10);
      ParseLast(Decimal(n / 10), s[|s| - 1], 0);
      assert s == Decimal(n / 10) + [s[|s| - 1]];
    }
  }

  lemma {:induction false} ParseLast(s: string, c: char, value: nat)
    requires value < 0x100 && ParseDigits(s, value).Some? && Digit(c).Some?
    requires ParseDigits(s, value).value * 10 + Digit(c).value < 0x100
    ensures ParseDigits(s + [c], value) == Some(ParseDigits(s, value).value * 10 + Digit(c).value)
    decreases |s|
  {
    if s == "" {
      assert s + [c] == [c] && [c][1..] == "";
    } else {
      assert (s + [c])[1..] == s[1..] + [c];
      ParseLast(s[1..], c, value * 10 + Digit(s[0]).value);
    }
  }

  lemma LiveReadsNumber(n: nat, layers: Layers)
    requires n < 0x100 && Decimal(n) !in layers
    ensures ResolveLayer(Decimal(n), layers) == Some(n)
  {
    DecimalParsed(n);
    assert '0' <= Decimal(n)[0] <= '9';
  }

  // Beyond the catalog's names the live tool only gives codes of actions, but
  // for layers above 15.
  ghost predicate Means(code: nat, f: string)
  {
    if f == "TO" then exists layer :: 0 <= layer < 32 && code == CodeOf(Move(layer))
    else if f == "MO" then exists layer :: 0 <= layer < 0x100 && code == BitOr(0x5220, layer)
    else if f == "LT" then
      exists layer, tap :: 0 <= layer < 0x100 && 0 <= tap < 0x100 && code == PackTap(0x4000, layer, tap)
    else exists mods, tap :: 0 <= mods < 32 && 0 <= tap < 0x100 && code == CodeOf(ModTap(mods, tap))
  }

  lemma LiveMeans(f: string, arguments: seq<string>, length: nat, layers: Layers, catalog: Catalog)
    requires forall i :: 0 <= i < |arguments| ==> |arguments[i]| <= length
    requires forall name :: name in layers ==> layers[name] < 0x100
    requires ResolveCall(f, arguments, length, layers, catalog).Some?
    ensures Means(ResolveCall(f, arguments, length, layers, catalog).value, f)
  {
    if f == "TO" && |arguments| == 1 {
      var layer := ResolveLayer(arguments[0], layers).value;
      assert BitOr(0x5200, layer) == CodeOf(Move(layer));
    } else if f == "MO" && |arguments| == 1 {
      assert ResolveLayer(arguments[0], layers).value < 0x100;
    } else if f == "LT" && |arguments| == 2 {
      var layer, tap := ResolveLayer(arguments[0], layers).value, ResolveKeycode(arguments[1], layers, catalog).value;
      assert PackTap(0x4000, layer, tap) == ResolveCall(f, arguments, length, layers, catalog).value;
    } else if f == "MT" && |arguments| == 2 {
      ModTapMeans(arguments[0], arguments[1], layers, catalog);
    } else {
      ModTapMeans(ModTapMacro(f).value, arguments[0], layers, catalog);
    }
  }

  lemma ModTapMeans(modifier: string, tap: string, layers: Layers, catalog: Catalog)
    requires ModTapKeycode(modifier, tap, layers, catalog).Some?
    ensures Means(ModTapKeycode(modifier, tap, layers, catalog).value, "MT")
  {
    var mods, code := RustMods(modifier).value % 32, ResolveKeycode(tap, layers, catalog).value;
    assert PackTap(0x2000, mods, code) == CodeOf(ModTap(mods, code));
  }
}
