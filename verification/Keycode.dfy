// Keycodes and the expressions that name them: describing a live 16-bit code
// and resolving an expression back to one.
module Keycode {
  import opened Wrappers
  import opened Text

  datatype Entry = Entry(name: string, code: nat)

  // Names are unique; the entries may come in any order.
  type Catalog = seq<Entry>

  // ----- bits -----

  function BitOr(a: nat, b: nat): (c: nat)
    ensures c <= a + b
  {
    if a == 0 && b == 0 then 0
    else (if a % 2 == 1 || b % 2 == 1 then 1 else 0) + 2 * BitOr(a / 2, b / 2)
  }

  // base | (high << 8) | tap
  function PackTap(base: nat, high: nat, tap: nat): nat
  {
    BitOr(BitOr(base, high * 0x100), tap)
  }

  function Pow2(k: nat): (p: nat)
    ensures p > 0
  {
    if k == 0 then 1 else 2 * Pow2(k - 1)
  }

  // ----- the catalog -----

  function Get(catalog: Catalog, name: string): Option<nat>
  {
    if catalog == [] then None
    else if catalog[0].name == name then Some(catalog[0].code)
    else Get(catalog[1..], name)
  }

  datatype Rank = Rank(notBasic: bool, right: bool, length: nat, name: string)

  function RankOf(name: string): Rank
  {
    Rank(!StartsWith(name, "KC_"), Contains(name, "RIGHT"), ByteLength(name), name)
  }

  predicate RankLess(a: Rank, b: Rank)
  {
    if a.notBasic != b.notBasic then b.notBasic
    else if a.right != b.right then b.right
    else if a.length != b.length then a.length < b.length
    else StringLess(a.name, b.name)
  }

  function PreferredKeycodeName(code: nat, catalog: Catalog): Option<string>
    decreases |catalog|
  {
    if catalog == [] then None
    else
      var best := PreferredKeycodeName(code, catalog[1..]);
      if catalog[0].code == code && (best.None? || RankLess(RankOf(catalog[0].name), RankOf(best.value))) then
        Some(catalog[0].name)
      else
        best
  }

  // ----- code to expression -----

  function SimpleModTap(mods: nat): Option<string>
  {
    match mods
    case 0x01 => Some("LCTL_T")
    case 0x02 => Some("LSFT_T")
    case 0x04 => Some("LALT_T")
    case 0x08 => Some("LGUI_T")
    case 0x11 => Some("RCTL_T")
    case 0x12 => Some("RSFT_T")
    case 0x14 => Some("RALT_T")
    case 0x18 => Some("RGUI_T")
    case _ => None
  }

  // The modifier of bit k, on the left or the right side.
  function ModifierName(k: nat, right: bool): string
    requires k < 4
  {
    if right then
      if k == 0 then "MOD_RCTL" else if k == 1 then "MOD_RSFT" else if k == 2 then "MOD_RALT" else "MOD_RGUI"
    else
      if k == 0 then "MOD_LCTL" else if k == 1 then "MOD_LSFT" else if k == 2 then "MOD_LALT" else "MOD_LGUI"
  }

  function NameIf(on: bool, k: nat, right: bool): seq<string>
    requires k < 4
  {
    if on then [ModifierName(k, right)] else []
  }

  function ModifierNames(mods: nat): seq<string>
  {
    var right := mods / 16 % 2 == 1;
    NameIf(mods % 2 == 1, 0, right) + NameIf(mods / 2 % 2 == 1, 1, right)
    + NameIf(mods / 4 % 2 == 1, 2, right) + NameIf(mods / 8 % 2 == 1, 3, right)
  }

  function DescribeLayer(function_: string, layer: nat, layerIds: seq<string>): Option<string>
  {
    if layer < |layerIds| then Some(function_ + "(" + layerIds[layer] + ")") else None
  }

  function DescribeKeycode(code: nat, layerIds: seq<string>, catalog: Catalog): Option<string>
  {
    if 0x5200 <= code <= 0x521f then
      DescribeLayer("TO", code - 0x5200, layerIds)
    else if 0x5220 <= code <= 0x522f then
      DescribeLayer("MO", code - 0x5220, layerIds)
    else if code / 0x1000 == 4 then
      DescribeLayerTap(code / 0x100 % 16, PreferredKeycodeName(code % 0x100, catalog), layerIds)
    else if code / 0x2000 == 1 then
      DescribeModTap(code / 0x100 % 32, PreferredKeycodeName(code % 0x100, catalog))
    else
      PreferredKeycodeName(code, catalog)
  }

  function DescribeLayerTap(layer: nat, tap: Option<string>, layerIds: seq<string>): Option<string>
  {
    if tap.None? || layer >= |layerIds| then None
    else Some("LT" + "(" + (layerIds[layer] + [','] + ([' '] + tap.value)) + ")")
  }

  function DescribeModTap(mods: nat, tap: Option<string>): Option<string>
  {
    if tap.None? then None
    else if SimpleModTap(mods).Some? then Some(SimpleModTap(mods).value + "(" + tap.value + ")")
    else Some("MT" + "(" + (Join(ModifierNames(mods), '|') + [','] + ([' '] + tap.value)) + ")")
  }

  // ----- expression to code -----

  type Layers = map<string, nat>

  function ModifierCode(name: string): Option<nat>
  {
    if name == "MOD_LCTL" then Some(0x01)
    else if name == "MOD_LSFT" then Some(0x02)
    else if name == "MOD_LALT" then Some(0x04)
    else if name == "MOD_LGUI" then Some(0x08)
    else if name == "MOD_RCTL" then Some(0x11)
    else if name == "MOD_RSFT" then Some(0x12)
    else if name == "MOD_RALT" then Some(0x14)
    else if name == "MOD_RGUI" then Some(0x18)
    else None
  }

  function OrModifiers(names: seq<string>, mods: nat): Option<nat>
  {
    if names == [] then Some(mods)
    else
      var code := ModifierCode(names[0]);
      if code.None? then None else OrModifiers(names[1..], BitOr(mods, code.value))
  }

  function ModTapMacro(name: string): Option<string>
  {
    if name == "LCTL_T" then Some("MOD_LCTL")
    else if name == "LSFT_T" then Some("MOD_LSFT")
    else if name == "LALT_T" then Some("MOD_LALT")
    else if name == "LGUI_T" then Some("MOD_LGUI")
    else if name == "RCTL_T" then Some("MOD_RCTL")
    else if name == "RSFT_T" then Some("MOD_RSFT")
    else if name == "RALT_T" then Some("MOD_RALT")
    else if name == "RGUI_T" then Some("MOD_RGUI")
    else None
  }

  function ResolveLayer(value: string, layers: Layers): Option<nat>
  {
    if value in layers then Some(layers[value]) else ParseU8(value)
  }

  // `name(inner)`: the text before the first parenthesis and up to the last.
  function SplitCall(expression: string): (call: Option<(string, string)>)
    ensures call.Some? ==> |call.value.0| < |expression| && |call.value.1| < |expression|
  {
    var open := IndexOf(expression, '(');
    if open == |expression| then None
    else
      var rest := expression[open + 1..];
      if rest == "" || rest[|rest| - 1] != ')' then None else Some((expression[..open], rest[..|rest| - 1]))
  }

  function ResolveKeycode(expression: string, layers: Layers, catalog: Catalog): Option<nat>
    decreases |expression|, 3
  {
    if Get(catalog, expression).Some? then Some(Get(catalog, expression).value)
    else if expression in layers then Some(BitOr(0x5220, layers[expression]))
    else if SplitCall(expression).None? then None
    else
      var (name, inner) := SplitCall(expression).value;
      ResolveCall(name, TrimAll(Split(inner, ',')), |inner|, layers, catalog)
  }

  function ResolveCall(name: string, arguments: seq<string>, length: nat, layers: Layers, catalog: Catalog): Option<nat>
    requires forall i :: 0 <= i < |arguments| ==> |arguments[i]| <= length
    decreases length, 5
  {
    if name == "TO" && |arguments| == 1 then
      var target := ResolveLayer(arguments[0], layers);
      if target.None? || target.value > 31 then None else Some(BitOr(0x5200, target.value))
    else if name == "MO" && |arguments| == 1 then
      var target := ResolveLayer(arguments[0], layers);
      if target.None? then None else Some(BitOr(0x5220, target.value))
    else if name == "LT" && |arguments| == 2 then
      PackLayerTap(ResolveLayer(arguments[0], layers), ResolveKeycode(arguments[1], layers, catalog))
    else if name == "MT" && |arguments| == 2 then
      ModTapKeycode(arguments[0], arguments[1], layers, catalog)
    else if |arguments| == 1 && EndsWith(name, "_T") && ModTapMacro(name).Some? then
      ModTapKeycode(ModTapMacro(name).value, arguments[0], layers, catalog)
    else
      None
  }

  function ModTapKeycode(modifier: string, tap: string, layers: Layers, catalog: Catalog): Option<nat>
    decreases |tap|, 4
  {
    PackModTap(OrModifiers(TrimAll(Split(modifier, '|')), 0), ResolveKeycode(tap, layers, catalog))
  }

  function PackLayerTap(layer: Option<nat>, tap: Option<nat>): Option<nat>
  {
    if layer.None? || tap.None? || tap.value > 0xff then None
    else Some(PackTap(0x4000, layer.value, tap.value))
  }

  function PackModTap(mods: Option<nat>, tap: Option<nat>): Option<nat>
  {
    if mods.None? || tap.None? || tap.value > 0xff then None
    else Some(PackTap(0x2000, mods.value % 32, tap.value))
  }
}
