// The keymap generator's own encoder: a key's label becomes a QMK expression,
// layer identifiers in it become indices, and the result becomes a code.
module Encoder {
  import opened Wrappers
  import opened Text
  import opened Keycode

  // The generator's language strips four more control characters.
  predicate PySpace(c: char) { IsWhitespace(c) || '\U{001C}' <= c <= '\U{001F}' }

  function StripStart(s: string, ws: char -> bool): (t: string)
    ensures |t| <= |s|
  {
    if s != "" && ws(s[0]) then StripStart(s[1..], ws) else s
  }

  function StripEnd(s: string, ws: char -> bool): (t: string)
    ensures |t| <= |s|
  {
    if s != "" && ws(s[|s| - 1]) then StripEnd(s[..|s| - 1], ws) else s
  }

  function Strip(s: string, ws: char -> bool): (t: string)
    ensures |t| <= |s|
  {
    StripEnd(StripStart(s, ws), ws)
  }

  function PyStrip(s: string): (t: string)
    ensures |t| <= |s|
  {
    Strip(s, PySpace)
  }

  function StripAll(pieces: seq<string>, ws: char -> bool): (stripped: seq<string>)
    ensures |stripped| == |pieces|
    ensures forall i :: 0 <= i < |pieces| ==> stripped[i] == Strip(pieces[i], ws)
  {
    seq(|pieces|, i requires 0 <= i < |pieces| => Strip(pieces[i], ws))
  }

  // Value of a decimal digit, of any script.
  type Digits = char -> Option<nat>

  ghost predicate UnicodeDigits(digits: Digits)
  {
    forall c ::
      && ('0' <= c <= '9' ==> digits(c) == Some((c as int) - ('0' as int)))
      && (digits(c).Some? ==> !PySpace(c) && ('0' <= c <= '9' || c >= '\U{0080}'))
  }

  predicate AllDigits(s: string, digits: Digits)
  {
    s != "" && forall i :: 0 <= i < |s| ==> digits(s[i]).Some?
  }

  function IntOf(s: string, digits: Digits, value: nat := 0): nat
    requires forall i :: 0 <= i < |s| ==> digits(s[i]).Some?
  {
    if s == "" then value else IntOf(s[1..], digits, value * 10 + digits(s[0]).value)
  }

  function Decimal(n: nat): (s: string)
    ensures s != "" && forall i :: 0 <= i < |s| ==> '0' <= s[i] <= '9'
  {
    if n < 10 then ['0' + n as char] else Decimal(n / 10) + ['0' + (n % 10) as char]
  }

  // ----- label to expression -----

  function IdentChar(c: char): char
  {
    if 'a' <= c <= 'z' then c - ' '
    else if 'A' <= c <= 'Z' || '0' <= c <= '9' then c
    else '_'
  }

  function CIdent(name: string): (id: string)
    ensures |id| == |name| + 1 && id[0] == '_'
    ensures forall i :: 0 <= i < |id| ==> IsIdentChar(id[i])
  {
    ['_'] + seq(|name|, i requires 0 <= i < |name| => IdentChar(name[i]))
  }

  predicate IsIdentChar(c: char) { 'A' <= c <= 'Z' || '0' <= c <= '9' || c == '_' }

  predicate IsIdent(s: string)
  {
    |s| > 1 && s[0] == '_' && forall i :: 0 <= i < |s| ==> IsIdentChar(s[i])
  }

  // A letter, a digit or F1 to F24.
  predicate BareKey(key: string)
  {
    || (|key| == 1 && ('A' <= key[0] <= 'Z' || '0' <= key[0] <= '9'))
    || (|key| == 2 && key[0] == 'F' && '1' <= key[1] <= '9')
    || (|key| == 3 && key[0] == 'F' && key[1] == '1' && '0' <= key[2] <= '9')
    || (|key| == 3 && key[0] == 'F' && key[1] == '2' && '0' <= key[2] <= '4')
  }

  type Aliases = map<string, string>

  function QmkKeycode(key: string, names: seq<string>, aliases: Aliases): Option<string>
  {
    if key in names then Some("MO" + "(" + CIdent(key) + ")")
    else if key in aliases then Some(aliases[key])
    else if BareKey(key) then Some("KC_" + key)
    else if StartsWith(key, "KC_") || StartsWith(key, "QK_") || '(' in key then Some(key)
    else None
  }

  function Replace(s: string, old_: string, new_: string): string
    requires old_ != ""
  {
    if |s| < |old_| then s
    else if s[..|old_|] == old_ then new_ + Replace(s[|old_|..], old_, new_)
    else [s[0]] + Replace(s[1..], old_, new_)
  }

  // What names a layer: `MO(_X)`, `LT(_X,` and `TO(_X)`.
  function LayerCall(function_: string, layer: string, end: string): (s: string)
    ensures s != ""
  {
    function_ + "(" + layer + end
  }

  function ReplaceCall(code: string, function_: string, name: string, index: nat, end: string): string
  {
    Replace(code, LayerCall(function_, CIdent(name), end), LayerCall(function_, Decimal(index), end))
  }

  function ReplaceLayer(code: string, name: string, index: nat): string
  {
    ReplaceCall(ReplaceCall(ReplaceCall(code, "MO", name, index, ")"), "LT", name, index, ","), "TO", name, index, ")")
  }

  function ReplaceLayers(code: string, names: seq<string>): string
    decreases |names|
  {
    if names == [] then code
    else ReplaceLayer(ReplaceLayers(code, names[..|names| - 1]), names[|names| - 1], |names| - 1)
  }

  // ----- expression to code -----

  function PyModifier(name: string): Option<nat>
  {
    if name == "MOD_LCTL" then Some(0x01)
    else if name == "MOD_LSFT" then Some(0x02)
    else if name == "MOD_LALT" then Some(0x04)
    else if name == "MOD_LGUI" then Some(0x08)
    else if name == "MOD_RCTL" then Some(0x11)
    else if name == "MOD_RSFT" then Some(0x12)
    else if name == "MOD_RALT" then Some(0x14)
    else if name == "MOD_RGUI" then Some(0x18)
    else None
  }

  function PyMacro(name: string): Option<string>
  {
    if name == "LCTL_T" then Some("MOD_LCTL")
    else if name == "LSFT_T" then Some("MOD_LSFT")
    else if name == "LALT_T" then Some("MOD_LALT")
    else if name == "LGUI_T" then Some("MOD_LGUI")
    else if name == "RCTL_T" then Some("MOD_RCTL")
    else if name == "RSFT_T" then Some("MOD_RSFT")
    else if name == "RALT_T" then Some("MOD_RALT")
    else if name == "RGUI_T" then Some("MOD_RGUI")
    else None
  }

  function PyMods(names: seq<string>, mods: nat): Option<nat>
  {
    if names == [] then Some(mods)
    else if PyModifier(names[0]).None? then None
    else PyMods(names[1..], BitOr(mods, PyModifier(names[0]).value))
  }

  predicate NoParens(s: string) { '(' !in s && ')' !in s }

  // The text before the first comma and the text after it.
  function SplitPair(inner: string): (pair: Option<(string, string)>)
    ensures pair.Some? ==> |pair.value.0| + |pair.value.1| < |inner|
  {
    var comma := IndexOf(inner, ',');
    if comma == |inner| || comma == 0 || comma + 1 == |inner| || !NoParens(inner[comma + 1..]) then None
    else Some((inner[..comma], inner[comma + 1..]))
  }

  function Lookup(code: string, catalog: Catalog): Option<nat>
  {
    if Get(catalog, code).Some? then Some(Get(catalog, code).value) else None
  }

  function ViaKeycode(code: string, catalog: Catalog, digits: Digits): Option<nat>
    decreases |code|, 2
  {
    if SplitCall(code).None? then Lookup(code, catalog)
    else
      var (name, inner) := SplitCall(code).value;
      if PyMacro(name).Some? && inner != "" && NoParens(inner) then
        PyModTap(PyMacro(name).value, inner, catalog, digits)
      else if name == "MT" && SplitPair(inner).Some? then
        PyModTap(PyStrip(SplitPair(inner).value.0), SplitPair(inner).value.1, catalog, digits)
      else if name == "LT" && SplitPair(inner).Some? && IsIdent(SplitPair(inner).value.0) then None
      else if name == "LT" && SplitPair(inner).Some? && AllDigits(SplitPair(inner).value.0, digits) then
        PyLayerTap(IntOf(SplitPair(inner).value.0, digits), SplitPair(inner).value.1, catalog, digits)
      else if name == "MO" && IsIdent(inner) then None
      else if name == "MO" && AllDigits(inner, digits) then Some(BitOr(0x5220, IntOf(inner, digits)))
      else if name == "TO" && IsIdent(inner) then None
      else if name == "TO" && AllDigits(inner, digits) then
        if IntOf(inner, digits) > 31 then None else Some(BitOr(0x5200, IntOf(inner, digits)))
      else Lookup(code, catalog)
  }

  function PyModTap(modifier: string, tap: string, catalog: Catalog, digits: Digits): Option<nat>
    decreases |tap|, 3
  {
    var mods, code := PyMods(StripAll(Split(modifier, '|'), PySpace), 0), ViaKeycode(PyStrip(tap), catalog, digits);
    if mods.None? || code.None? || code.value > 0xff then None else Some(PackTap(0x2000, mods.value % 32, code.value))
  }

  function PyLayerTap(layer: nat, tap: string, catalog: Catalog, digits: Digits): Option<nat>
    decreases |tap|, 3
  {
    var code := ViaKeycode(PyStrip(tap), catalog, digits);
    if layer > 15 || code.None? || code.value > 0xff then None else Some(PackTap(0x4000, layer, code.value))
  }

  // The code of a key's label in the generated keymap.
  function Encode(key: string, names: seq<string>, aliases: Aliases, catalog: Catalog, digits: Digits): Option<nat>
  {
    var code := QmkKeycode(key, names, aliases);
    if code.None? then None else ViaKeycode(ReplaceLayers(code.value, names), catalog, digits)
  }

  // The same, with the layer names replaced in a loop.
  method EncodeKey(key: string, names: seq<string>, aliases: Aliases, catalog: Catalog, digits: Digits)
    returns (result: Option<nat>)
    ensures result == Encode(key, names, aliases, catalog, digits)
  {
    var qmk := QmkKeycode(key, names, aliases);
    if qmk.None? {
      return None;
    }
    var code := qmk.value;
    for index := 0 to |names|
      invariant code == ReplaceLayers(qmk.value, names[..index])
    {
      assert names[..index + 1][..index] == names[..index];
      code := ReplaceCall(code, "MO", names[index], index, ")");
      code := ReplaceCall(code, "LT", names[index], index, ",");
      code := ReplaceCall(code, "TO", names[index], index, ")");
    }
    assert names[..|names|] == names;
    result := ViaKeycode(code, catalog, digits);
  }
}
