// Describing a code and resolving the description gives the code back.
module KeycodeProofs {
  import opened Wrappers
  import opened Text
  import opened Keycode

  // ----- the preferred name -----

  ghost predicate UniqueNames(catalog: Catalog)
  {
    forall i, j :: 0 <= i < j < |catalog| ==> catalog[i].name != catalog[j].name
  }

  ghost predicate Names(catalog: Catalog, name: string, code: nat)
  {
    Entry(name, code) in catalog
  }

  lemma RankTotal(a: Rank, b: Rank)
    ensures a == b || RankLess(a, b) || RankLess(b, a)
  {
    StringLessTotal(a.name, b.name);
  }

  lemma RankTransitive(a: Rank, b: Rank, c: Rank)
    requires RankLess(a, b) && RankLess(b, c)
    ensures RankLess(a, c)
  {
    if a.notBasic == b.notBasic == c.notBasic && a.right == b.right == c.right && a.length == b.length == c.length {
      StringLessTransitive(a.name, b.name, c.name);
    }
  }

  lemma {:induction false} GetFinds(catalog: Catalog, name: string, code: nat)
    requires UniqueNames(catalog)
    ensures Get(catalog, name) == Some(code) <==> Names(catalog, name, code)
  {
    if catalog != [] {
      var first, rest := catalog[0], catalog[1..];
      assert UniqueNames(rest);
      GetFinds(rest, name, code);
      assert catalog == [first] + rest;
      if first.name == name {
        assert forall i :: 0 <= i < |rest| ==> rest[i] == catalog[i + 1];
      }
    }
  }

  // A code has a preferred name exactly when the catalog names it, and that
  // name precedes every other name of the code.
  lemma {:induction false} PreferredIsLeast(code: nat, catalog: Catalog, other: string)
    requires Names(catalog, other, code)
    ensures PreferredKeycodeName(code, catalog).Some?
    ensures var best := PreferredKeycodeName(code, catalog).value;
      other == best || RankLess(RankOf(best), RankOf(other))
    decreases |catalog|
  {
    var first, rest := catalog[0], catalog[1..];
    assert catalog == [first] + rest;
    var best := PreferredKeycodeName(code, rest);
    if Entry(other, code) in rest {
      PreferredIsLeast(code, rest, other);
      if first.code == code && other != best.value && RankLess(RankOf(first.name), RankOf(best.value)) {
        RankTransitive(RankOf(first.name), RankOf(best.value), RankOf(other));
      }
    } else if best.Some? {
      RankTotal(RankOf(first.name), RankOf(best.value));
    }
  }

  lemma {:induction false} PreferredIsNamed(code: nat, catalog: Catalog)
    requires PreferredKeycodeName(code, catalog).Some?
    ensures Names(catalog, PreferredKeycodeName(code, catalog).value, code)
    decreases |catalog|
  {
    var first, rest := catalog[0], catalog[1..];
    assert catalog == [first] + rest;
    if PreferredKeycodeName(code, rest).Some? {
      PreferredIsNamed(code, rest);
    }
  }

  // ----- bits -----

  // Or-ing into bits that are clear is addition.
  lemma {:induction false} OrDisjoint(a: nat, k: nat, b: nat)
    requires b < Pow2(k)
    ensures BitOr(a * Pow2(k), b) == a * Pow2(k) + b
  {
    if k == 0 {
      OrZero(a);
    } else {
      var half := a * Pow2(k - 1);
      assert a * Pow2(k) == 2 * half;
      OrDisjoint(a, k - 1, b / 2);
    }
  }

  lemma {:induction false} OrZero(a: nat)
    ensures BitOr(a, 0) == a
  {
    if a != 0 { OrZero(a / 2); }
  }

  // ----- the texts -----

  ghost predicate Plain(s: string)
  {
    '(' !in s && ',' !in s && Trim(s) == s
  }

  ghost predicate NoCallNames(layers: Layers, catalog: Catalog)
  {
    && UniqueNames(catalog)
    && (forall i :: 0 <= i < |catalog| ==> Plain(catalog[i].name))
    && (forall name :: name in layers ==> '(' !in name)
  }

  // The layer table and the catalog meet the limits of the expression syntax:
  // identifiers and names hold no parenthesis, comma or outer space, and every
  // layer identifier means its own index.
  ghost predicate Printable(layerIds: seq<string>, layers: Layers, catalog: Catalog)
  {
    && NoCallNames(layers, catalog)
    && (forall i :: 0 <= i < |layerIds| ==> Plain(layerIds[i]) && layerIds[i] in layers && layers[layerIds[i]] == i)
  }

  lemma CallIsSplit(name: string, inner: string, layers: Layers, catalog: Catalog)
    requires '(' !in name && NoCallNames(layers, catalog)
    ensures var e := name + "(" + inner + ")";
      Get(catalog, e).None? && e !in layers && SplitCall(e) == Some((name, inner))
  {
    var e := name + "(" + inner + ")";
    assert e[|name|] == '(';
    if Get(catalog, e).Some? {
      GetFinds(catalog, e, Get(catalog, e).value);
    }
    assert e == name + ['('] + (inner + ")");
    IndexOfAt(name, '(', inner + ")");
    assert e[|name| + 1..] == inner + ")";
    assert (inner + ")")[..|inner|] == inner;
    assert e[..|name|] == name;
  }

  lemma CallResolves(name: string, inner: string, layers: Layers, catalog: Catalog)
    requires '(' !in name && NoCallNames(layers, catalog)
    ensures ResolveKeycode(name + "(" + inner + ")", layers, catalog)
         == ResolveCall(name, TrimAll(Split(inner, ',')), |inner|, layers, catalog)
  {
    CallIsSplit(name, inner, layers, catalog);
  }

  lemma TwoArguments(a: string, b: string)
    requires ',' !in a && Trim(a) == a && Plain(b)
    ensures TrimAll(Split(a + [','] + ([' '] + b), ',')) == [a, b]
  {
    SplitCons(a, ',', [' '] + b);
    IndexOfAbsent([' '] + b, ',');
    TrimmedStaysTrimmed(b);
  }

  lemma TapResolves(code: nat, layers: Layers, catalog: Catalog)
    requires UniqueNames(catalog) && forall i :: 0 <= i < |catalog| ==> Plain(catalog[i].name)
    requires PreferredKeycodeName(code, catalog).Some?
    ensures var name := PreferredKeycodeName(code, catalog).value;
      Plain(name) && ResolveKeycode(name, layers, catalog) == Some(code)
  {
    var name := PreferredKeycodeName(code, catalog).value;
    PreferredIsNamed(code, catalog);
    GetFinds(catalog, name, code);
  }

  // ----- round trips by kind -----

  lemma LayerMoveRoundTrip(layer: nat, layerIds: seq<string>, layers: Layers, catalog: Catalog)
    requires Printable(layerIds, layers, catalog) && layer < |layerIds| && layer < 32
    ensures ResolveKeycode("TO" + "(" + layerIds[layer] + ")", layers, catalog) == Some(0x5200 + layer)
  {
    CallResolves("TO", layerIds[layer], layers, catalog);
    assert Pow2(5) == 32;
    OrDisjoint(0x290, 5, layer);
  }

  lemma MomentaryRoundTrip(layer: nat, layerIds: seq<string>, layers: Layers, catalog: Catalog)
    requires Printable(layerIds, layers, catalog) && layer < |layerIds| && layer < 16
    ensures ResolveKeycode("MO" + "(" + layerIds[layer] + ")", layers, catalog) == Some(0x5220 + layer)
  {
    CallResolves("MO", layerIds[layer], layers, catalog);
    assert Pow2(4) == 16;
    OrDisjoint(0x522, 4, layer);
  }

  // `low` is or-ed into the clear low bits of `x`, a multiple of 2^k.
  lemma OrInto(x: nat, a: nat, k: nat, low: nat)
    requires x == a * Pow2(k) && low < Pow2(k)
    ensures BitOr(x, low) == x + low
  {
    OrDisjoint(a, k, low);
  }

  lemma LayerTapPacked(layer: nat, code: nat)
    requires layer < 16 && code < 0x100
    ensures PackTap(0x4000, layer, code) == 0x4000 + layer * 0x100 + code
  {
    assert Pow2(12) == 0x1000 && Pow2(8) == 0x100;
    OrInto(0x4000, 4, 12, layer * 0x100);
    var x := 0x4000 + layer * 0x100;
    OrInto(x, 0x40 + layer, 8, code);
  }

  lemma ModTapPacked(mods: nat, code: nat)
    requires mods < 32 && code < 0x100
    ensures PackTap(0x2000, mods, code) == 0x2000 + mods * 0x100 + code
  {
    assert Pow2(13) == 0x2000 && Pow2(8) == 0x100;
    OrInto(0x2000, 1, 13, mods * 0x100);
    var x := 0x2000 + mods * 0x100;
    OrInto(x, 0x20 + mods, 8, code);
  }

  lemma ResolveLayerTap(id: string, tap: string, layers: Layers, catalog: Catalog)
    requires NoCallNames(layers, catalog)
    requires Plain(id) && Plain(tap)
    ensures ResolveKeycode("LT" + "(" + (id + [','] + ([' '] + tap)) + ")", layers, catalog)
         == PackLayerTap(ResolveLayer(id, layers), ResolveKeycode(tap, layers, catalog))
  {
    CallResolves("LT", id + [','] + ([' '] + tap), layers, catalog);
    TwoArguments(id, tap);
  }

  lemma LayerTapValue(layer: nat, code: nat)
    requires layer < 16 && code < 0x100
    ensures PackLayerTap(Some(layer), Some(code)) == Some(0x4000 + layer * 0x100 + code)
  {
    LayerTapPacked(layer, code);
  }

  lemma LayerTapRoundTrip(layer: nat, code: nat, layerIds: seq<string>, layers: Layers, catalog: Catalog)
    requires Printable(layerIds, layers, catalog) && layer < |layerIds| && layer < 16 && code < 0x100
    requires PreferredKeycodeName(code, catalog).Some?
    ensures var tap := PreferredKeycodeName(code, catalog).value;
      ResolveKeycode("LT" + "(" + (layerIds[layer] + [','] + ([' '] + tap)) + ")", layers, catalog)
      == Some(0x4000 + layer * 0x100 + code)
  {
    var tap := PreferredKeycodeName(code, catalog).value;
    TapResolves(code, layers, catalog);
    ResolveLayerTap(layerIds[layer], tap, layers, catalog);
    LayerTapValue(layer, code);
  }

  // ----- modifiers -----

  lemma {:induction false} OrSymmetric(a: nat, b: nat)
    ensures BitOr(a, b) == BitOr(b, a)
  {
    if a != 0 || b != 0 { OrSymmetric(a / 2, b / 2); }
  }

  // A bit that both operands have appears once.
  lemma {:induction false} OrShared(k: nat, a: nat, b: nat)
    requires a < Pow2(k) && b < Pow2(k)
    ensures BitOr(Pow2(k) + a, Pow2(k) + b) == Pow2(k) + BitOr(a, b)
  {
    if k > 0 {
      OrShared(k - 1, a / 2, b / 2);
      assert (Pow2(k) + a) / 2 == Pow2(k - 1) + a / 2 && (Pow2(k) + b) / 2 == Pow2(k - 1) + b / 2;
    }
  }

  function Side(right: bool): nat { if right then 16 else 0 }

  function Sided(low: nat, right: bool): nat { if low == 0 then 0 else low + Side(right) }

  lemma OrSided(low: nat, k: nat, right: bool)
    requires k < 4 && low < Pow2(k)
    ensures BitOr(Sided(low, right), Pow2(k) + Side(right)) == low + Pow2(k) + Side(right)
  {
    assert Pow2(0) == 1 && Pow2(1) == 2 && Pow2(2) == 4 && Pow2(3) == 8 && Pow2(4) == 16;
    if low == 0 {
      OrSymmetric(0, Pow2(k) + Side(right));
      OrZero(Pow2(k) + Side(right));
    } else {
      OrDisjoint(1, k, low);
      OrSymmetric(low, Pow2(k));
      if right { OrShared(4, low, Pow2(k)); }
    }
  }

  lemma {:induction false} OrModifiersAppend(a: seq<string>, b: seq<string>, mods: nat)
    requires OrModifiers(a, mods).Some?
    ensures OrModifiers(a + b, mods) == OrModifiers(b, OrModifiers(a, mods).value)
    decreases |a|
  {
    if a == [] {
      assert a + b == b;
    } else {
      assert (a + b)[1..] == a[1..] + b;
      OrModifiersAppend(a[1..], b, BitOr(mods, ModifierCode(a[0]).value));
    }
  }

  ghost predicate Known(names: seq<string>)
  {
    forall i :: 0 <= i < |names| ==> ModifierCode(names[i]).Some?
  }

  // `names` are known and or together to `low` on one side.
  ghost predicate Collects(names: seq<string>, low: nat, right: bool)
  {
    Known(names) && OrModifiers(names, 0) == Some(Sided(low, right)) && (names == [] <==> low == 0)
  }

  lemma CollectName(names: seq<string>, low: nat, name: string, k: nat, right: bool)
    requires k < 4 && low < Pow2(k) && Collects(names, low, right)
    requires ModifierCode(name) == Some(Pow2(k) + Side(right))
    ensures Collects(names + [name], low + Pow2(k), right)
  {
    OrSided(low, k, right);
    OrModifiersAppend(names, [name], 0);
  }

  lemma CollectIf(names: seq<string>, low: nat, on: bool, name: string, k: nat, right: bool)
    requires k < 4 && low < Pow2(k) && Collects(names, low, right)
    requires ModifierCode(name) == Some(Pow2(k) + Side(right))
    ensures Collects(names + (if on then [name] else []), low + Weight(on, Pow2(k)), right)
  {
    if on {
      CollectName(names, low, name, k, right);
    } else {
      assert names + [] == names;
    }
  }

  lemma CollectOne(names: seq<string>, low: nat, on: bool, k: nat, right: bool)
    requires k < 4 && low < Pow2(k) && Collects(names, low, right)
    ensures Collects(names + NameIf(on, k, right), low + Weight(on, Pow2(k)), right)
  {
    CollectIf(names, low, on, ModifierName(k, right), k, right);
  }

  function Weight(on: bool, weight: nat): nat { if on then weight else 0 }

  function Nibble(c: bool, s: bool, a: bool, g: bool): nat
  {
    Weight(c, 1) + Weight(s, 2) + Weight(a, 4) + Weight(g, 8)
  }

  lemma CollectTwo(c: bool, s: bool, right: bool)
    ensures Collects(NameIf(c, 0, right) + NameIf(s, 1, right), Weight(c, 1) + Weight(s, 2), right)
  {
    assert Pow2(0) == 1 && Pow2(1) == 2;
    CollectOne([], 0, c, 0, right);
    var names := NameIf(c, 0, right);
    assert [] + names == names;
    CollectOne(names, Weight(c, 1), s, 1, right);
  }

  lemma CollectFour(c: bool, s: bool, a: bool, g: bool, right: bool)
    ensures Collects(
      NameIf(c, 0, right) + NameIf(s, 1, right) + NameIf(a, 2, right) + NameIf(g, 3, right), Nibble(c, s, a, g), right)
  {
    assert Pow2(2) == 4 && Pow2(3) == 8;
    CollectTwo(c, s, right);
    var names, low := NameIf(c, 0, right) + NameIf(s, 1, right), Weight(c, 1) + Weight(s, 2);
    CollectOne(names, low, a, 2, right);
    names, low := names + NameIf(a, 2, right), low + Weight(a, 4);
    CollectOne(names, low, g, 3, right);
  }

  lemma NibbleOfBits(mods: nat)
    requires mods < 32
    ensures Nibble(mods % 2 == 1, mods / 2 % 2 == 1, mods / 4 % 2 == 1, mods / 8 % 2 == 1) == mods % 16
    ensures mods / 16 % 2 == mods / 16
    ensures mods % 16 != 0 ==> Sided(mods % 16, mods / 16 == 1) == mods
  {
  }

  // The names of a nonempty low nibble or together to the modifiers.
  lemma ModifiersRoundTrip(mods: nat)
    requires mods < 32
    ensures Collects(ModifierNames(mods), mods % 16, mods / 16 == 1)
  {
    NibbleOfBits(mods);
    CollectFour(mods % 2 == 1, mods / 2 % 2 == 1, mods / 4 % 2 == 1, mods / 8 % 2 == 1, mods / 16 == 1);
  }

  lemma ModifierShape(name: string)
    requires ModifierCode(name).Some?
    ensures |name| == 8
    ensures name[0] == 'M'
    ensures !IsWhitespace(name[7])
    ensures '|' !in name
    ensures ',' !in name
    ensures Trim(name) == name
  {
  }

  lemma {:induction false} JoinedModifiers(names: seq<string>)
    requires names != [] && Known(names)
    ensures var s := Join(names, '|');
      s != "" && s[0] == 'M' && !IsWhitespace(s[|s| - 1]) && ',' !in s
    decreases |names|
  {
    ModifierShape(names[0]);
    if |names| > 1 { JoinedModifiers(names[1..]); }
  }

  lemma SplitModifiers(names: seq<string>)
    requires names != [] && Known(names)
    ensures TrimAll(Split(Join(names, '|'), '|')) == names
  {
    forall i | 0 <= i < |names| ensures '|' !in names[i] && Trim(names[i]) == names[i] {
      ModifierShape(names[i]);
    }
    SplitJoin(names, '|');
  }

  // ----- mod-taps -----

  lemma ResolveModTap(modifier: string, tap: string, layers: Layers, catalog: Catalog)
    requires NoCallNames(layers, catalog)
    requires ',' !in modifier && Trim(modifier) == modifier && Plain(tap)
    ensures ResolveKeycode("MT" + "(" + (modifier + [','] + ([' '] + tap)) + ")", layers, catalog)
         == ModTapKeycode(modifier, tap, layers, catalog)
  {
    CallResolves("MT", modifier + [','] + ([' '] + tap), layers, catalog);
    TwoArguments(modifier, tap);
  }

  lemma SimpleNameShape(mods: nat)
    requires SimpleModTap(mods).Some?
    ensures mods < 32 && mods % 16 != 0
    ensures var name := SimpleModTap(mods).value; '(' !in name && EndsWith(name, "_T") && |name| > 2
  {
  }

  lemma SimpleNameMeans(mods: nat) returns (modifier: string)
    requires SimpleModTap(mods).Some?
    ensures ModTapMacro(SimpleModTap(mods).value) == Some(modifier) && ModifierCode(modifier) == Some(mods)
  {
    modifier := ModTapMacro(SimpleModTap(mods).value).value;
  }

  lemma ResolveSimple(mods: nat, tap: string, layers: Layers, catalog: Catalog) returns (modifier: string)
    requires NoCallNames(layers, catalog)
    requires SimpleModTap(mods).Some? && Plain(tap)
    ensures ModifierCode(modifier) == Some(mods) && mods < 32
    ensures ResolveKeycode(SimpleModTap(mods).value + "(" + tap + ")", layers, catalog)
         == ModTapKeycode(modifier, tap, layers, catalog)
  {
    SimpleNameShape(mods);
    modifier := SimpleNameMeans(mods);
    ResolveMacro(SimpleModTap(mods).value, modifier, tap, layers, catalog);
  }

  lemma ResolveMacro(name: string, modifier: string, tap: string, layers: Layers, catalog: Catalog)
    requires NoCallNames(layers, catalog)
    requires '(' !in name && EndsWith(name, "_T") && |name| > 2 && ModTapMacro(name) == Some(modifier) && Plain(tap)
    ensures ResolveKeycode(name + "(" + tap + ")", layers, catalog) == ModTapKeycode(modifier, tap, layers, catalog)
  {
    CallResolves(name, tap, layers, catalog);
  }

  lemma OneModifier(modifier: string, mods: nat)
    requires ModifierCode(modifier) == Some(mods)
    ensures OrModifiers(TrimAll(Split(modifier, '|')), 0) == Some(mods)
  {
    ModifierShape(modifier);
    IndexOfAbsent(modifier, '|');
    assert TrimAll(Split(modifier, '|')) == [modifier];
    OrSymmetric(0, mods);
    OrZero(mods);
  }

  lemma PackedValue(mods: nat, code: nat)
    requires mods < 32 && code < 0x100
    ensures PackModTap(Some(mods), Some(code)) == Some(0x2000 + mods * 0x100 + code)
  {
    ModTapPacked(mods, code);
    assert mods % 32 == mods;
  }

  lemma ModTapValue(modifier: string, mods: nat, tap: string, code: nat, layers: Layers, catalog: Catalog)
    requires OrModifiers(TrimAll(Split(modifier, '|')), 0) == Some(mods) && mods < 32
    requires ResolveKeycode(tap, layers, catalog) == Some(code) && code < 0x100
    ensures ModTapKeycode(modifier, tap, layers, catalog) == Some(0x2000 + mods * 0x100 + code)
  {
    PackedValue(mods, code);
    assert ModTapKeycode(modifier, tap, layers, catalog) == PackModTap(Some(mods), Some(code));
  }

  lemma SimpleModTapRoundTrip(mods: nat, code: nat, layerIds: seq<string>, layers: Layers, catalog: Catalog)
    requires Printable(layerIds, layers, catalog) && code < 0x100
    requires SimpleModTap(mods).Some? && PreferredKeycodeName(code, catalog).Some?
    ensures mods % 16 != 0
    ensures var tap := PreferredKeycodeName(code, catalog).value;
      ResolveKeycode(SimpleModTap(mods).value + "(" + tap + ")", layers, catalog) == Some(0x2000 + mods * 0x100 + code)
  {
    var tap := PreferredKeycodeName(code, catalog).value;
    TapResolves(code, layers, catalog);
    SimpleNameShape(mods);
    var modifier := ResolveSimple(mods, tap, layers, catalog);
    OneModifier(modifier, mods);
    ModTapValue(modifier, mods, tap, code, layers, catalog);
  }

  lemma NamedModTapRoundTrip(mods: nat, code: nat, layerIds: seq<string>, layers: Layers, catalog: Catalog)
    requires Printable(layerIds, layers, catalog) && code < 0x100 && mods < 32 && mods % 16 != 0
    requires PreferredKeycodeName(code, catalog).Some?
    ensures var tap := PreferredKeycodeName(code, catalog).value;
      ResolveKeycode("MT" + "(" + (Join(ModifierNames(mods), '|') + [','] + ([' '] + tap)) + ")", layers, catalog)
      == Some(0x2000 + mods * 0x100 + code)
  {
    var tap := PreferredKeycodeName(code, catalog).value;
    TapResolves(code, layers, catalog);
    ModifiersRoundTrip(mods);
    NibbleOfBits(mods);
    var modifier := JoinAndSplit(ModifierNames(mods));
    ResolveModTap(modifier, tap, layers, catalog);
    ModTapValue(modifier, mods, tap, code, layers, catalog);
  }

  lemma JoinAndSplit(names: seq<string>) returns (joined: string)
    requires names != [] && Known(names)
    ensures joined == Join(names, '|') && ',' !in joined && Trim(joined) == joined
    ensures TrimAll(Split(joined, '|')) == names
  {
    joined := Join(names, '|');
    JoinedModifiers(names);
    SplitModifiers(names);
  }

  lemma EmptyModTapFails(mods: nat, code: nat, layers: Layers, catalog: Catalog)
    requires NoCallNames(layers, catalog) && mods < 32 && mods % 16 == 0
    requires PreferredKeycodeName(code, catalog).Some?
    ensures var tap := PreferredKeycodeName(code, catalog).value;
      ResolveKeycode("MT" + "(" + (Join(ModifierNames(mods), '|') + [','] + ([' '] + tap)) + ")", layers, catalog)
      == None
  {
    ModifiersRoundTrip(mods);
    TapResolves(code, layers, catalog);
    ResolveModTap("", PreferredKeycodeName(code, catalog).value, layers, catalog);
    assert TrimAll(Split("", '|')) == [""];
  }

  // ----- the whole round trip -----

  ghost predicate ModTapWithoutModifier(code: nat)
  {
    code / 0x2000 == 1 && code / 0x100 % 16 == 0
  }

  ghost predicate RoundTrips(code: nat, text: Option<string>, layers: Layers, catalog: Catalog)
  {
    text.Some? ==>
      ResolveKeycode(text.value, layers, catalog) == if ModTapWithoutModifier(code) then None else Some(code)
  }

  lemma ModTapDescription(mods: nat, code: nat, layerIds: seq<string>, layers: Layers, catalog: Catalog)
    requires Printable(layerIds, layers, catalog) && mods < 32 && code < 0x100
    ensures RoundTrips(
      0x2000 + mods * 0x100 + code, DescribeModTap(mods, PreferredKeycodeName(code, catalog)), layers, catalog)
  {
    assert ModTapWithoutModifier(0x2000 + mods * 0x100 + code) <==> mods % 16 == 0;
    if PreferredKeycodeName(code, catalog).Some? {
      if SimpleModTap(mods).Some? {
        SimpleModTapRoundTrip(mods, code, layerIds, layers, catalog);
      } else if mods % 16 != 0 {
        NamedModTapRoundTrip(mods, code, layerIds, layers, catalog);
      } else {
        EmptyModTapFails(mods, code, layers, catalog);
      }
    }
  }

  lemma LayerDescription(code: nat, layerIds: seq<string>, layers: Layers, catalog: Catalog)
    requires Printable(layerIds, layers, catalog) && 0x5200 <= code <= 0x522f
    ensures RoundTrips(code, DescribeKeycode(code, layerIds, catalog), layers, catalog)
  {
    if code <= 0x521f {
      if code - 0x5200 < |layerIds| { LayerMoveRoundTrip(code - 0x5200, layerIds, layers, catalog); }
    } else {
      if code - 0x5220 < |layerIds| { MomentaryRoundTrip(code - 0x5220, layerIds, layers, catalog); }
    }
  }

  lemma LayerTapDescription(layer: nat, code: nat, layerIds: seq<string>, layers: Layers, catalog: Catalog)
    requires Printable(layerIds, layers, catalog) && layer < 16 && code < 0x100
    ensures var text := DescribeLayerTap(layer, PreferredKeycodeName(code, catalog), layerIds);
      RoundTrips(0x4000 + layer * 0x100 + code, text, layers, catalog)
  {
    if PreferredKeycodeName(code, catalog).Some? && layer < |layerIds| {
      LayerTapRoundTrip(layer, code, layerIds, layers, catalog);
    }
  }

  lemma TapFields(code: nat)
    ensures code / 0x1000 == 4 ==> code == 0x4000 + code / 0x100 % 16 * 0x100 + code % 0x100
    ensures code / 0x2000 == 1 ==> code == 0x2000 + code / 0x100 % 32 * 0x100 + code % 0x100
  {
  }

  lemma PlainDescription(code: nat, layers: Layers, catalog: Catalog)
    requires NoCallNames(layers, catalog) && !ModTapWithoutModifier(code)
    ensures RoundTrips(code, PreferredKeycodeName(code, catalog), layers, catalog)
  {
    if PreferredKeycodeName(code, catalog).Some? { TapResolves(code, layers, catalog); }
  }

  lemma EveryDescription(code: nat, layerIds: seq<string>, layers: Layers, catalog: Catalog)
    requires Printable(layerIds, layers, catalog)
    ensures RoundTrips(code, DescribeKeycode(code, layerIds, catalog), layers, catalog)
  {
    TapFields(code);
    if 0x5200 <= code <= 0x522f {
      LayerDescription(code, layerIds, layers, catalog);
    } else if code / 0x1000 == 4 {
      LayerTapDescription(code / 0x100 % 16, code % 0x100, layerIds, layers, catalog);
    } else if code / 0x2000 == 1 {
      ModTapDescription(code / 0x100 % 32, code % 0x100, layerIds, layers, catalog);
    } else {
      PlainDescription(code, layers, catalog);
    }
  }

  // Every description resolves to the code it describes, except that a mod-tap
  // without a modifier is described by an expression that does not resolve.
  lemma DescriptionRoundTrip(code: nat, layerIds: seq<string>, layers: Layers, catalog: Catalog)
    requires Printable(layerIds, layers, catalog)
    requires DescribeKeycode(code, layerIds, catalog).Some?
    ensures ResolveKeycode(DescribeKeycode(code, layerIds, catalog).value, layers, catalog)
         == if ModTapWithoutModifier(code) then None else Some(code)
  {
    EveryDescription(code, layerIds, layers, catalog);
  }
}
