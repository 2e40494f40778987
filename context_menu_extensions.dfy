/**
 * The keyboard-shortcut helpers for context menus: the gesture text shown
 * next to a menu item ("Ctrl + Shift + C"), the rule that a shortcut needs a
 * modifier unless it is a numeric-keypad key, and the effect of adding a
 * binding to a menu.
 *
 * A key is represented by its name (`Key.ToString()`), a `ModifierKeys`
 * flag combination by the set of flags it contains.
 */
module ExtensionMethods {
  import opened Results
  import opened Listings
  import opened Text

  /** The flags of `ModifierKeys`; the empty set is `ModifierKeys.None`. */
  datatype ModifierKey = Alt | Control | Shift | Windows

  /** The numeric value of each flag. */
  function FlagValue(m: ModifierKey): nat {
    match m
    case Alt => 1
    case Control => 2
    case Shift => 4
    case Windows => 8
  }

  /** The flags in declaration order, which is ascending flag value. */
  const FlagOrder: seq<ModifierKey> := [Alt, Control, Shift, Windows]

  /** `nameof(ModifierKeys.X)`, also the name `ToString` prints for flag X. */
  function Name(m: ModifierKey): string {
    match m
    case Alt => "Alt"
    case Control => "Control"
    case Shift => "Shift"
    case Windows => "Windows"
  }

  /** The text the gesture string shows for each flag. */
  function Label(m: ModifierKey): string {
    match m
    case Alt => "Alt + "
    case Control => "Ctrl + "
    case Shift => "Shift + "
    case Windows => "Win + "
  }

  /** The flags set in `mods`, in declaration order. */
  function Flags(mods: set<ModifierKey>): seq<ModifierKey> {
    Within(FlagOrder, mods)
  }

  predicate Ascending(ms: seq<ModifierKey>) {
    forall i, j :: 0 <= i < j < |ms| ==> FlagValue(ms[i]) < FlagValue(ms[j])
  }

  lemma AscendingTail(ms: seq<ModifierKey>)
    requires Ascending(ms) && ms != []
    ensures Ascending(ms[1..])
    ensures forall y :: y in Elems(ms[1..]) ==> FlagValue(ms[0]) < FlagValue(y)
  {
    forall y | y in Elems(ms[1..]) ensures FlagValue(ms[0]) < FlagValue(y) {
      var k :| 0 <= k < |ms[1..]| && ms[1..][k] == y;
      assert ms[1..][k] == ms[k + 1];
    }
  }

  lemma AscendingCons(x: ModifierKey, ys: seq<ModifierKey>)
    requires Ascending(ys)
    requires forall y :: y in Elems(ys) ==> FlagValue(x) < FlagValue(y)
    ensures Ascending([x] + ys)
  {
    var r := [x] + ys;
    forall i, j | 0 <= i < j < |r| ensures FlagValue(r[i]) < FlagValue(r[j]) {
      assert r[j] == ys[j - 1];
      if i == 0 {
        assert ys[j - 1] in Elems(ys);
      } else {
        assert r[i] == ys[i - 1];
      }
    }
  }

  lemma {:induction false} WithinAscending(ms: seq<ModifierKey>, s: set<ModifierKey>)
    requires Ascending(ms)
    ensures Ascending(Within(ms, s))
  {
    if ms != [] {
      AscendingTail(ms);
      WithinAscending(ms[1..], s);
      var tail := Within(ms[1..], s);
      if ms[0] in s {
        assert Within(ms, s) == [ms[0]] + tail;
        AscendingCons(ms[0], tail);
      } else {
        assert Within(ms, s) == tail;
      }
    }
  }

  /**
   * `Flags(mods)` lists every flag of `mods` exactly once, in ascending flag
   * value.
   */
  lemma FlagsInOrder(mods: set<ModifierKey>)
    ensures IsListing(Flags(mods), mods)
    ensures Ascending(Flags(mods))
  {
    var all := {Alt, Control, Shift, Windows};
    forall m: ModifierKey ensures m in all {
      match m
      case Alt =>
      case Control =>
      case Shift =>
      case Windows =>
    }
    assert Elems(FlagOrder) == all by {
      assert FlagOrder[0] == Alt && FlagOrder[1] == Control && FlagOrder[2] == Shift && FlagOrder[3] == Windows;
    }
    assert Ascending(FlagOrder);
    assert IsListing(FlagOrder, all);
    WithinListing(FlagOrder, all, mods);
    assert all * mods == mods;
    WithinAscending(FlagOrder, mods);
  }

  function Names(ms: seq<ModifierKey>): (names: seq<string>)
    ensures |names| == |ms|
    ensures forall i :: 0 <= i < |ms| ==> names[i] == Name(ms[i])
  {
    seq(|ms|, i requires 0 <= i < |ms| => Name(ms[i]))
  }

  /** `modifierKeys.ToString()` for the flags enumeration `ModifierKeys`. */
  function ModifierKeysToString(mods: set<ModifierKey>): string {
    if mods == {} then "None" else Join(Names(Flags(mods)), ", ")
  }

  /** The `switch` on one trimmed token: the flag's label, or "" for any other token. */
  function TokenLabel(token: string): string {
    if token == Name(Alt) then Label(Alt)
    else if token == Name(Control) then Label(Control)
    else if token == Name(Shift) then Label(Shift)
    else if token == Name(Windows) then Label(Windows)
    else ""
  }

  /** What the loop has appended after visiting `tokens`. */
  function TokenLabels(tokens: seq<string>): string {
    if tokens == [] then ""
    else TokenLabels(tokens[..|tokens| - 1]) + TokenLabel(Trim(tokens[|tokens| - 1]))
  }

  /** The labels of `ms`, in the order of `ms`. */
  function Labels(ms: seq<ModifierKey>): string {
    if ms == [] then "" else Labels(ms[..|ms| - 1]) + Label(ms[|ms| - 1])
  }

  /**
   * The intended gesture text: the label of each flag of `mods` in flag
   * order, then the key name.
   */
  function GestureText(mods: set<ModifierKey>, key: string): string {
    Labels(Flags(mods)) + key
  }

  lemma NamesArePlain(ms: seq<ModifierKey>)
    ensures forall i :: 0 <= i < |ms| ==> IsPlainWord(Names(ms)[i])
  {
    forall i | 0 <= i < |ms| ensures IsPlainWord(Names(ms)[i]) {
      var w := Name(ms[i]);
      assert forall k :: 0 <= k < |w| ==> 'A' <= w[k] <= 'z';
    }
  }

  lemma TokenLabelOfName(m: ModifierKey)
    ensures TokenLabel(Name(m)) == Label(m)
  {
  }

  lemma TokenLabelsSnoc(tokens: seq<string>)
    requires tokens != []
    ensures TokenLabels(tokens) == TokenLabels(tokens[..|tokens| - 1]) + TokenLabel(Trim(tokens[|tokens| - 1]))
  {
  }

  lemma {:induction false} TokenLabelsOfNames(tokens: seq<string>, ms: seq<ModifierKey>)
    requires |tokens| == |ms|
    requires forall i :: 0 <= i < |ms| ==> Trim(tokens[i]) == Name(ms[i])
    ensures TokenLabels(tokens) == Labels(ms)
  {
    if ms != [] {
      var n := |ms| - 1;
      var initTokens, init := tokens[..n], ms[..n];
      forall i | 0 <= i < n ensures Trim(initTokens[i]) == Name(init[i]) {
        assert initTokens[i] == tokens[i] && init[i] == ms[i];
      }
      TokenLabelsOfNames(initTokens, init);
      TokenLabelsSnoc(tokens);
      LabelsSnoc(ms);
      var last := Trim(tokens[n]);
      assert last == Name(ms[n]);
      TokenLabelOfName(ms[n]);
      assert TokenLabel(last) == Label(ms[n]);
    }
  }

  /**
   * The tokens of `ModifierKeysToString(mods)`, split at ',' and trimmed,
   * name the flags of `mods` in order, so the loop's labels are the
   * intended prefix; for `None` the single token has no label.
   */
  lemma TokensSpellLabels(mods: set<ModifierKey>)
    ensures TokenLabels(Split(ModifierKeysToString(mods), ',')) == Labels(Flags(mods))
  {
    if mods == {} {
      FlagsInOrder(mods);
      ListingOfSmallSet(Flags(mods), mods);
      var tokens := Split("None", ',');
      SplitNoSeparator("None", "", ',');
      assert "None" + "" == "None";
      assert tokens == ["None"];
      assert Trim("None") == "None";
      assert tokens[..0] == [];
    } else {
      var ms := Flags(mods);
      FlagsInOrder(mods);
      assert ms != [];
      NamesArePlain(ms);
      SplitJoinRoundTrip(Names(ms));
      TokenLabelsOfNames(Split(ModifierKeysToString(mods), ','), ms);
    }
  }

  /**
   * Builds the gesture text the way the source does: split the modifier
   * flags' text at ',', append each trimmed token's label, then the key.
   */
  method GenerateGestureString(key: string, mods: set<ModifierKey>) returns (text: string)
    ensures text == GestureText(mods, key)
  {
    var tokens := Split(ModifierKeysToString(mods), ',');
    var sb := "";
    for i := 0 to |tokens|
      invariant sb == TokenLabels(tokens[..i])
    {
      var token := Trim(tokens[i]);
      if token == Name(Alt) {
        sb := sb + Label(Alt);
      } else if token == Name(Control) {
        sb := sb + Label(Control);
      } else if token == Name(Shift) {
        sb := sb + Label(Shift);
      } else if token == Name(Windows) {
        sb := sb + Label(Windows);
      } else {
        sb := sb + "";
      }
      assert tokens[..i + 1][..i] == tokens[..i];
    }
    assert tokens[..|tokens|] == tokens;
    TokensSpellLabels(mods);
    text := sb + key;
  }

  /** `Flags` written out flag by flag. */
  lemma FlagsUnfolded(mods: set<ModifierKey>)
    ensures Flags(mods) ==
      (if Alt in mods then [Alt] else []) + (if Control in mods then [Control] else [])
      + (if Shift in mods then [Shift] else []) + (if Windows in mods then [Windows] else [])
  {
    var o0, o1, o2, o3 := FlagOrder, [Control, Shift, Windows], [Shift, Windows], [Windows];
    assert o0[1..] == o1 && o1[1..] == o2 && o2[1..] == o3 && o3[1..] == [];
    var w3 := if Windows in mods then [Windows] else [];
    assert Within(o3, mods) == w3 + Within([], mods);
    assert Within(o3, mods) == w3;
    var w2 := (if Shift in mods then [Shift] else []) + w3;
    assert Within(o2, mods) == w2;
    var w1 := (if Control in mods then [Control] else []) + w2;
    assert Within(o1, mods) == w1;
    assert Within(o0, mods) == (if Alt in mods then [Alt] else []) + w1;
  }

  lemma FlagsOfOne(m: ModifierKey)
    ensures Flags({m}) == [m]
  {
    FlagsInOrder({m});
    ListingOfSmallSet(Flags({m}), {m});
  }

  /** The gesture texts the source's tests expect: Alt with A. */
  lemma GestureTextAltExample()
    ensures GestureText({Alt}, "A") == "Alt + A"
  {
    FlagsOfOne(Alt);
    assert Labels([Alt]) == Labels([]) + Label(Alt);
  }

  /** Control and Shift with C. */
  lemma GestureTextControlShiftExample()
    ensures GestureText({Control, Shift}, "C") == "Ctrl + Shift + C"
  {
    var mods: set<ModifierKey> := {Control, Shift};
    FlagsUnfolded(mods);
    assert Flags(mods) == [Control, Shift];
    assert [Control, Shift][..1] == [Control];
    assert Labels([Control, Shift]) == "Ctrl + Shift + ";
  }

  /** Windows with R. */
  lemma GestureTextWindowsExample()
    ensures GestureText({Windows}, "R") == "Win + R"
  {
    FlagsOfOne(Windows);
    assert Labels([Windows]) == Labels([]) + Label(Windows);
  }

  /** No modifier with the keypad key NumPad0. */
  lemma GestureTextNoModifierExample()
    ensures GestureText({}, "NumPad0") == "NumPad0"
  {
    FlagsInOrder({});
    ListingOfSmallSet(Flags({}), {});
  }

  predicate EndsWith(s: string, suffix: string) {
    |suffix| <= |s| && s[|s| - |suffix|..] == suffix
  }

  /**
   * Reads a gesture prefix back into flags, peeling labels off its end;
   * the partner of `Labels`.
   */
  function ParseLabels(p: string): set<ModifierKey>
    decreases |p|
  {
    if EndsWith(p, Label(Alt)) then ParseLabels(p[..|p| - |Label(Alt)|]) + {Alt}
    else if EndsWith(p, Label(Control)) then ParseLabels(p[..|p| - |Label(Control)|]) + {Control}
    else if EndsWith(p, Label(Shift)) then ParseLabels(p[..|p| - |Label(Shift)|]) + {Shift}
    else if EndsWith(p, Label(Windows)) then ParseLabels(p[..|p| - |Label(Windows)|]) + {Windows}
    else {}
  }

  /** No label ends another: their fifth characters from the end differ. */
  lemma OnlyOwnLabelEnds(p: string, m: ModifierKey, other: ModifierKey)
    requires other != m
    ensures !EndsWith(p + Label(m), Label(other))
  {
    var s, l, lo := p + Label(m), Label(m), Label(other);
    assert s[|s| - 5] == l[|l| - 5];
    assert l[|l| - 5] != lo[|lo| - 5];
  }

  /** Reading one more label off the end adds its flag. */
  lemma ParseLabelsSnoc(p: string, m: ModifierKey)
    ensures ParseLabels(p + Label(m)) == ParseLabels(p) + {m}
  {
    var s := p + Label(m);
    assert s[..|s| - |Label(m)|] == p;
    assert EndsWith(s, Label(m));
    match m
    case Alt =>
      assert ParseLabels(s) == ParseLabels(p) + {Alt};
    case Control =>
      OnlyOwnLabelEnds(p, m, Alt);
      assert ParseLabels(s) == ParseLabels(p) + {Control};
    case Shift =>
      OnlyOwnLabelEnds(p, m, Alt);
      OnlyOwnLabelEnds(p, m, Control);
      assert ParseLabels(s) == ParseLabels(p) + {Shift};
    case Windows =>
      OnlyOwnLabelEnds(p, m, Alt);
      OnlyOwnLabelEnds(p, m, Control);
      OnlyOwnLabelEnds(p, m, Shift);
      assert ParseLabels(s) == ParseLabels(p) + {Windows};
  }

  lemma LabelsSnoc(ms: seq<ModifierKey>)
    requires ms != []
    ensures Labels(ms) == Labels(ms[..|ms| - 1]) + Label(ms[|ms| - 1])
  {
  }

  lemma {:induction false} ParseLabelsOfLabels(ms: seq<ModifierKey>)
    ensures ParseLabels(Labels(ms)) == Elems(ms)
  {
    if ms != [] {
      var n := |ms| - 1;
      LabelsSnoc(ms);
      ElemsSnoc(ms);
      ParseLabelsOfLabels(ms[..n]);
      ParseLabelsSnoc(Labels(ms[..n]), ms[n]);
    }
  }

  /** Different modifier sets never give the same gesture text for a key. */
  lemma GestureTextDeterminesModifiers(mods1: set<ModifierKey>, mods2: set<ModifierKey>, key: string)
    requires GestureText(mods1, key) == GestureText(mods2, key)
    ensures mods1 == mods2
  {
    var p1, p2 := Labels(Flags(mods1)), Labels(Flags(mods2));
    assert p1 == (p1 + key)[..|p1|];
    assert p2 == (p2 + key)[..|p2|];
    FlagsInOrder(mods1);
    FlagsInOrder(mods2);
    ParseLabelsOfLabels(Flags(mods1));
    ParseLabelsOfLabels(Flags(mods2));
  }

  /**
   * The guard of `GenerateInputBinding`: no modifier, and the key's name
   * does not contain "Num".
   */
  predicate IsRejected(mods: set<ModifierKey>, key: string) {
    mods == {} && !HasSubstring(key, "Num")
  }

  /**
   * The guard's outcome on the keys of the source's tests, and on NumLock,
   * which is not a keypad key but whose name contains "Num".
   */
  lemma RejectionExamples()
    ensures IsRejected({}, "A")
    ensures !IsRejected({}, "NumPad0")
    ensures !IsRejected({}, "NumLock")
    ensures !IsRejected({Control}, "A")
  {
    assert !HasSubstring("A", "Num");
  }

  /**
   * The keypad's operator keys have names without "Num", so the guard
   * rejects each of them when no modifier is given.
   */
  lemma KeypadKeysRejected()
    ensures IsRejected({}, "Add")
    ensures IsRejected({}, "Subtract")
    ensures IsRejected({}, "Multiply")
    ensures IsRejected({}, "Divide")
    ensures IsRejected({}, "Decimal")
  {
    var keys := ["Add", "Subtract", "Multiply", "Divide", "Decimal"];
    forall j | 0 <= j < |keys| ensures IsRejected({}, keys[j]) {
      RejectedWithoutN(keys[j]);
    }
    assert keys[0] == "Add" && keys[1] == "Subtract" && keys[2] == "Multiply";
    assert keys[3] == "Divide" && keys[4] == "Decimal";
  }

  /** A key whose name has no 'N' is rejected when no modifier is given. */
  lemma RejectedWithoutN(key: string)
    requires forall i :: 0 <= i < |key| ==> key[i] != 'N'
    ensures IsRejected({}, key)
  {
    MissingFirstChar(key, "Num");
  }

  /** What the guard checks, without the recursive search. */
  lemma IsRejectedIff(mods: set<ModifierKey>, key: string)
    ensures IsRejected(mods, key) <==> mods == {} && forall i :: !OccursAt(key, "Num", i)
  {
    HasSubstringIff(key, "Num");
  }

  /** A key gesture bound to a menu; the command it runs is not modelled. */
  datatype InputBinding = InputBinding(key: string, modifiers: set<ModifierKey>)

  datatype BindingError = ModifierRequired

  /** A `MenuItem`: its gesture text and its own input bindings. */
  class MenuItem {
    var inputGestureText: string
    var inputBindings: seq<InputBinding>

    constructor ()
      ensures inputGestureText == "" && inputBindings == []
    {
      inputGestureText := "";
      inputBindings := [];
    }
  }

  /** A `ContextMenu`: its input bindings. */
  class ContextMenu {
    var inputBindings: seq<InputBinding>

    constructor ()
      ensures inputBindings == []
    {
      inputBindings := [];
    }
  }

  /**
   * Rejects a binding without modifier unless the key is a keypad key;
   * otherwise writes the gesture text to `menuItem` when there is one and
   * returns the binding.
   */
  method GenerateInputBinding(menuItem: MenuItem?, key: string, mods: set<ModifierKey>)
    returns (r: Result<InputBinding, BindingError>)
    modifies menuItem
    ensures IsRejected(mods, key) ==> r == Err(ModifierRequired) && (menuItem != null ==> unchanged(menuItem))
    ensures !IsRejected(mods, key) ==> r == Ok(InputBinding(key, mods))
    ensures !IsRejected(mods, key) && menuItem != null ==>
      menuItem.inputGestureText == GestureText(mods, key) && menuItem.inputBindings == old(menuItem.inputBindings)
  {
    if mods == {} && !HasSubstring(key, "Num") {
      return Err(ModifierRequired);
    }
    if menuItem != null {
      menuItem.inputGestureText := GenerateGestureString(key, mods);
    }
    r := Ok(InputBinding(key, mods));
  }

  /**
   * `ContextMenu.AddInputBinding`: on success exactly one binding is
   * appended to the menu; on failure nothing changes.
   */
  method AddInputBinding(menu: ContextMenu, menuItem: MenuItem?, key: string, mods: set<ModifierKey>)
    returns (outcome: Outcome<BindingError>)
    modifies menu, menuItem
    ensures IsRejected(mods, key) ==>
      outcome == Fail(ModifierRequired) && unchanged(menu) && (menuItem != null ==> unchanged(menuItem))
    ensures !IsRejected(mods, key) ==>
      outcome == Pass && menu.inputBindings == old(menu.inputBindings) + [InputBinding(key, mods)]
    ensures !IsRejected(mods, key) && menuItem != null ==>
      menuItem.inputGestureText == GestureText(mods, key) && menuItem.inputBindings == old(menuItem.inputBindings)
  {
    var r := GenerateInputBinding(menuItem, key, mods);
    if r.Err? {
      return Fail(r.error);
    }
    menu.inputBindings := menu.inputBindings + [r.value];
    outcome := Pass;
  }

  /**
   * `MenuItem.AddInputBinding`: the same for a menu item holding sub-items;
   * `menu` and `menuItem` may be the same item.
   */
  method AddInputBindingToItem(menu: MenuItem, menuItem: MenuItem?, key: string, mods: set<ModifierKey>)
    returns (outcome: Outcome<BindingError>)
    modifies menu, menuItem
    ensures IsRejected(mods, key) ==>
      outcome == Fail(ModifierRequired) && unchanged(menu) && (menuItem != null ==> unchanged(menuItem))
    ensures !IsRejected(mods, key) ==>
      outcome == Pass && menu.inputBindings == old(menu.inputBindings) + [InputBinding(key, mods)]
    ensures !IsRejected(mods, key) && menuItem != null ==> menuItem.inputGestureText == GestureText(mods, key)
    ensures !IsRejected(mods, key) && menuItem != null && menuItem != menu ==>
      menuItem.inputBindings == old(menuItem.inputBindings)
    ensures !IsRejected(mods, key) && menuItem != menu ==> menu.inputGestureText == old(menu.inputGestureText)
  {
    var r := GenerateInputBinding(menuItem, key, mods);
    if r.Err? {
      return Fail(r.error);
    }
    menu.inputBindings := menu.inputBindings + [r.value];
    outcome := Pass;
  }
}
