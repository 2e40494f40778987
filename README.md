# ObservableDictionary and context-menu shortcuts, in Dafny

This project models the two core pieces of VaraniumSharp.Shenfield, a WPF
helper library:

- **`ObservableDictionary<TKey, TValue>`** wraps a `Dictionary` and raises a
  `CollectionChanged` notification (`Add`, `Remove`, `Replace` or `Reset`) for
  every change. `UpdateDictionary` makes the dictionary equal to another one
  in three passes. First it removes the keys the source lacks. Then it
  overwrites the shared keys. Then it adds the new keys.
  The class keeps the wrapped dictionary as a `map` field (`contents`). It
  records every notification in order in a `seq` field (`log`). Its invariant
  `Valid()` says that no notification is missed: an observer that starts
  from the empty dictionary and replays `log` holds exactly `contents`.
  Every mutator keeps that invariant. `UpdateDictionary` is proved to reach
  the source. Its notifications are proved to be one `Remove` per dropped
  key, then one `Replace` per shared key, then one `Add` per new key.
- **`ContextMenuExtensions`** builds the gesture text shown next to a menu
  item, such as `"Ctrl + Shift + C"`. It splits `ModifierKeys.ToString()` at
  `','` and appends a label for each trimmed token. The loop is proved equal
  to an independent definition: the labels of the set flags in flag order,
  then the key. That definition is proved injective in the modifier set. A
  binding with no modifier is rejected unless the key's name contains
  `"Num"`. `AddInputBinding` appends exactly one binding on success and
  changes nothing on failure.

Files:

- `results.dfy`: `Result` and `Outcome`, used for thrown exceptions.
- `listings.dfy`: listings of a set. The source's `foreach` over a
  `Dictionary` and its LINQ `Where(...).ToList()` enumerate in an order the
  language does not specify; the model states only that each key appears
  exactly once.
- `collection_changes.dfy`: the notification datatype, and what a mirroring
  observer does with each notification.
- `observable_dictionary.dfy`: the class and the reconciliation lemmas.
- `text.dfy`: `Join`, `Split`, `Trim` and `Contains` on strings.
- `context_menu_extensions.dfy`: gesture text, the guard, and the menu classes.

Three edge cases of the code, as the model states them:

- The indexer setter on an absent key raises `Replace`, with old item
  `(key, default(TValue))`. It does not raise `Add`.
- `Remove` on an absent key returns `false` but still raises `Remove`,
  carrying `(key, default(TValue))`.
- `TryGetValue` on an absent key returns `default(TValue)`, as
  `Dictionary.TryGetValue` does.

The guard tests the key's *name* for `"Num"`. So `NumLock` is accepted with
no modifier, and the keypad keys `Add`, `Subtract`, `Multiply`, `Divide` and
`Decimal` are rejected. `ExtensionMethods.RejectionExamples` states the
`NumLock` case and `ExtensionMethods.KeypadKeysRejected` the keypad keys.

## Model

Paths are relative to the repository root.

| member | source | states |
|---|---|---|
| Collections.ObservableDictionary.constructor | VaraniumSharp.Shenfield/Collections/ObservableDictionary.cs:20-23 | a new dictionary is empty, has raised nothing, and satisfies the replay invariant |
| Collections.ObservableDictionary.Count | VaraniumSharp.Shenfield/Collections/ObservableDictionary.cs:37 | `Count` is the number of keys stored |
| Collections.ObservableDictionary.ContainsKey | VaraniumSharp.Shenfield/Collections/ObservableDictionary.cs:96-99 | true exactly when the key is stored |
| Collections.ObservableDictionary.Contains | VaraniumSharp.Shenfield/Collections/ObservableDictionary.cs:90-93 | true exactly when the key is stored with that same value |
| Collections.ObservableDictionary.TryGetValue | VaraniumSharp.Shenfield/Collections/ObservableDictionary.cs:136-139 | found exactly when the key is stored; the stored value if found, `default(TValue)` otherwise; nothing changes |
| Collections.ObservableDictionary.GetItem | VaraniumSharp.Shenfield/Collections/ObservableDictionary.cs:45 | the stored value, or a `KeyNotFound` error for an absent key |
| Collections.ObservableDictionary.SetItem | VaraniumSharp.Shenfield/Collections/ObservableDictionary.cs:46-53 | the key maps to the new value and all other entries are kept; exactly one `Replace` is raised, with new item (key, value) and old item (key, previous value or default); the replay invariant is kept |
| Collections.ObservableDictionary.AddPair | VaraniumSharp.Shenfield/Collections/ObservableDictionary.cs:67-73 | an absent key is stored and exactly one `Add` of the pair is raised; a present key fails with `DuplicateKey`, and contents and notifications are unchanged |
| Collections.ObservableDictionary.Add | VaraniumSharp.Shenfield/Collections/ObservableDictionary.cs:76-79 | the same as adding the pair (key, value) |
| Collections.ObservableDictionary.Clear | VaraniumSharp.Shenfield/Collections/ObservableDictionary.cs:82-87 | the dictionary becomes empty, even if it already was, and exactly one `Reset` is raised |
| Collections.ObservableDictionary.Remove | VaraniumSharp.Shenfield/Collections/ObservableDictionary.cs:125-133 | returns whether the key was present; the key is gone and all other entries are kept; exactly one `Remove` is raised in both cases, carrying (key, previous value or default) |
| Collections.ObservableDictionary.RemovePair | VaraniumSharp.Shenfield/Collections/ObservableDictionary.cs:119-122 | removing a pair removes by its key alone; the pair's value is ignored |
| Collections.ObservableDictionary.CopyTo | VaraniumSharp.Shenfield/Collections/ObservableDictionary.cs:102-110 | the entries are written once each, in one enumeration order, to consecutive cells from `arrayIndex`; it fails exactly when the entries do not fit; the writes made before the failing one stay; no other cell changes |
| Collections.CopiedCount | VaraniumSharp.Shenfield/Collections/ObservableDictionary.cs:104-109 | how many cells the copy loop writes: all entries exactly when they fit, otherwise, when the start index is inside the array, exactly the cells from it to the array's end |
| Collections.ObservableDictionary.Diff | VaraniumSharp.Shenfield/Collections/ObservableDictionary.cs:148-150 | the three lists list, each key once, the keys only in the dictionary, the keys in both, and the keys only in the source; it changes nothing |
| Collections.ObservableDictionary.RemoveEach | VaraniumSharp.Shenfield/Collections/ObservableDictionary.cs:152-155 | the first loop deletes exactly the listed keys and raises one `Remove` per key, in order |
| Collections.ObservableDictionary.OverwriteEach | VaraniumSharp.Shenfield/Collections/ObservableDictionary.cs:157-160 | the second loop sets each listed key to its source value and raises one `Replace` per key, in order |
| Collections.ObservableDictionary.AddEach | VaraniumSharp.Shenfield/Collections/ObservableDictionary.cs:162-165 | the third loop adds each listed key with its source value and raises one `Add` per key, in order; no add meets a duplicate key |
| Collections.ObservableDictionary.UpdateDictionary | VaraniumSharp.Shenfield/Collections/ObservableDictionary.cs:146-166 | afterwards the contents equal the source; the notifications raised are exactly the reconciliation log of the three lists computed beforehand; the replay invariant is kept |
| Collections.ReconcileLogSize | VaraniumSharp.Shenfield/Collections/ObservableDictionary.cs:148-165 | `UpdateDictionary` raises \|keys only in the dictionary\| + \|shared keys\| + \|keys only in the source\| notifications |
| Collections.ReconcileLogShape | VaraniumSharp.Shenfield/Collections/ObservableDictionary.cs:152-165 | the log holds first a `Remove` (key, old value) per dropped key, then a `Replace` (key, new value) over (key, old value) per shared key, then an `Add` (key, value) per new key |
| Collections.ReplayRemovals | VaraniumSharp.Shenfield/Collections/ObservableDictionary.cs:152-155 | an observer replaying the removal notifications deletes exactly the listed keys |
| Collections.ReplayReplacements | VaraniumSharp.Shenfield/Collections/ObservableDictionary.cs:157-160 | an observer replaying the replace notifications overwrites the listed keys with their source values |
| Collections.ReplayAdditions | VaraniumSharp.Shenfield/Collections/ObservableDictionary.cs:162-165 | an observer replaying the add notifications inserts the listed keys with their source values |
| Collections.ReconcileResult | VaraniumSharp.Shenfield/Collections/ObservableDictionary.cs:148-165 | removing, then overwriting, then adding, as planned, turns the old contents into exactly the source |
| Collections.ReconcileConverges | VaraniumSharp.Shenfield/Collections/ObservableDictionary.cs:146-166 | an observer that holds the old contents and replays the reconciliation log ends up holding the source |
| Collections.ReconcileWithItself | VaraniumSharp.Shenfield/Collections/ObservableDictionary.cs:157-160 | reconciling with an equal source removes and adds nothing, yet raises one `Replace` per key whose new and old items are equal |
| Collections.ReconcileDisjointExample | VaraniumSharp.Shenfield.Tests/Collections/ObservableDictionaryTests.cs:311-349 | {0: "Test"} updated from {1: "A new value"} raises `Remove` (0, "Test") and then `Add` (1, "A new value") |
| Collections.ReconcileOverlapExample | VaraniumSharp.Shenfield.Tests/Collections/ObservableDictionaryTests.cs:351-372 | {0: "Test"} updated from {1: "A new value", 0: "A changed value"} raises `Replace` of key 0 and then `Add` of key 1 |
| CollectionChanges.ValueOrDefault | VaraniumSharp.Shenfield/Collections/ObservableDictionary.cs:48 | the value `TryGetValue` outputs: the stored value, or `default(TValue)` when absent |
| CollectionChanges.ReplayAppend | VaraniumSharp.Shenfield/Collections/ObservableDictionary.cs:152-165 | replaying the notifications of two passes one after the other is replaying them concatenated |
| Listings.Enumerate | VaraniumSharp.Shenfield/Collections/ObservableDictionary.cs:105 | enumerating a dictionary's keys visits each key exactly once and nothing else |
| Listings.ListingSize | VaraniumSharp.Shenfield/Collections/ObservableDictionary.cs:105-109 | an enumeration has exactly `Count` elements |
| Listings.WithinListing | VaraniumSharp.Shenfield/Collections/ObservableDictionary.cs:150 | filtering an enumeration by membership gives an enumeration of the intersection |
| Listings.WithoutListing | VaraniumSharp.Shenfield/Collections/ObservableDictionary.cs:148-149 | filtering an enumeration by non-membership gives an enumeration of the difference |
| Text.Split | VaraniumSharp.Shenfield/ExtensionMethods/ContextMenuExtensions.cs:61 | splitting yields at least one piece |
| Text.SplitJoinRoundTrip | VaraniumSharp.Shenfield/ExtensionMethods/ContextMenuExtensions.cs:61-63 | names joined with ", ", split at ',' and trimmed, give back the names, one token each |
| Text.HasSubstringIff | VaraniumSharp.Shenfield/ExtensionMethods/ContextMenuExtensions.cs:104 | `Contains` holds exactly when the text occurs at some index of the string |
| ExtensionMethods.FlagsInOrder | VaraniumSharp.Shenfield/ExtensionMethods/ContextMenuExtensions.cs:61 | `ModifierKeys.ToString()` names each set flag exactly once, in ascending flag value |
| ExtensionMethods.TokensSpellLabels | VaraniumSharp.Shenfield/ExtensionMethods/ContextMenuExtensions.cs:61-85 | the labels the switch produces for the tokens are the labels of the set flags in flag order; the single token `None` contributes nothing |
| ExtensionMethods.GenerateGestureString | VaraniumSharp.Shenfield/ExtensionMethods/ContextMenuExtensions.cs:58-90 | the gesture text is the label of each set flag (Alt, Ctrl, Shift, Win) in flag order, each once, followed by the key name |
| ExtensionMethods.GestureTextAltExample | VaraniumSharp.Shenfield.Tests/ExtensionMethods/ContextMenuExtensionsTests.cs:14 | Alt with A gives "Alt + A" |
| ExtensionMethods.GestureTextControlShiftExample | VaraniumSharp.Shenfield.Tests/ExtensionMethods/ContextMenuExtensionsTests.cs:15 | Control and Shift with C give "Ctrl + Shift + C" |
| ExtensionMethods.GestureTextWindowsExample | VaraniumSharp.Shenfield.Tests/ExtensionMethods/ContextMenuExtensionsTests.cs:16 | Windows with R gives "Win + R" |
| ExtensionMethods.GestureTextNoModifierExample | VaraniumSharp.Shenfield.Tests/ExtensionMethods/ContextMenuExtensionsTests.cs:17 | no modifier with NumPad0 gives "NumPad0" |
| ExtensionMethods.ParseLabelsOfLabels | VaraniumSharp.Shenfield/ExtensionMethods/ContextMenuExtensions.cs:63-84 | reading labels back off the end of a gesture prefix recovers the flags that produced it |
| ExtensionMethods.GestureTextDeterminesModifiers | VaraniumSharp.Shenfield/ExtensionMethods/ContextMenuExtensions.cs:58-90 | for a given key, different modifier sets never give the same gesture text |
| ExtensionMethods.IsRejectedIff | VaraniumSharp.Shenfield/ExtensionMethods/ContextMenuExtensions.cs:104 | a binding is rejected exactly when it has no modifier and "Num" occurs nowhere in the key name |
| ExtensionMethods.RejectionExamples | VaraniumSharp.Shenfield.Tests/ExtensionMethods/ContextMenuExtensionsTests.cs:43-54 | A without modifier is rejected; NumPad0 and NumLock without modifier, and A with Control, are accepted |
| ExtensionMethods.KeypadKeysRejected | VaraniumSharp.Shenfield/ExtensionMethods/ContextMenuExtensions.cs:104-107 | with no modifier the guard rejects the keypad keys Add, Subtract, Multiply, Divide and Decimal, whose names lack "Num" |
| ExtensionMethods.GenerateInputBinding | VaraniumSharp.Shenfield/ExtensionMethods/ContextMenuExtensions.cs:102-113 | a rejected binding fails and leaves the menu item untouched; otherwise a present menu item gets the gesture text and keeps its bindings, a null menu item is tolerated, and the binding carries the key and the modifiers |
| ExtensionMethods.AddInputBinding | VaraniumSharp.Shenfield/ExtensionMethods/ContextMenuExtensions.cs:27-30 | on success exactly one binding (key, modifiers) is appended to the context menu; on failure neither the menu nor the item changes |
| ExtensionMethods.AddInputBindingToItem | VaraniumSharp.Shenfield/ExtensionMethods/ContextMenuExtensions.cs:43-46 | the same for a menu item holding sub-items, which may itself be the item that receives the gesture text |

## Left out

- The `CollectionChanged` event's delegates: subscribing, unsubscribing and the null check before raising. The model records every notification in `log`, as if one observer were always subscribed.
- `GetEnumerator`, `Keys` and `Values`. They expose the wrapped dictionary unchanged and have no logic of their own.
- `IsReadOnly`: it is the constant `false`, and no member of the model depends on it.
- The order in which `Dictionary` enumerates. The model lets `Listings.Enumerate` choose any order and states only that each key appears exactly once.
- `default(TValue)`: the constructor takes it as a parameter.
- Key equality: Dafny's equality stands in for the dictionary's `IEqualityComparer`.
- Null arguments: a null `key`, a null source in `UpdateDictionary`, and a null `menu`. These all throw in .NET. A null `array` in `CopyTo` is not modelled either: it throws only when the dictionary has at least one entry to write, and with an empty dictionary `CopyTo` returns normally.
- `Collections.ObservableDictionary.UpdateDictionary`: the source is a `map`. A custom `IDictionary` whose `ContainsKey` disagrees with its enumeration is not modelled.
- Concurrency, and observers that change the dictionary while a notification is being raised.
- The WPF objects in `GenerateInputBinding`: the `RelayCommand` and its `action`, `sender` and `routedEventArgs`. A binding is modelled as its key and modifiers, and a `KeyGesture` constructor's own checks are not modelled: for a gesture that constructor refuses (a letter key with only `Shift`, say), the program has already written the gesture text when the constructor throws and adds no binding, while `ExtensionMethods.GenerateInputBinding` returns `Pass` and appends one. Those checks live in WPF, not in this repository.
- The `Key` enumeration: a key is modelled by the name `Key.ToString()` prints.
- `Text.Trim`: it removes only ASCII white space; the modifier names contain none.
- `RelayCommand`, `StyleLoader`, `IStyleLoader` and the dictionary value-extraction converters are not part of this model. They are a delegate wrapper, a resource lookup and reflection-based conversion glue.
