/**
 * `ObservableDictionary<TKey, TValue>`: a dictionary that raises a
 * `CollectionChanged` notification from every mutating operation, and
 * `UpdateDictionary`, which makes it mirror another dictionary.
 *
 * The wrapped `Dictionary` is the field `contents`; the notifications raised
 * so far are the field `log`, which stands for a subscriber that records
 * every notification it receives.
 */
module Collections {
  import opened Results
  import opened Listings
  import opened CollectionChanges

  /** `ArgumentException` from `Dictionary.Add`, `KeyNotFoundException` from the indexer. */
  datatype DictionaryError = DuplicateKey | KeyNotFound

  // ---------------------------------------------------------------------
  // The notification each single-entry operation raises
  // ---------------------------------------------------------------------

  /**
   * `Remove(key)` reports the key with the value `TryGetValue` found for it:
   * the stored value, or `default(TValue)` when the key was absent.
   */
  function RemoveNotification<K, V>(m: map<K, V>, key: K, dflt: V): Change<K, V> {
    Removed(Pair(key, ValueOrDefault(m, key, dflt)))
  }

  /**
   * The indexer setter reports `Replace` whether or not the key was present;
   * the old item carries `default(TValue)` for an absent key.
   */
  function ReplaceNotification<K, V>(m: map<K, V>, key: K, value: V, dflt: V): Change<K, V> {
    Replaced(Pair(key, value), Pair(key, ValueOrDefault(m, key, dflt)))
  }

  // ---------------------------------------------------------------------
  // What UpdateDictionary reports
  // ---------------------------------------------------------------------

  /** `m` after each key of `keys`, in order, has been set to its value in `src`. */
  function Overwritten<K, V>(m: map<K, V>, src: map<K, V>, keys: seq<K>): map<K, V>
    requires forall k :: k in keys ==> k in src
  {
    if keys == [] then m
    else
      var k := keys[|keys| - 1];
      Overwritten(m, src, keys[..|keys| - 1])[k := src[k]]
  }

  /** A key is in the overwritten map if it was in `m` or in `keys`; the keys of `keys` take `src`'s value. */
  lemma {:induction false} OverwrittenAt<K, V>(m: map<K, V>, src: map<K, V>, keys: seq<K>, k: K)
    requires forall k :: k in keys ==> k in src
    ensures k in Overwritten(m, src, keys) <==> k in m || k in keys
    ensures k in keys ==> Overwritten(m, src, keys)[k] == src[k]
    ensures k in m && k !in keys ==> Overwritten(m, src, keys)[k] == m[k]
  {
    if keys != [] {
      var init := keys[..|keys| - 1];
      assert keys == init + [keys[|keys| - 1]];
      OverwrittenAt(m, src, init, k);
    }
  }

  /** One `Remove` per key of `keys`, in order, each reporting its value in `m0`. */
  function Removals<K, V>(m0: map<K, V>, keys: seq<K>, dflt: V): (r: seq<Change<K, V>>)
    ensures |r| == |keys|
  {
    if keys == [] then []
    else Removals(m0, keys[..|keys| - 1], dflt) + [RemoveNotification(m0, keys[|keys| - 1], dflt)]
  }

  /** One `Replace` per key of `keys`, in order, from its value in `m0` to its value in `src`. */
  function Replacements<K, V>(m0: map<K, V>, src: map<K, V>, keys: seq<K>, dflt: V): (r: seq<Change<K, V>>)
    requires forall k :: k in keys ==> k in src
    ensures |r| == |keys|
  {
    if keys == [] then []
    else
      var k := keys[|keys| - 1];
      Replacements(m0, src, keys[..|keys| - 1], dflt) + [ReplaceNotification(m0, k, src[k], dflt)]
  }

  /** One `Add` per key of `keys`, in order, with its value in `src`. */
  function Additions<K, V>(src: map<K, V>, keys: seq<K>): (r: seq<Change<K, V>>)
    requires forall k :: k in keys ==> k in src
    ensures |r| == |keys|
  {
    if keys == [] then []
    else
      var k := keys[|keys| - 1];
      Additions(src, keys[..|keys| - 1]) + [Added(Pair(k, src[k]))]
  }

  /**
   * The three lists `UpdateDictionary` computes before it changes anything:
   * the keys to remove, to overwrite and to add, each enumerated in some order.
   */
  predicate ReconcilePlan<K(==), V>(m0: map<K, V>, src: map<K, V>, removed: seq<K>, updated: seq<K>, added: seq<K>) {
    && IsListing(removed, m0.Keys - src.Keys)
    && IsListing(updated, m0.Keys * src.Keys)
    && IsListing(added, src.Keys - m0.Keys)
  }

  lemma AppendThree<T>(a: seq<T>, b: seq<T>, c: seq<T>, d: seq<T>)
    ensures a + b + c + d == a + (b + c + d)
  {
  }

  /** Where the keys of each list of a plan lie. */
  lemma PlanKeys<K, V>(m0: map<K, V>, src: map<K, V>, removed: seq<K>, updated: seq<K>, added: seq<K>)
    requires ReconcilePlan(m0, src, removed, updated, added)
    ensures forall k :: k in removed ==> k in m0 && k !in src
    ensures forall k :: k in updated ==> k in m0 && k in src
    ensures forall k :: k in added ==> k !in m0 && k in src
  {
    forall k | k in removed ensures k in m0 && k !in src {
      assert k in Elems(removed);
    }
    forall k | k in updated ensures k in m0 && k in src {
      assert k in Elems(updated);
    }
    forall k | k in added ensures k !in m0 && k in src {
      assert k in Elems(added);
    }
  }

  /** Every notification `UpdateDictionary` raises: removals, then overwrites, then additions. */
  function ReconcileLog<K(==), V>(m0: map<K, V>, src: map<K, V>, removed: seq<K>, updated: seq<K>, added: seq<K>, dflt: V): seq<Change<K, V>>
    requires ReconcilePlan(m0, src, removed, updated, added)
  {
    assert forall k :: k in updated ==> k in Elems(updated);
    assert forall k :: k in added ==> k in Elems(added);
    Removals(m0, removed, dflt) + Replacements(m0, src, updated, dflt) + Additions(src, added)
  }

  // ---------------------------------------------------------------------
  // Properties of the reconciliation
  // ---------------------------------------------------------------------

  lemma {:induction false} RemovalsAt<K, V>(m0: map<K, V>, keys: seq<K>, dflt: V, i: nat)
    requires i < |keys|
    ensures Removals(m0, keys, dflt)[i] == RemoveNotification(m0, keys[i], dflt)
  {
    if i < |keys| - 1 {
      RemovalsAt(m0, keys[..|keys| - 1], dflt, i);
    }
  }

  lemma {:induction false} ReplacementsAt<K, V>(m0: map<K, V>, src: map<K, V>, keys: seq<K>, dflt: V, i: nat)
    requires forall k :: k in keys ==> k in src
    requires i < |keys|
    ensures Replacements(m0, src, keys, dflt)[i] == ReplaceNotification(m0, keys[i], src[keys[i]], dflt)
  {
    if i < |keys| - 1 {
      ReplacementsAt(m0, src, keys[..|keys| - 1], dflt, i);
    }
  }

  lemma {:induction false} AdditionsAt<K, V>(src: map<K, V>, keys: seq<K>, i: nat)
    requires forall k :: k in keys ==> k in src
    requires i < |keys|
    ensures Additions(src, keys)[i] == Added(Pair(keys[i], src[keys[i]]))
  {
    if i < |keys| - 1 {
      AdditionsAt(src, keys[..|keys| - 1], i);
    }
  }

  /** `Replace` notifications depend only on the old values of the keys they overwrite. */
  lemma {:induction false} ReplacementsAgree<K, V>(m0: map<K, V>, m1: map<K, V>, src: map<K, V>, keys: seq<K>, dflt: V)
    requires forall k :: k in keys ==> k in src
    requires forall k :: k in keys ==> k in m0 && k in m1 && m0[k] == m1[k]
    ensures Replacements(m0, src, keys, dflt) == Replacements(m1, src, keys, dflt)
  {
    if keys != [] {
      ReplacementsAgree(m0, m1, src, keys[..|keys| - 1], dflt);
    }
  }

  /** The number of notifications: one per key removed, kept or added. */
  lemma ReconcileLogSize<K, V>(m0: map<K, V>, src: map<K, V>, removed: seq<K>, updated: seq<K>, added: seq<K>, dflt: V)
    requires ReconcilePlan(m0, src, removed, updated, added)
    ensures |ReconcileLog(m0, src, removed, updated, added, dflt)|
      == |m0.Keys - src.Keys| + |m0.Keys * src.Keys| + |src.Keys - m0.Keys|
  {
    ListingSize(removed, m0.Keys - src.Keys);
    ListingSize(updated, m0.Keys * src.Keys);
    ListingSize(added, src.Keys - m0.Keys);
  }

  /**
   * `UpdateDictionary` raises, in this order: a `Remove` carrying the old
   * entry of every key absent from the source; a `Replace` from the old to
   * the source's entry of every shared key, even when the two values are
   * equal; an `Add` of the source's entry of every key new to the dictionary.
   */
  lemma ReconcileLogShape<K, V>(m0: map<K, V>, src: map<K, V>, removed: seq<K>, updated: seq<K>, added: seq<K>, dflt: V)
    requires ReconcilePlan(m0, src, removed, updated, added)
    ensures var log := ReconcileLog(m0, src, removed, updated, added, dflt);
      && |log| == |removed| + |updated| + |added|
      && (forall i :: 0 <= i < |removed| ==>
            removed[i] in m0 && log[i] == Removed(Pair(removed[i], m0[removed[i]])))
      && (forall i :: 0 <= i < |updated| ==>
            updated[i] in m0 && updated[i] in src &&
            log[|removed| + i] == Replaced(Pair(updated[i], src[updated[i]]), Pair(updated[i], m0[updated[i]])))
      && (forall i :: 0 <= i < |added| ==>
            added[i] in src && log[|removed| + |updated| + i] == Added(Pair(added[i], src[added[i]])))
  {
    assert forall k :: k in updated ==> k in Elems(updated);
    assert forall k :: k in added ==> k in Elems(added);
    var log := ReconcileLog(m0, src, removed, updated, added, dflt);
    forall i | 0 <= i < |removed|
      ensures removed[i] in m0 && log[i] == Removed(Pair(removed[i], m0[removed[i]]))
    {
      assert removed[i] in Elems(removed);
      RemovalsAt(m0, removed, dflt, i);
    }
    forall i | 0 <= i < |updated|
      ensures updated[i] in m0 && updated[i] in src
      ensures log[|removed| + i] == Replaced(Pair(updated[i], src[updated[i]]), Pair(updated[i], m0[updated[i]]))
    {
      assert updated[i] in Elems(updated);
      ReplacementsAt(m0, src, updated, dflt, i);
    }
    forall i | 0 <= i < |added|
      ensures added[i] in src && log[|removed| + |updated| + i] == Added(Pair(added[i], src[added[i]]))
    {
      assert added[i] in Elems(added);
      AdditionsAt(src, added, i);
    }
  }

  lemma {:induction false} ReplayRemovals<K, V>(m: map<K, V>, m0: map<K, V>, keys: seq<K>, dflt: V)
    ensures Replay(m, Removals(m0, keys, dflt)) == m - Elems(keys)
  {
    if keys == [] {
      assert m - Elems(keys) == m;
    } else {
      var init, k := keys[..|keys| - 1], keys[|keys| - 1];
      ReplaySnoc(m, Removals(m0, init, dflt), RemoveNotification(m0, k, dflt));
      ReplayRemovals(m, m0, init, dflt);
      assert keys == init + [k];
      assert Elems(keys) == Elems(init) + {k};
    }
  }

  lemma {:induction false} ReplayReplacements<K, V>(m: map<K, V>, m0: map<K, V>, src: map<K, V>, keys: seq<K>, dflt: V)
    requires forall k :: k in keys ==> k in src
    ensures Replay(m, Replacements(m0, src, keys, dflt)) == Overwritten(m, src, keys)
  {
    if keys != [] {
      var init, k := keys[..|keys| - 1], keys[|keys| - 1];
      assert keys == init + [k];
      ReplaySnoc(m, Replacements(m0, src, init, dflt), ReplaceNotification(m0, k, src[k], dflt));
      ReplayReplacements(m, m0, src, init, dflt);
    }
  }

  lemma {:induction false} ReplayAdditions<K, V>(m: map<K, V>, src: map<K, V>, keys: seq<K>)
    requires forall k :: k in keys ==> k in src
    ensures Replay(m, Additions(src, keys)) == Overwritten(m, src, keys)
  {
    if keys != [] {
      var init, k := keys[..|keys| - 1], keys[|keys| - 1];
      assert keys == init + [k];
      ReplaySnoc(m, Additions(src, init), Added(Pair(k, src[k])));
      ReplayAdditions(m, src, init);
    }
  }

  /** Removing the keys absent from `src`, then setting every other key of `src`, yields `src`. */
  lemma ReconcileResult<K, V>(m0: map<K, V>, src: map<K, V>, removed: seq<K>, updated: seq<K>, added: seq<K>)
    requires ReconcilePlan(m0, src, removed, updated, added)
    ensures forall k :: k in updated ==> k in src
    ensures forall k :: k in added ==> k in src
    ensures Overwritten(Overwritten(m0 - Elems(removed), src, updated), src, added) == src
  {
    assert forall k :: k in updated ==> k in Elems(updated);
    assert forall k :: k in added ==> k in Elems(added);
    var kept := m0 - Elems(removed);
    var mid := Overwritten(kept, src, updated);
    var r := Overwritten(mid, src, added);
    forall k | k in r ensures k in src && r[k] == src[k]
    {
      OverwrittenAt(kept, src, updated, k);
      OverwrittenAt(mid, src, added, k);
      if k in m0 {
        assert k in Elems(updated);
        assert k !in Elems(added);
      } else {
        assert k in Elems(added);
      }
    }
    forall k | k in src ensures k in r
    {
      OverwrittenAt(kept, src, updated, k);
      OverwrittenAt(mid, src, added, k);
      if k in m0 {
        assert k in Elems(updated);
      } else {
        assert k in Elems(added);
      }
    }
    MapsEqual(r, src);
  }

  lemma MapsEqual<K, V>(a: map<K, V>, b: map<K, V>)
    requires forall k :: k in a <==> k in b
    requires forall k :: k in a ==> a[k] == b[k]
    ensures a == b
  {
  }

  /**
   * No notification is missed: an observer that held the old contents and
   * applies every notification `UpdateDictionary` raises ends up holding
   * exactly the source dictionary.
   */
  lemma ReconcileConverges<K, V>(m0: map<K, V>, src: map<K, V>, removed: seq<K>, updated: seq<K>, added: seq<K>, dflt: V)
    requires ReconcilePlan(m0, src, removed, updated, added)
    ensures Replay(m0, ReconcileLog(m0, src, removed, updated, added, dflt)) == src
  {
    ReconcileResult(m0, src, removed, updated, added);
    var rs, us, ads := Removals(m0, removed, dflt), Replacements(m0, src, updated, dflt), Additions(src, added);
    ReplayAppend(m0, rs + us, ads);
    ReplayAppend(m0, rs, us);
    ReplayRemovals(m0, m0, removed, dflt);
    ReplayReplacements(m0 - Elems(removed), m0, src, updated, dflt);
    ReplayAdditions(Overwritten(m0 - Elems(removed), src, updated), src, added);
  }

  /**
   * Value-blind overwrite: reconciling with a source equal to the current
   * contents (as a second `UpdateDictionary` with the same source does)
   * removes and adds nothing, yet raises one `Replace` per entry, each
   * reporting the same value as old and new.
   */
  lemma ReconcileWithItself<K, V>(m: map<K, V>, removed: seq<K>, updated: seq<K>, added: seq<K>, dflt: V)
    requires ReconcilePlan(m, m, removed, updated, added)
    ensures removed == [] && added == [] && |updated| == |m|
    ensures var log := ReconcileLog(m, m, removed, updated, added, dflt);
      && |log| == |m|
      && forall i :: 0 <= i < |log| ==> log[i].Replaced? && log[i].newItem == log[i].oldItem
  {
    ListingOfSmallSet(removed, m.Keys - m.Keys);
    ListingOfSmallSet(added, m.Keys - m.Keys);
    assert m.Keys * m.Keys == m.Keys;
    ListingSize(updated, m.Keys);
    ReconcileLogShape(m, m, removed, updated, added, dflt);
    var log := ReconcileLog(m, m, removed, updated, added, dflt);
    forall i | 0 <= i < |log| ensures log[i].Replaced? && log[i].newItem == log[i].oldItem {
      assert updated[i] in m;
      assert log[|removed| + i] == log[i];
    }
  }

  /**
   * The dictionary holds {0: "Test"} and mirrors {1: "A new value"}: it
   * raises `Remove` of (0, "Test") and then `Add` of (1, "A new value").
   */
  lemma ReconcileDisjointExample(removed: seq<int>, updated: seq<int>, added: seq<int>)
    requires ReconcilePlan(map[0 := "Test"], map[1 := "A new value"], removed, updated, added)
    ensures ReconcileLog(map[0 := "Test"], map[1 := "A new value"], removed, updated, added, "")
      == [Removed(Pair(0, "Test")), Added(Pair(1, "A new value"))]
  {
    var m0, src := map[0 := "Test"], map[1 := "A new value"];
    assert m0.Keys - src.Keys == {0};
    assert m0.Keys * src.Keys == {};
    assert src.Keys - m0.Keys == {1};
    ListingOfSmallSet(removed, {0});
    ListingOfSmallSet(updated, {});
    ListingOfSmallSet(added, {1});
  }

  /**
   * The dictionary holds {0: "Test"} and mirrors
   * {1: "A new value", 0: "A changed value"}: it raises `Replace` of 0 from
   * "Test" to "A changed value" and then `Add` of (1, "A new value").
   */
  lemma ReconcileOverlapExample(removed: seq<int>, updated: seq<int>, added: seq<int>)
    requires ReconcilePlan(map[0 := "Test"], map[1 := "A new value", 0 := "A changed value"], removed, updated, added)
    ensures ReconcileLog(map[0 := "Test"], map[1 := "A new value", 0 := "A changed value"], removed, updated, added, "")
      == [Replaced(Pair(0, "A changed value"), Pair(0, "Test")), Added(Pair(1, "A new value"))]
  {
    var m0, src := map[0 := "Test"], map[1 := "A new value", 0 := "A changed value"];
    assert m0.Keys - src.Keys == {};
    assert m0.Keys * src.Keys == {0};
    assert src.Keys - m0.Keys == {1};
    ListingOfSmallSet(removed, {});
    ListingOfSmallSet(updated, {0});
    ListingOfSmallSet(added, {1});
  }

  // ---------------------------------------------------------------------
  // CopyTo
  // ---------------------------------------------------------------------

  /**
   * How many entries `CopyTo` writes before it finishes or the write to an
   * index outside the array throws: none for an empty dictionary, none when
   * the first index is already outside the array, else as many as fit.
   */
  function CopiedCount(count: nat, arrayIndex: int, length: nat): (n: nat)
    ensures n <= count
    ensures n == count <==> count == 0 || (0 <= arrayIndex && arrayIndex + count <= length)
    ensures 0 < n ==> 0 <= arrayIndex && arrayIndex + n <= length
    ensures 0 <= arrayIndex < length && 0 < count ==> n == count || arrayIndex + n == length
  {
    if count == 0 || arrayIndex < 0 || length <= arrayIndex then 0
    else if arrayIndex + count <= length then count
    else length - arrayIndex
  }

  // ---------------------------------------------------------------------
  // The class
  // ---------------------------------------------------------------------

  class ObservableDictionary<K(==), V(==)> {
    /** The wrapped `Dictionary<TKey, TValue>`. */
    var contents: map<K, V>
    /** Every `CollectionChanged` notification raised so far, oldest first. */
    var log: seq<Change<K, V>>
    /** `default(TValue)`. */
    const dflt: V

    /**
     * No notification is ever missed: an observer that started from the
     * empty dictionary and applied every notification holds the contents.
     */
    ghost predicate Valid()
      reads this
    {
      Replay(map[], log) == contents
    }

    /** A new, empty dictionary that has raised nothing yet. */
    constructor (dflt: V)
      ensures Valid()
      ensures contents == map[] && log == [] && this.dflt == dflt
    {
      contents := map[];
      log := [];
      this.dflt := dflt;
    }

    /** `Count`: the number of entries. */
    function Count(): (n: nat)
      reads this
      ensures n == |contents.Keys|
    {
      |contents|
    }

    /** `ContainsKey`: whether an entry has this key. */
    function ContainsKey(key: K): (b: bool)
      reads this
      ensures b <==> key in contents.Keys
    {
      key in contents
    }

    /** `Contains`: whether this exact entry, key and value both, is stored. */
    function Contains(item: Pair<K, V>): (b: bool)
      reads this
      ensures b <==> (item.key, item.value) in contents.Items
    {
      item.key in contents && contents[item.key] == item.value
    }

    /** `TryGetValue`: the stored value, or `default(TValue)` and `false`. */
    method TryGetValue(key: K) returns (found: bool, value: V)
      ensures found <==> key in contents
      ensures found ==> value == contents[key]
      ensures !found ==> value == dflt
    {
      found := key in contents;
      value := if found then contents[key] else dflt;
    }

    /** The indexer getter: the stored value, or `KeyNotFoundException`. */
    method GetItem(key: K) returns (r: Result<V, DictionaryError>)
      ensures key in contents ==> r == Ok(contents[key])
      ensures key !in contents ==> r == Err(KeyNotFound)
    {
      if key in contents {
        r := Ok(contents[key]);
      } else {
        r := Err(KeyNotFound);
      }
    }

    /**
     * The indexer setter: stores the value, present key or not, and always
     * raises `Replace`, whose old item is the previous entry or
     * (key, default(TValue)).
     */
    method SetItem(key: K, value: V)
      requires Valid()
      modifies this
      ensures Valid()
      ensures contents == old(contents)[key := value]
      ensures log == old(log) + [ReplaceNotification(old(contents), key, value, dflt)]
    {
      var _, oldValue := TryGetValue(key);
      contents := contents[key := value];
      log := log + [Replaced(Pair(key, value), Pair(key, oldValue))];
      ReplaySnoc(map[], old(log), ReplaceNotification(old(contents), key, value, dflt));
    }

    /**
     * `Add(KeyValuePair)`: a present key makes `Dictionary.Add` throw before
     * anything is raised; otherwise the entry is stored and `Add` is raised.
     */
    method AddPair(item: Pair<K, V>) returns (r: Outcome<DictionaryError>)
      requires Valid()
      modifies this
      ensures Valid()
      ensures item.key in old(contents) ==> r == Fail(DuplicateKey) && contents == old(contents) && log == old(log)
      ensures item.key !in old(contents) ==>
        r == Pass && contents == old(contents)[item.key := item.value] && log == old(log) + [Added(item)]
    {
      if item.key in contents {
        return Fail(DuplicateKey);
      }
      contents := contents[item.key := item.value];
      log := log + [Added(item)];
      ReplaySnoc(map[], old(log), Added(item));
      r := Pass;
    }

    /** `Add(key, value)`: the same as adding the pair (key, value). */
    method Add(key: K, value: V) returns (r: Outcome<DictionaryError>)
      requires Valid()
      modifies this
      ensures Valid()
      ensures key in old(contents) ==> r == Fail(DuplicateKey) && contents == old(contents) && log == old(log)
      ensures key !in old(contents) ==>
        r == Pass && contents == old(contents)[key := value] && log == old(log) + [Added(Pair(key, value))]
    {
      r := AddPair(Pair(key, value));
    }

    /** `Clear`: empties the dictionary, empty or not, and raises one `Reset`. */
    method Clear()
      requires Valid()
      modifies this
      ensures Valid()
      ensures contents == map[] && log == old(log) + [Reset]
    {
      contents := map[];
      log := log + [Reset];
      ReplaySnoc(map[], old(log), Reset);
    }

    /**
     * `Remove(key)`: reports whether the key was present, deletes it, and
     * raises `Remove` in either case, carrying (key, default(TValue)) when
     * the key was absent.
     */
    method Remove(key: K) returns (removed: bool)
      requires Valid()
      modifies this
      ensures Valid()
      ensures removed <==> key in old(contents)
      ensures contents == old(contents) - {key}
      ensures log == old(log) + [RemoveNotification(old(contents), key, dflt)]
    {
      var _, removedValue := TryGetValue(key);
      removed := key in contents;
      contents := contents - {key};
      log := log + [Removed(Pair(key, removedValue))];
      ReplaySnoc(map[], old(log), RemoveNotification(old(contents), key, dflt));
    }

    /** `Remove(KeyValuePair)`: removes by key alone; the pair's value is ignored. */
    method RemovePair(item: Pair<K, V>) returns (removed: bool)
      requires Valid()
      modifies this
      ensures Valid()
      ensures removed <==> item.key in old(contents)
      ensures contents == old(contents) - {item.key}
      ensures log == old(log) + [RemoveNotification(old(contents), item.key, dflt)]
    {
      removed := Remove(item.key);
    }

    /**
     * `CopyTo`: writes the entries, in enumeration order `order`, to
     * consecutive cells from `arrayIndex` on. `ok` is false when a write fell
     * outside the array (the source throws there); the writes made before it
     * stay. No other cell changes.
     */
    method CopyTo(a: array<Pair<K, V>>, arrayIndex: int) returns (ok: bool, ghost order: seq<K>)
      modifies a
      ensures IsListing(order, contents.Keys) && |order| == |contents|
      ensures ok <==> |contents| == 0 || (0 <= arrayIndex && arrayIndex + |contents| <= a.Length)
      ensures var n := CopiedCount(|contents|, arrayIndex, a.Length);
        && (forall j :: 0 <= j < n ==> order[j] in contents && a[arrayIndex + j] == Pair(order[j], contents[order[j]]))
        && (forall p :: 0 <= p < a.Length && !(arrayIndex <= p < arrayIndex + n) ==> a[p] == old(a[p]))
    {
      var keys := Enumerate(contents.Keys);
      order := keys;
      ListingSize(keys, contents.Keys);
      var currentIndex := arrayIndex;
      var i := 0;
      while i < |keys|
        invariant 0 <= i <= |keys|
        invariant currentIndex == arrayIndex + i
        invariant 0 < i ==> 0 <= arrayIndex && arrayIndex + i <= a.Length
        invariant forall j :: 0 <= j < i ==> keys[j] in contents && a[arrayIndex + j] == Pair(keys[j], contents[keys[j]])
        invariant forall p :: 0 <= p < a.Length && !(arrayIndex <= p < arrayIndex + i) ==> a[p] == old(a[p])
      {
        if currentIndex < 0 || a.Length <= currentIndex {
          return false, keys;
        }
        assert keys[i] in Elems(keys);
        a[currentIndex] := Pair(keys[i], contents[keys[i]]);
        currentIndex := currentIndex + 1;
        i := i + 1;
      }
      ok := true;
    }

    /**
     * `UpdateDictionary`: makes the contents equal to `source`. The keys to
     * remove, to overwrite and to add are all computed from the contents
     * before the call; the notifications are exactly `ReconcileLog` of them.
     */
    method UpdateDictionary(source: map<K, V>) returns (ghost removed: seq<K>, ghost updated: seq<K>, ghost added: seq<K>)
      requires Valid()
      modifies this
      ensures Valid()
      ensures contents == source
      ensures ReconcilePlan(old(contents), source, removed, updated, added)
      ensures log == old(log) + ReconcileLog(old(contents), source, removed, updated, added, dflt)
    {
      ghost var m0, log0 := contents, log;
      var removedEntries, updatedEntries, newEntries := Diff(source);
      removed, updated, added := removedEntries, updatedEntries, newEntries;
      ReconcileResult(m0, source, removedEntries, updatedEntries, newEntries);
      PlanKeys(m0, source, removedEntries, updatedEntries, newEntries);

      RemoveEach(removedEntries);
      forall k | k in updatedEntries ensures k in contents {
        assert k !in removedEntries;
      }
      OverwriteEach(source, updatedEntries);
      forall k | k in newEntries ensures k !in contents {
        OverwrittenAt(m0 - Elems(removedEntries), source, updatedEntries, k);
        assert k !in updatedEntries;
      }
      AddEach(source, newEntries);
      ghost var rs := Removals(m0, removedEntries, dflt);
      ghost var us := Replacements(m0, source, updatedEntries, dflt);
      ReplacementsAgree(m0, m0 - Elems(removedEntries), source, updatedEntries, dflt);
      ghost var ads := Additions(source, newEntries);
      assert log == log0 + rs + us + ads;
      assert ReconcileLog(m0, source, removedEntries, updatedEntries, newEntries, dflt) == rs + us + ads;
      AppendThree(log0, rs, us, ads);
    }

    /**
     * The lists `UpdateDictionary` builds before it changes anything: the
     * keys of the dictionary that `source` lacks (in the dictionary's
     * enumeration order), and the keys of `source` that the dictionary
     * already has and that it lacks (both in `source`'s enumeration order).
     */
    method Diff(source: map<K, V>) returns (removed: seq<K>, updated: seq<K>, added: seq<K>)
      ensures ReconcilePlan(contents, source, removed, updated, added)
    {
      var sourceOrder := Enumerate(source.Keys);
      var baseOrder := Enumerate(contents.Keys);
      added := Without(sourceOrder, contents.Keys);
      removed := Without(baseOrder, source.Keys);
      updated := Within(sourceOrder, contents.Keys);
      WithoutListing(sourceOrder, source.Keys, contents.Keys);
      WithoutListing(baseOrder, contents.Keys, source.Keys);
      WithinListing(sourceOrder, source.Keys, contents.Keys);
      assert source.Keys * contents.Keys == contents.Keys * source.Keys;
    }

    /** The first loop of `UpdateDictionary`: `Remove` each key, in order. */
    method RemoveEach(keys: seq<K>)
      requires Valid()
      requires Distinct(keys)
      requires forall k :: k in keys ==> k in contents
      modifies this
      ensures Valid()
      ensures contents == old(contents) - Elems(keys)
      ensures log == old(log) + Removals(old(contents), keys, dflt)
    {
      var i := 0;
      while i < |keys|
        invariant Valid()
        invariant 0 <= i <= |keys|
        invariant contents == old(contents) - Elems(keys[..i])
        invariant log == old(log) + Removals(old(contents), keys[..i], dflt)
      {
        var key := keys[i];
        assert key !in Elems(keys[..i]) by {
          forall j | 0 <= j < i ensures keys[..i][j] != key {
            assert keys[..i][j] == keys[j];
          }
        }
        assert keys[..i + 1] == keys[..i] + [key];
        assert Elems(keys[..i + 1]) == Elems(keys[..i]) + {key};
        var _ := Remove(key);
        i := i + 1;
      }
      assert keys[..i] == keys;
    }

    /** The second loop of `UpdateDictionary`: set each key to its value in `src`, in order. */
    method OverwriteEach(src: map<K, V>, keys: seq<K>)
      requires Valid()
      requires Distinct(keys)
      requires forall k :: k in keys ==> k in contents && k in src
      modifies this
      ensures Valid()
      ensures contents == Overwritten(old(contents), src, keys)
      ensures log == old(log) + Replacements(old(contents), src, keys, dflt)
    {
      var i := 0;
      while i < |keys|
        invariant Valid()
        invariant 0 <= i <= |keys|
        invariant contents == Overwritten(old(contents), src, keys[..i])
        invariant log == old(log) + Replacements(old(contents), src, keys[..i], dflt)
      {
        var key := keys[i];
        assert key !in keys[..i] by {
          forall j | 0 <= j < i ensures keys[..i][j] != key {
            assert keys[..i][j] == keys[j];
          }
        }
        assert keys[..i + 1] == keys[..i] + [key];
        OverwrittenAt(old(contents), src, keys[..i], key);
        SetItem(key, src[key]);
        i := i + 1;
      }
      assert keys[..i] == keys;
    }

    /** The third loop of `UpdateDictionary`: `Add` each key with its value in `src`, in order. */
    method AddEach(src: map<K, V>, keys: seq<K>)
      requires Valid()
      requires Distinct(keys)
      requires forall k :: k in keys ==> k !in contents && k in src
      modifies this
      ensures Valid()
      ensures contents == Overwritten(old(contents), src, keys)
      ensures log == old(log) + Additions(src, keys)
    {
      var i := 0;
      while i < |keys|
        invariant Valid()
        invariant 0 <= i <= |keys|
        invariant contents == Overwritten(old(contents), src, keys[..i])
        invariant log == old(log) + Additions(src, keys[..i])
      {
        var key := keys[i];
        assert key !in keys[..i] by {
          forall j | 0 <= j < i ensures keys[..i][j] != key {
            assert keys[..i][j] == keys[j];
          }
        }
        assert keys[..i + 1] == keys[..i] + [key];
        assert key in keys && key !in old(contents);
        OverwrittenAt(old(contents), src, keys[..i], key);
        var r := AddPair(Pair(key, src[key]));
        assert r == Pass;
        i := i + 1;
      }
      assert keys[..i] == keys;
    }
  }
}
