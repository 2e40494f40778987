/**
 * The notifications an observable collection raises, and what an observer
 * that mirrors the collection does with each of them.
 */
module CollectionChanges {

  /** A key/value entry (`KeyValuePair<TKey, TValue>`). */
  datatype Pair<K, V> = Pair(key: K, value: V)

  /**
   * One `CollectionChanged` notification: its action, with the entries it
   * carries as new items and as old items.
   */
  datatype Change<K, V> =
    | Added(item: Pair<K, V>)
    | Removed(item: Pair<K, V>)
    | Replaced(newItem: Pair<K, V>, oldItem: Pair<K, V>)
    | Reset

  /** `Dictionary.TryGetValue`'s out value: the stored value, or `default(TValue)`. */
  function ValueOrDefault<K, V>(m: map<K, V>, key: K, dflt: V): (v: V)
    ensures key in m ==> v == m[key]
    ensures key !in m ==> v == dflt
  {
    if key in m then m[key] else dflt
  }

  /**
   * What an observer that mirrors the collection does on one notification.
   * A `Replace` for a key the mirror lacks inserts it.
   */
  function Apply<K, V>(m: map<K, V>, c: Change<K, V>): map<K, V> {
    match c
    case Added(p) => m[p.key := p.value]
    case Removed(p) => m - {p.key}
    case Replaced(n, _) => m[n.key := n.value]
    case Reset => map[]
  }

  /** The mirror's state after it has seen every notification of `log`, in order. */
  function Replay<K, V>(m: map<K, V>, log: seq<Change<K, V>>): map<K, V> {
    if log == [] then m
    else Apply(Replay(m, log[..|log| - 1]), log[|log| - 1])
  }

  /** Seeing one more notification is applying it to the mirror. */
  lemma ReplaySnoc<K, V>(m: map<K, V>, log: seq<Change<K, V>>, c: Change<K, V>)
    ensures Replay(m, log + [c]) == Apply(Replay(m, log), c)
  {
    assert (log + [c])[..|log|] == log;
  }

  /** Replaying two logs one after the other is replaying their concatenation. */
  lemma {:induction false} ReplayAppend<K, V>(m: map<K, V>, a: seq<Change<K, V>>, b: seq<Change<K, V>>)
    ensures Replay(m, a + b) == Replay(Replay(m, a), b)
  {
    if b == [] {
      assert a + b == a;
    } else {
      var last := b[|b| - 1];
      var init := b[..|b| - 1];
      assert a + b == (a + init) + [last];
      assert b == init + [last];
      ReplaySnoc(m, a + init, last);
      ReplayAppend(m, a, init);
      ReplaySnoc(Replay(m, a), init, last);
    }
  }
}
