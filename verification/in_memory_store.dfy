/**
 * The record-map contract of the in-memory store interface: a map from
 * string keys to values of one value type, point lookups that may find
 * nothing, and the optional value filter used by Keys and Count.
 */
module InMemoryStore {

  /** A value that may be absent (the interface's optional result and filter). */
  datatype Option<T> = None | Some(value: T)

  /** What Get reports for `key` in the record map `m`. */
  function Lookup<T>(m: map<string, T>, key: string): (r: Option<T>)
    ensures r.Some? <==> key in m
    ensures r.Some? ==> r.value == m[key]
  {
    if key in m then Some(m[key]) else None
  }

  /** A filter: an absent filter matches every value, a present one only equal values. */
  function Matches<T(==)>(filter: Option<T>, v: T): (r: bool)
    ensures filter.None? ==> r
    ensures filter.Some? ==> (r <==> v == filter.value)
  {
    filter.None? || filter.value == v
  }

  /** The keys whose value passes `filter`: what Keys(filter) reports and Count(filter) counts. */
  function KeysMatching<T(==)>(m: map<string, T>, filter: Option<T>): (s: set<string>)
    ensures s <= m.Keys
    ensures filter.None? ==> s == m.Keys
  {
    set k | k in m && Matches(filter, m[k])
  }

  /** The keys among `done` whose value passes `filter`: what a scan over `done` has found. */
  ghost function Among<T>(m: map<string, T>, done: set<string>, filter: Option<T>): set<string>
  {
    set k | k in done && k in m && Matches(filter, m[k])
  }

  /** Scanning one more key finds it exactly when it is a record that passes the filter. */
  lemma AmongAdd<T>(m: map<string, T>, done: set<string>, key: string, filter: Option<T>)
    requires key !in done
    ensures |Among(m, done + {key}, filter)|
         == |Among(m, done, filter)| + (if key in m && Matches(filter, m[key]) then 1 else 0)
  {
    if key in m && Matches(filter, m[key]) {
      assert Among(m, done + {key}, filter) == Among(m, done, filter) + {key};
    } else {
      assert Among(m, done + {key}, filter) == Among(m, done, filter);
    }
  }

  /** A scan over every key has found exactly the keys that pass the filter. */
  lemma AmongAll<T>(m: map<string, T>, filter: Option<T>)
    ensures Among(m, m.Keys, filter) == KeysMatching(m, filter)
  {
  }

  /** Every record passes the absent filter, so counting with it counts all records. */
  lemma CountAllIsSize<T>(m: map<string, T>)
    ensures |KeysMatching(m, None)| == |m|
  {
    assert KeysMatching(m, None) == m.Keys;
  }

  /** Removing a present key removes exactly one record. */
  lemma RemoveSize<T>(m: map<string, T>, key: string)
    ensures |m - {key}| == if key in m then |m| - 1 else |m|
  {
    assert (m - {key}).Keys == m.Keys - {key};
    if key in m {
      assert m.Keys == (m.Keys - {key}) + {key};
    } else {
      assert m.Keys - {key} == m.Keys;
    }
  }

  /**
   * Writing `v` under `key` moves `key` into or out of every filter's key set
   * and leaves every other key where it was.
   */
  lemma KeysMatchingAfterAssign<T>(m: map<string, T>, key: string, v: T, filter: Option<T>)
    ensures KeysMatching(m[key := v], filter)
         == (KeysMatching(m, filter) - {key}) + (if Matches(filter, v) then {key} else {})
  {
  }

  /** Deleting `key` takes it out of every filter's key set and nothing else. */
  lemma KeysMatchingAfterRemove<T>(m: map<string, T>, key: string, filter: Option<T>)
    ensures KeysMatching(m - {key}, filter) == KeysMatching(m, filter) - {key}
  {
  }

  /**
   * The key sets of two different filter values are disjoint, and together
   * the key sets of all present values cover every key: each record is
   * counted under exactly its own value.
   */
  lemma KeysMatchingByValue<T>(m: map<string, T>, v: T, w: T)
    ensures v != w ==> KeysMatching(m, Some(v)) !! KeysMatching(m, Some(w))
    ensures forall k :: k in m ==> k in KeysMatching(m, Some(m[k]))
  {
  }
}
