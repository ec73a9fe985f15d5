/**
 * The transactional key-value store: the record map of InMemoryStore plus an
 * undo log. Every Set and Del first records what the key held before (its
 * value, or that it was absent); Begin pushes a checkpoint marker; Rollback
 * pops and re-applies recorded states until it consumes a marker or the log
 * runs out; Commit throws the whole log away.
 */
module KeyValueStore {
  import opened InMemoryStore

  /** An undo-log entry: a transaction's start, or a key's state before one write. */
  datatype Entry<T> = Checkpoint | Reversal(key: string, prior: Option<T>)

  /** Puts `key` back into the state `prior` describes, leaving every other key alone. */
  function Restore<T>(m: map<string, T>, key: string, prior: Option<T>): (r: map<string, T>)
    ensures Lookup(r, key) == prior
    ensures forall k :: k != key ==> Lookup(r, k) == Lookup(m, k)
  {
    match prior
    case None => m - {key}
    case Some(v) => m[key := v]
  }

  /** The nesting depth: how many checkpoint markers the log holds. */
  function Depth<T>(log: seq<Entry<T>>): (d: nat)
    ensures d <= |log|
  {
    if log == [] then 0
    else Depth(log[..|log| - 1]) + (if log[|log| - 1].Checkpoint? then 1 else 0)
  }

  /**
   * Rollback's effect on the record map `m` and the log: re-apply reversal
   * entries from the top until a checkpoint is popped or the log is empty.
   * It consumes exactly one marker when there is one, and otherwise drains
   * the log.
   */
  function Undo<T>(m: map<string, T>, log: seq<Entry<T>>): (r: (map<string, T>, seq<Entry<T>>))
    ensures r.1 <= log
    ensures Depth(r.1) == if Depth(log) == 0 then 0 else Depth(log) - 1
    ensures Depth(log) == 0 ==> r.1 == []
    decreases |log|
  {
    if log == [] then (m, [])
    else
      match log[|log| - 1]
      case Checkpoint => (m, log[..|log| - 1])
      case Reversal(k, p) => Undo(Restore(m, k, p), log[..|log| - 1])
  }

  /**
   * Where Undo stops: every entry it pops before stopping is a reversal, and
   * when the log holds a checkpoint the last entry popped is the innermost one.
   */
  lemma {:induction false} UndoStopsAtCheckpoint<T>(m: map<string, T>, log: seq<Entry<T>>)
    ensures Depth(log) > 0 ==> |Undo(m, log).1| < |log| && log[|Undo(m, log).1|] == Checkpoint
    ensures forall i :: |Undo(m, log).1| < i < |log| ==> log[i].Reversal?
    decreases |log|
  {
    if log != [] {
      match log[|log| - 1]
      case Checkpoint =>
      case Reversal(k, p) =>
        var init := log[..|log| - 1];
        UndoStopsAtCheckpoint(Restore(m, k, p), init);
        assert forall i :: 0 <= i < |init| ==> init[i] == log[i];
    }
  }

  /**
   * The log's invariant. `snaps` holds the record map as it was at each open
   * Begin, outermost first, and `base` the record map as it was when the log
   * was last emptied. Undoing the log from the top against the current map
   * `m`, each checkpoint met finds exactly its snapshot, and the bottom of
   * the log finds `base`.
   */
  ghost predicate Restores<T>(m: map<string, T>, log: seq<Entry<T>>,
                              snaps: seq<map<string, T>>, base: map<string, T>)
    decreases |log|
  {
    if log == [] then snaps == [] && m == base
    else
      match log[|log| - 1]
      case Checkpoint =>
        snaps != [] && snaps[|snaps| - 1] == m
        && Restores(m, log[..|log| - 1], snaps[..|snaps| - 1], base)
      case Reversal(k, p) => Restores(Restore(m, k, p), log[..|log| - 1], snaps, base)
  }

  /** There is one snapshot per checkpoint marker. */
  lemma {:induction false} RestoresDepth<T>(m: map<string, T>, log: seq<Entry<T>>,
                                            snaps: seq<map<string, T>>, base: map<string, T>)
    requires Restores(m, log, snaps, base)
    ensures |snaps| == Depth(log)
    decreases |log|
  {
    if log != [] {
      match log[|log| - 1]
      case Checkpoint =>
        RestoresDepth(m, log[..|log| - 1], snaps[..|snaps| - 1], base);
      case Reversal(k, p) =>
        RestoresDepth(Restore(m, k, p), log[..|log| - 1], snaps, base);
    }
  }

  /**
   * The restoration law: Undo brings the map back to the snapshot taken at
   * the innermost open Begin and leaves the log consistent with the outer
   * snapshots; with no Begin open it brings the map back to `base` and
   * empties the log.
   */
  lemma {:induction false} UndoRestoresSnapshot<T>(m: map<string, T>, log: seq<Entry<T>>,
                                                   snaps: seq<map<string, T>>, base: map<string, T>)
    requires Restores(m, log, snaps, base)
    ensures snaps != [] ==> Undo(m, log).0 == snaps[|snaps| - 1]
    ensures snaps != [] ==> Restores(Undo(m, log).0, Undo(m, log).1, snaps[..|snaps| - 1], base)
    ensures snaps == [] ==> Undo(m, log) == (base, [])
    decreases |log|
  {
    if log != [] {
      match log[|log| - 1]
      case Checkpoint =>
      case Reversal(k, p) =>
        UndoRestoresSnapshot(Restore(m, k, p), log[..|log| - 1], snaps, base);
    }
  }

  /**
   * Recording a write keeps the invariant: if restoring the key's prior state
   * in the new map `m'` gives back the old map, pushing that reversal entry
   * on the log keeps every snapshot and the base reachable.
   */
  lemma RecordKeepsRestores<T>(m: map<string, T>, log: seq<Entry<T>>,
                               snaps: seq<map<string, T>>, base: map<string, T>,
                               key: string, m': map<string, T>)
    requires Restores(m, log, snaps, base)
    requires Restore(m', key, Lookup(m, key)) == m
    ensures Restores(m', log + [Reversal(key, Lookup(m, key))], snaps, base)
  {
    assert (log + [Reversal(key, Lookup(m, key))])[..|log|] == log;
  }

  /** Begin keeps the invariant when the current map becomes the newest snapshot. */
  lemma BeginKeepsRestores<T>(m: map<string, T>, log: seq<Entry<T>>,
                              snaps: seq<map<string, T>>, base: map<string, T>)
    requires Restores(m, log, snaps, base)
    ensures Restores(m, log + [Checkpoint], snaps + [m], base)
  {
    assert (log + [Checkpoint])[..|log|] == log;
    assert (snaps + [m])[..|snaps|] == snaps;
  }

  /** Restoring a key changes the record count by at most one, as the key comes or goes. */
  lemma RestoreSize<T>(m: map<string, T>, key: string, prior: Option<T>)
    ensures |Restore(m, key, prior)|
         == |m| - (if key in m then 1 else 0) + (if prior.Some? then 1 else 0)
  {
    RemoveSize(m, key);
  }

  /** Overwriting a key and then restoring its recorded prior state is the identity. */
  lemma RestoreUndoesAssign<T>(m: map<string, T>, key: string, v: T)
    ensures Restore(m[key := v], key, Lookup(m, key)) == m
  {
  }

  /** Deleting a key and then restoring its recorded prior state is the identity. */
  lemma RestoreUndoesRemove<T>(m: map<string, T>, key: string)
    ensures Restore(m - {key}, key, Lookup(m, key)) == m
  {
  }

  /** A sequence without repeats has as many elements as its set of elements. */
  lemma {:induction false} DistinctSize(s: seq<string>)
    requires forall i, j :: 0 <= i < j < |s| ==> s[i] != s[j]
    ensures |set x | x in s| == |s|
  {
    if s != [] {
      var init := s[..|s| - 1];
      DistinctSize(init);
      assert (set x | x in s) == (set x | x in init) + {s[|s| - 1]};
    }
  }

  /** A sequence without repeats holds each element of its set of elements exactly once. */
  lemma {:induction false} DistinctMultiset(s: seq<string>, elems: set<string>)
    requires forall i, j :: 0 <= i < j < |s| ==> s[i] != s[j]
    requires forall x :: x in s <==> x in elems
    ensures multiset(s) == multiset(elems)
    decreases |s|
  {
    if s == [] {
      assert elems == {};
    } else {
      var init, last := s[..|s| - 1], s[|s| - 1];
      assert s == init + [last];
      assert last !in init;
      DistinctMultiset(init, elems - {last});
      assert elems == (elems - {last}) + {last};
    }
  }

  /**
   * KeyValueStore<T>: the record map with its size counter (the interface's
   * num_records_) and the undo log. The ghost fields give the transactional
   * view: the record map at each open Begin, and at the last Commit.
   */
  class KeyValueStore<T(==)> {
    var data: map<string, T>
    var numRecords: nat
    var log: seq<Entry<T>>
    ghost var snapshots: seq<map<string, T>>
    ghost var committed: map<string, T>

    /** The size counter equals the number of keys, and the log can restore every snapshot. */
    ghost predicate Valid()
      reads this
    {
      numRecords == |data| && Restores(data, log, snapshots, committed)
    }

    /** A new store holds no records, no log and no open transaction. */
    constructor ()
      ensures Valid()
      ensures data == map[] && log == [] && snapshots == [] && committed == map[]
    {
      data := map[];
      numRecords := 0;
      log := [];
      snapshots := [];
      committed := map[];
    }

    /** Get: the value stored under `key`, or None when the key is absent. */
    function Get(key: string): (r: Option<T>)
      reads this
      ensures r.Some? <==> key in data
      ensures r.Some? ==> r.value == data[key]
    {
      Lookup(data, key)
    }

    /**
     * Set: records the key's previous state, then writes `value` (skipping
     * the write when the key already holds it). The new value is visible at
     * once; no other key changes; an overwrite keeps the record count.
     */
    method Set(key: string, value: T)
      requires Valid()
      modifies this
      ensures Valid()
      ensures data == old(data)[key := value]
      ensures log == old(log) + [Reversal(key, old(Get(key)))]
      ensures snapshots == old(snapshots) && committed == old(committed)
      ensures Get(key) == Some(value)
      ensures forall k :: k != key ==> Get(k) == old(Get(k))
      ensures numRecords == if key in old(data) then old(numRecords) else old(numRecords) + 1
      ensures old(Get(key)) == Some(value) ==> data == old(data)
    {
      var prior := Get(key);
      RestoreUndoesAssign(data, key, value);
      RecordKeepsRestores(data, log, snapshots, committed, key, data[key := value]);
      log := log + [Reversal(key, prior)];
      if prior != Some(value) {
        if prior.None? {
          numRecords := numRecords + 1;
        }
        data := data[key := value];
      } else {
        assert data[key := value] == data;
      }
    }

    /**
     * Del: records the key's previous state, then removes the key; on an
     * absent key the record map is left as it is. Afterwards the key is
     * absent and no other key has changed.
     */
    method Del(key: string)
      requires Valid()
      modifies this
      ensures Valid()
      ensures data == old(data) - {key}
      ensures log == old(log) + [Reversal(key, old(Get(key)))]
      ensures snapshots == old(snapshots) && committed == old(committed)
      ensures Get(key) == None
      ensures forall k :: k != key ==> Get(k) == old(Get(k))
      ensures numRecords == if key in old(data) then old(numRecords) - 1 else old(numRecords)
      ensures key !in old(data) ==> data == old(data)
    {
      var prior := Get(key);
      RestoreUndoesRemove(data, key);
      RecordKeepsRestores(data, log, snapshots, committed, key, data - {key});
      RemoveSize(data, key);
      log := log + [Reversal(key, prior)];
      if prior.Some? {
        numRecords := numRecords - 1;
        data := data - {key};
      } else {
        assert data - {key} == data;
      }
    }

    /** Keys: every key whose value passes `filter`, each exactly once, in no promised order. */
    method Keys(filter: Option<T>) returns (ks: seq<string>)
      requires Valid()
      ensures forall k :: k in ks <==> k in KeysMatching(data, filter)
      ensures forall i, j :: 0 <= i < j < |ks| ==> ks[i] != ks[j]
      ensures |ks| == |KeysMatching(data, filter)|
      ensures multiset(ks) == multiset(KeysMatching(data, filter))
    {
      ks := [];
      var rest := data.Keys;
      while rest != {}
        invariant rest <= data.Keys
        invariant forall k :: k in ks <==> k in data && k !in rest && Matches(filter, data[k])
        invariant forall i, j :: 0 <= i < j < |ks| ==> ks[i] != ks[j]
        decreases rest
      {
        var k :| k in rest;
        if Matches(filter, data[k]) {
          ks := ks + [k];
        }
        rest := rest - {k};
      }
      DistinctSize(ks);
      assert (set x | x in ks) == KeysMatching(data, filter);
      DistinctMultiset(ks, KeysMatching(data, filter));
    }

    /** Values: one entry per record, each value as many times as keys hold it. */
    method Values() returns (vs: seq<T>)
      requires Valid()
      ensures |vs| == numRecords
      ensures forall v :: multiset(vs)[v] == |KeysMatching(data, Some(v))|
    {
      vs := [];
      var done: set<string> := {};
      while done != data.Keys
        invariant done <= data.Keys
        invariant |vs| == |done|
        invariant forall v :: multiset(vs)[v] == |Among(data, done, Some(v))|
        decreases |data.Keys - done|
      {
        var k :| k in data.Keys - done;
        var x := data[k];
        forall v
          ensures multiset(vs + [x])[v] == |Among(data, done + {k}, Some(v))|
        {
          AmongAdd(data, done, k, Some(v));
          assert multiset(vs + [x]) == multiset(vs) + multiset{x};
        }
        vs := vs + [x];
        done := done + {k};
      }
      forall v
        ensures multiset(vs)[v] == |KeysMatching(data, Some(v))|
      {
        AmongAll(data, Some(v));
      }
    }

    /**
     * Count: how many keys pass `filter`; with no filter, the record
     * counter itself.
     */
    method Count(filter: Option<T>) returns (n: nat)
      requires Valid()
      ensures n == |KeysMatching(data, filter)|
      ensures filter.None? ==> n == |data|
    {
      if filter.None? {
        CountAllIsSize(data);
        return numRecords;
      }
      n := 0;
      var done: set<string> := {};
      while done != data.Keys
        invariant done <= data.Keys
        invariant n == |Among(data, done, filter)|
        decreases |data.Keys - done|
      {
        var k :| k in data.Keys - done;
        AmongAdd(data, done, k, filter);
        if Matches(filter, data[k]) {
          n := n + 1;
        }
        done := done + {k};
      }
      AmongAll(data, filter);
    }

    /** Begin: opens a (possibly nested) transaction; the record map is untouched. */
    method Begin()
      requires Valid()
      modifies this
      ensures Valid()
      ensures data == old(data) && numRecords == old(numRecords)
      ensures log == old(log) + [Checkpoint]
      ensures snapshots == old(snapshots) + [data] && committed == old(committed)
    {
      BeginKeepsRestores(data, log, snapshots, committed);
      log := log + [Checkpoint];
      snapshots := snapshots + [data];
    }

    /**
     * Commit: closes every open transaction at once by discarding the whole
     * log; the current record map becomes what a later Rollback returns to.
     */
    method Commit()
      requires Valid()
      modifies this
      ensures Valid()
      ensures data == old(data) && numRecords == old(numRecords)
      ensures log == [] && snapshots == [] && committed == data
    {
      log := [];
      snapshots := [];
      committed := data;
    }

    /**
     * Rollback: pops entries from the top of the log, putting each recorded
     * key back as it was, until a checkpoint is popped or the log is empty.
     * It brings back the record map as of the innermost open Begin and closes
     * that transaction; with none open it drains the log and brings back the
     * map as of the last Commit (an empty log is left as it is).
     */
    method Rollback()
      requires Valid()
      modifies this
      ensures Valid()
      ensures (data, log) == Undo(old(data), old(log))
      ensures committed == old(committed)
      ensures old(snapshots) != [] ==>
                data == old(snapshots[|snapshots| - 1]) && snapshots == old(snapshots[..|snapshots| - 1])
      ensures old(snapshots) == [] ==> data == committed && log == [] && snapshots == []
    {
      UndoRestoresSnapshot(data, log, snapshots, committed);
      ghost var target := Undo(data, log);
      while log != []
        invariant Undo(data, log) == target
        invariant numRecords == |data|
        invariant snapshots == old(snapshots) && committed == old(committed)
        decreases |log|
      {
        var top := log[|log| - 1];
        var rest := log[..|log| - 1];
        if top.Checkpoint? {
          assert Undo(data, log) == (data, rest);
          log := rest;
          break;
        }
        var k, p := top.key, top.prior;
        assert Undo(data, log) == Undo(Restore(data, k, p), rest);
        RestoreSize(data, k, p);
        if k in data && p.None? {
          numRecords := numRecords - 1;
        } else if k !in data && p.Some? {
          numRecords := numRecords + 1;
        }
        data := Restore(data, k, p);
        log := rest;
      }
      assert (data, log) == target;
      if snapshots != [] {
        snapshots := snapshots[..|snapshots| - 1];
      }
    }
  }
}
