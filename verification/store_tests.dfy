/**
 * The store's test cases as client code: each method drives a fresh store
 * through one test's calls and returns what the test inspects; its ensures
 * clause is the test's expectation, proved from the store's contracts alone.
 */
module KeyValueStoreTests {
  import opened InMemoryStore
  import opened KeyValueStore

  /** A missing key reads as absent; after one Set there is one record holding the value. */
  method GetAndSet() returns (before: Option<string>, count: nat, after: Option<string>)
    ensures before == None && count == 1 && after == Some("23")
  {
    var store := new KeyValueStore<string>();
    before := store.Get("Justin");
    store.Set("Justin", "23");
    count := store.Count(None);
    after := store.Get("Justin");
  }

  /** Setting a key twice overwrites it and keeps a single record. */
  method Overwrite() returns (count: nat, after: Option<string>)
    ensures count == 1 && after == Some("24")
  {
    var store := new KeyValueStore<string>();
    store.Set("Justin", "23");
    store.Set("Justin", "24");
    count := store.Count(None);
    after := store.Get("Justin");
  }

  /** A deleted key reads as absent and can be set again. */
  method Delete() returns (deleted: Option<string>, reset: Option<string>)
    ensures deleted == None && reset == Some("25")
  {
    var store := new KeyValueStore<string>();
    store.Set("Justin", "23");
    store.Del("Justin");
    deleted := store.Get("Justin");
    store.Set("Justin", "25");
    reset := store.Get("Justin");
  }

  /** Deleting an absent key, or the same key repeatedly, leaves an empty store. */
  method DeleteIdempotent() returns (count1: nat, get1: Option<string>, count2: nat, get2: Option<string>)
    ensures count1 == 0 && get1 == None && count2 == 0 && get2 == None
  {
    var store := new KeyValueStore<string>();
    store.Del("Justin");
    store.Del("Justin");
    store.Del("Justin");
    count1 := store.Count(None);
    get1 := store.Get("Justin");
    store.Set("Justin", "25");
    store.Del("Justin");
    store.Del("Justin");
    count2 := store.Count(None);
    get2 := store.Get("Justin");
  }

  /** Keys with a filter reports exactly the keys holding that value, in any order. */
  method KeysWithSpecificValue() returns (ks: seq<string>)
    ensures multiset(ks) == multiset{"Justin", "Justine"}
  {
    var store := new KeyValueStore<string>();
    store.Set("Justin", "25");
    store.Set("Justina", "24");
    store.Set("Justine", "25");
    assert KeysMatching(store.data, Some("25")) == {"Justin", "Justine"};
    ks := store.Keys(Some("25"));
  }

  /** Keys without a filter reports every key once, in any order. */
  method KeysDefault() returns (ks: seq<string>)
    ensures multiset(ks) == multiset{"Justin", "Justine", "Justina"}
  {
    var store := new KeyValueStore<string>();
    store.Set("Justin", "25");
    store.Set("Justina", "24");
    store.Set("Justine", "25");
    assert KeysMatching(store.data, None) == {"Justin", "Justina", "Justine"};
    ks := store.Keys(None);
  }

  /** The decimal digit for `d`. */
  function Digit(d: nat): (c: char)
    requires d < 10
    ensures '0' <= c <= '9'
  {
    (48 + d) as char
  }

  /** The decimal spelling of `n` (the keys of the Count test). */
  function Decimal(n: nat): (s: string)
    ensures |s| >= 1
    ensures n >= 10 <==> |s| >= 2
    ensures forall i :: 0 <= i < |s| ==> '0' <= s[i] <= '9'

  {
    if n < 10 then [Digit(n)] else Decimal(n / 10) + [Digit(n % 10)]
  }

  /** Different numbers have different decimal spellings, so they make different keys. */
  lemma {:induction false} DecimalInjective(a: nat, b: nat)
    requires a != b
    ensures Decimal(a) != Decimal(b)
  {
    if a >= 10 && b >= 10 && Decimal(a) == Decimal(b) {
      var sa, sb := Decimal(a), Decimal(b);
      assert sa[|sa| - 1] == Digit(a % 10) && sb[|sb| - 1] == Digit(b % 10);
      assert a % 10 == b % 10;
      assert sa[..|sa| - 1] == Decimal(a / 10) && sb[..|sb| - 1] == Decimal(b / 10);
      DecimalInjective(a / 10, b / 10);
      assert false;
    }
  }

  /**
   * Setting `n` distinct keys yields `n` records; setting them all again with
   * new values still yields `n` records.
   */
  method CountAfterOverwrite(n: nat) returns (first: nat, second: nat)
    ensures first == n && second == n
  {
    var store := new KeyValueStore<int>();
    var i := 0;
    while i < n
      invariant 0 <= i <= n
      invariant fresh(store) && store.Valid()
      invariant store.numRecords == i
      invariant forall j :: 0 <= j < i ==> Decimal(j) in store.data
      invariant forall j :: j >= i ==> Decimal(j) !in store.data
    {
      forall j | j > i
        ensures Decimal(j) != Decimal(i)
      {
        DecimalInjective(j, i);
      }
      store.Set(Decimal(i), i);
      i := i + 1;
    }
    first := store.Count(None);
    i := 0;
    while i < n
      invariant 0 <= i <= n
      invariant fresh(store) && store.Valid()
      invariant store.numRecords == n
      invariant forall j :: 0 <= j < n ==> Decimal(j) in store.data
    {
      store.Set(Decimal(i), i * 10);
      i := i + 1;
    }
    second := store.Count(None);
  }

  /**
   * A write inside a transaction is visible at once and a Rollback restores
   * the value from before Begin. The trailing Rollback, with no transaction
   * open, drains the top-level write as well.
   */
  method RollbackRestores() returns (inside: Option<string>, restored: Option<string>, drained: Option<string>)
    ensures inside == Some("24") && restored == Some("25") && drained == None
  {
    var store := new KeyValueStore<string>();
    store.Set("Justin", "25");
    store.Begin();
    store.Set("Justin", "24");
    inside := store.Get("Justin");
    store.Rollback();
    restored := store.Get("Justin");
    store.Rollback();
    drained := store.Get("Justin");
  }

  /** A committed write survives a later Rollback. */
  method CommitIsPermanent() returns (inside: Option<string>, after: Option<string>)
    ensures inside == Some("69") && after == Some("69")
  {
    var store := new KeyValueStore<string>();
    store.Begin();
    store.Set("Joe Momma", "69");
    inside := store.Get("Joe Momma");
    store.Commit();
    store.Rollback();
    after := store.Get("Joe Momma");
  }

  /**
   * Nested transactions: each Rollback undoes one level, and Commit closes
   * every open level at once.
   */
  method NestedTransactions()
    returns (deleted: Option<string>, inner: Option<string>,
             joe: Option<string>, justin1: Option<string>,
             jenna: Option<string>, jenna2: Option<string>, justin2: Option<string>)
    ensures deleted == None && inner == Some("23")
    ensures joe == Some("69") && justin1 == None
    ensures jenna == Some("20")
    ensures jenna2 == Some("21") && justin2 == None
  {
    var store := new KeyValueStore<string>();
    store.Set("Joe Momma", "69");
    ghost var outer := store.data;
    store.Begin();
    store.Del("Joe Momma");
    deleted := store.Get("Joe Momma");
    ghost var middle := store.data;
    store.Begin();
    assert store.snapshots == [outer, middle];
    store.Set("Justin", "23");
    inner := store.Get("Justin");
    store.Rollback();
    assert store.data == middle && store.snapshots == [outer];
    store.Rollback();
    assert store.data == outer && store.snapshots == [];
    joe := store.Get("Joe Momma");
    justin1 := store.Get("Justin");
    jenna, jenna2, justin2 := CommitCollapsesNesting(store);
  }

  /**
   * The second half of the nested-transactions test, from a store holding
   * only "Joe Momma" with no transaction open: a Rollback inside three
   * nested levels undoes only the innermost, and the Commit keeps the rest.
   */
  method CommitCollapsesNesting(store: KeyValueStore<string>)
    returns (jenna: Option<string>, jenna2: Option<string>, justin2: Option<string>)
    requires store.Valid() && store.data == map["Joe Momma" := "69"] && store.snapshots == []
    modifies store
    ensures store.Valid() && store.log == [] && store.snapshots == []
    ensures jenna == Some("20")
    ensures jenna2 == Some("21") && justin2 == None
  {
    store.Begin();
    store.Set("Jenna Tools", "20");
    jenna := store.Get("Jenna Tools");
    store.Begin();
    store.Set("Jenna Tools", "21");
    ghost var innermost := store.data;
    store.Begin();
    store.Set("Justin", "24");
    store.Del("Jenna Tools");
    assert store.snapshots[|store.snapshots| - 1] == innermost;
    store.Rollback();
    assert store.data == innermost;
    store.Commit();
    jenna2 := store.Get("Jenna Tools");
    justin2 := store.Get("Justin");
  }

  /** A rolled-back transaction of inserts leaves the keys absent; later writes behave normally. */
  method IntegerValues() returns (alice1: Option<int>, bob1: Option<int>, alice2: Option<int>, bob2: Option<int>)
    ensures alice1 == None && bob1 == None
    ensures alice2 == Some(0) && bob2 == None
  {
    var store := new KeyValueStore<int>();
    store.Begin();
    store.Set("Alice", 1);
    store.Set("Bob", 1);
    store.Rollback();
    store.Commit();
    alice1 := store.Get("Alice");
    bob1 := store.Get("Bob");
    store.Set("Alice", 0);
    store.Set("Bob", 0);
    store.Del("Bob");
    alice2 := store.Get("Alice");
    bob2 := store.Get("Bob");
  }
}
