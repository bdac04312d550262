/** The scenarios of the repository's tests (test_ht.c), for any distinct keys and any
    values: what a new table answers after the calls the tests make. Then the concrete
    tables on which `ht_remove` goes wrong: one where it loses a key, one where it
    reads past the array. */
module Scenarios {
  import opened Fnv
  import opened Probing
  import opened HashTable

  /** `test_ht_set_get`: three keys set into a new table are each found with the value
      set for it. */
  method SetThenGet<V>(k1: Key, k2: Key, k3: Key, v1: V, v2: V, v3: V)
      returns (g1: Option<V>, g2: Option<V>, g3: Option<V>)
    requires k1 != k2 && k1 != k3 && k2 != k3
    ensures g1 == Some(v1) && g2 == Some(v2) && g3 == Some(v3)
  {
    var t := new Table<V>();
    UnusedRetrievable(t.entries[..]);
    var _ := t.Set(k1, Some(v1), true, true);
    assert t.length <= 1 && t.capacity == 16 && Retrievable(t.entries[..]);
    assert Probing.Get(t.entries[..], k1) == Some(v1);
    var _ := t.Set(k2, Some(v2), true, true);
    assert t.length <= 2 && t.capacity == 16 && Retrievable(t.entries[..]);
    assert Probing.Get(t.entries[..], k1) == Some(v1);
    assert Probing.Get(t.entries[..], k2) == Some(v2);
    var _ := t.Set(k3, Some(v3), true, true);
    g1 := t.Get(k1);
    g2 := t.Get(k2);
    g3 := t.Get(k3);
  }

  /** The start of `test_ht_remove`: a new table with two keys set. */
  method NewPair<V>(foo: Key, bar: Key, v1: V, v2: V) returns (t: Table<V>)
    requires foo != bar
    ensures fresh(t) && fresh(t.entries) && t.Valid() && t.length == 2
    ensures Retrievable(t.entries[..])
    ensures Probing.Get(t.entries[..], foo) == Some(v1)
    ensures Probing.Get(t.entries[..], bar) == Some(v2)
  {
    t := new Table<V>();
    UnusedRetrievable(t.entries[..]);
    IsNewIffMissing(t.entries[..], foo);
    var _ := t.Set(foo, Some(v1), true, true);
    IsNewIffMissing(t.entries[..], bar);
    var _ := t.Set(bar, Some(v2), true, true);
  }

  /** A key stored once is removed twice: the first `ht_remove` returns its value and
      shortens the table, the second returns NULL. */
  method RemoveTwice<V>(t: Table<V>, key: Key) returns (first: bool, second: bool)
    requires t.Valid() && Distinct(t.entries[..]) && Probing.Get(t.entries[..], key).Some?
    modifies t, t.entries
    ensures first && !second
    ensures t.Valid() && t.entries == old(t.entries) && Distinct(t.entries[..])
    ensures t.length == old(t.length) - 1
    ensures t.entries[..] == Delete(old(t.entries[..]), key)
  {
    var r := t.Remove(key);
    first := r.Some?;
    r := t.Remove(key);
    second := r.Some?;
    DeleteMissing(Delete(old(t.entries[..]), key), key);
  }

  /** `test_ht_remove`: two keys are set and removed one after the other, each twice,
      then the second is set and removed twice again. `removed` records, remove by
      remove, whether `ht_remove` returned a value; `lengths` the lengths the test
      checks. */
  method SetThenRemove<V>(foo: Key, bar: Key, v1: V, v2: V)
      returns (removed: seq<bool>, lengths: seq<nat>)
    requires foo != bar
    ensures removed == [true, false, true, false, true, false]
    ensures lengths == [2, 1, 0, 0]
  {
    var t := NewPair(foo, bar, v1, v2);
    var n2 := t.Length();
    RetrievableDistinct(t.entries[..]);
    DeleteFromPair(t.entries[..], foo, bar);
    var a1, b1 := RemoveTwice(t, foo);
    var n1 := t.Length();
    var a2, b2 := RemoveTwice(t, bar);
    var n0 := t.Length();
    assert a1 && !b1 && a2 && !b2 && n2 == 2 && n1 == 1 && n0 == 0;

    UnusedRetrievable(t.entries[..]);
    IsNewIffMissing(t.entries[..], bar);
    var _ := t.Set(bar, Some(v2), true, true);
    RetrievableDistinct(t.entries[..]);
    var a3, b3 := RemoveTwice(t, bar);
    var m0 := t.Length();
    removed := [a1, b1, a2, b2, a3, b3];
    lengths := [n2, n1, n0, m0];
  }

  // ---------------------------------------------------------------------------
  // The removal counterexample

  /** A table of 16 slots holding `e` at 0, `u` at 1 and `n` at 2. */
  function Scenario<V>(e: Key, u: Key, n: Key, a: V, b: V, c: V): (s: seq<Slot<V>>)
    ensures |s| == 16
  {
    [Full(e, a), Full(u, b), Full(n, c)] + seq(13, _ => Empty)
  }

  /** One-byte keys whose low four bits are 0101 ("e", "u") have home 0 in 16 slots, and
      those whose low four bits are 1110 ("n") have home 1. */
  lemma ScenarioHomes(e: Key, u: Key, n: Key)
    requires |e| == 1 && |u| == 1 && |n| == 1
    requires e[0] % 16 == 5 && u[0] % 16 == 5 && n[0] % 16 == 14
    ensures IsCapacity(16)
    ensures Home(e, 16) == 0 && Home(u, 16) == 0 && Home(n, 16) == 1
  {
    HomeOfNibble(e, 5, 0);
    HomeOfNibble(u, 5, 0);
    HomeOfNibble(n, 14, 1);
  }

  /** HomeOfByte for a byte whose low four bits are 0101, 1110 or 0000. */
  lemma HomeOfNibble(key: Key, b: nat, h: nat)
    requires |key| == 1 && key[0] % 16 == b
    requires (b == 5 && h == 0) || (b == 14 && h == 1) || (b == 0 && h == 15)
    ensures IsCapacity(16) && Home(key, 16) == h
  {
    HomeOfByte(key);
    NibbleHome(b, h);
  }

  /** The masked product HomeOfByte leaves, for the nibbles 0101, 1110 and 0000. */
  lemma NibbleHome(b: nat, h: nat)
    requires (b == 5 && h == 0) || (b == 14 && h == 1) || (b == 0 && h == 15)
    ensures (Xor(5, b) * 3) % 16 == h
  {
    XorFive();
    if b == 5 {
      assert Xor(5, b) == 0;
    } else if b == 14 {
      assert Xor(5, b) == 11;
    } else {
      assert Xor(5, b) == 5;
    }
  }

  lemma XorFive()
    ensures Xor(5, 5) == 0 && Xor(5, 14) == 11
  {
    assert Xor(1, 1) == 0;
    assert Xor(2, 2) == 0;
    assert Xor(1, 3) == 2;
    assert Xor(2, 7) == 5;
  }

  /** The keys the counterexample uses: "e" and "u" share home 0, "n" has home 1. */
  ghost predicate ScenarioKeys(e: Key, u: Key, n: Key) {
    |e| == 1 && |u| == 1 && |n| == 1 && e[0] % 16 == 5 && u[0] % 16 == 5 && n[0] % 16 == 14 && e != u
  }

  lemma ScenarioFinds<V>(e: Key, u: Key, n: Key, a: V, b: V, c: V)
    requires ScenarioKeys(e, u, n)
    ensures IsCapacity(16)
    ensures Find(Scenario(e, u, n, a, b, c), e) == Some(0)
    ensures Find(Scenario(e, u, n, a, b, c), u) == Some(1)
    ensures Find(Scenario(e, u, n, a, b, c), n) == Some(2)
  {
    var s := Scenario(e, u, n, a, b, c);
    ScenarioHomes(e, u, n);
    assert Stop(s, e, 0, 0) == 0;
    assert Stop(s, u, 0, 0) == 1;
    assert Stop(s, n, 1, 0) == 1;
  }

  lemma ScenarioDelete<V>(e: Key, u: Key, n: Key, a: V, b: V, c: V)
    requires ScenarioKeys(e, u, n)
    ensures IsCapacity(16)
    ensures Delete(Scenario(e, u, n, a, b, c), e) == [Full(u, b), Empty, Full(n, c)] + seq(13, _ => Empty)
  {
    var s := Scenario(e, u, n, a, b, c);
    ScenarioFinds(e, u, n, a, b, c);
    ScenarioHomes(e, u, n);
    var s1 := s[0 := Empty];
    assert RunEnd(s1, 0, 0) == 1;
  }

  /** Removing `e` moves `u` back to slot 0 and empties slot 1, the first slot of the
      probe for `n`: `ht_get` no longer finds `n`, although it is still stored. SetThree
      shows that setting the three keys into a new table builds this table. */
  lemma RemoveLosesKey<V>(e: Key, u: Key, n: Key, a: V, b: V, c: V)
    requires ScenarioKeys(e, u, n)
    ensures IsCapacity(16) && Retrievable(Scenario(e, u, n, a, b, c))
    ensures Get(Scenario(e, u, n, a, b, c), n) == Some(c)
    ensures Delete(Scenario(e, u, n, a, b, c), e)[2] == Full(n, c)
    ensures Get(Delete(Scenario(e, u, n, a, b, c), e), n) == None
  {
    ScenarioRetrievable(e, u, n, a, b, c);
    ScenarioDelete(e, u, n, a, b, c);
    ScenarioHomes(e, u, n);
    var t := Delete(Scenario(e, u, n, a, b, c), e);
    assert Stop(t, n, 1, 0) == 0;
  }

  /** Each of the three keys sits at the end of its own probe. */
  lemma ScenarioRetrievable<V>(e: Key, u: Key, n: Key, a: V, b: V, c: V)
    requires ScenarioKeys(e, u, n)
    ensures IsCapacity(16) && Retrievable(Scenario(e, u, n, a, b, c))
    ensures Get(Scenario(e, u, n, a, b, c), n) == Some(c)
  {
    var s := Scenario(e, u, n, a, b, c);
    ScenarioFinds(e, u, n, a, b, c);
    assert forall p :: 3 <= p < 16 ==> s[p] == Empty;
  }

  /** The repaired removal of `e` from the same table leaves `n` found. */
  lemma RepairedKeepsKey<V>(e: Key, u: Key, n: Key, a: V, b: V, c: V)
    requires ScenarioKeys(e, u, n)
    ensures IsCapacity(16) && Get(DeleteRepaired(Scenario(e, u, n, a, b, c), e), n) == Some(c)
  {
    RemoveLosesKey(e, u, n, a, b, c);
    DeleteRepairedLookups(Scenario(e, u, n, a, b, c), e);
  }

  /** `ht_set` of "e", "u" and "n" into a new table, then `ht_remove("e")`: through the
      table's own methods, the three sets build the counterexample table, and after the
      removal `ht_get("n")` returns NULL although slot 2 still holds "n". */
  method SetThreeRemoveOne<V>(e: Key, u: Key, n: Key, a: V, b: V, c: V)
      returns (removed: Option<V>, got: Option<V>, kept: Slot<V>)
    requires ScenarioKeys(e, u, n)
    ensures removed == Some(a) && got == None && kept == Full(n, c)
  {
    var t := SetThree(e, u, n, a, b, c);
    ghost var s := Scenario(e, u, n, a, b, c);
    RemoveLosesKey(e, u, n, a, b, c);
    ScenarioFinds(e, u, n, a, b, c);
    assert Probing.Get(s, e) == Some(a);
    removed := t.Remove(e);
    assert t.entries[..] == Delete(s, e);
    got := t.Get(n);
    kept := t.entries[2];
  }

  /** `ht_set` of "e", "u" and "n" into a new table gives the counterexample table. */
  method SetThree<V>(e: Key, u: Key, n: Key, a: V, b: V, c: V) returns (t: Table<V>)
    requires ScenarioKeys(e, u, n)
    ensures fresh(t) && fresh(t.entries) && t.Valid() && t.entries[..] == Scenario(e, u, n, a, b, c)
  {
    t := new Table<V>();
    FirstSet(e, u, n, a, b, c);
    var _ := t.Set(e, Some(a), true, true);
    SecondSet(e, u, n, a, b, c, t.entries[..]);
    var _ := t.Set(u, Some(b), true, true);
    ThirdSet(e, u, n, a, b, c, t.entries[..]);
    var _ := t.Set(n, Some(c), true, true);
  }

  /** The first set of SetThree: "e" goes to its home, slot 0. */
  lemma FirstSet<V>(e: Key, u: Key, n: Key, a: V, b: V, c: V)
    requires ScenarioKeys(e, u, n)
    ensures Room(Empties<V>(16)) && IsNew(Empties<V>(16), e)
    ensures Put(Empties<V>(16), e, a) == Empties<V>(16)[0 := Full(e, a)]
  {
    ScenarioHomes(e, u, n);
    assert Stop(Empties<V>(16), e, 0, 0) == 0;
  }

  /** The second set: "u" passes "e" in slot 0 and goes to slot 1. */
  lemma SecondSet<V>(e: Key, u: Key, n: Key, a: V, b: V, c: V, s: seq<Slot<V>>)
    requires ScenarioKeys(e, u, n) && s == Empties<V>(16)[0 := Full(e, a)] && Room(s)
    ensures IsNew(s, u) && Put(s, u, b) == s[1 := Full(u, b)]
  {
    ScenarioHomes(e, u, n);
    assert Stop(s, u, 0, 0) == 1;
  }

  /** The third set: "n" passes "u" in slot 1 and goes to slot 2, which gives the
      counterexample table. */
  lemma ThirdSet<V>(e: Key, u: Key, n: Key, a: V, b: V, c: V, s: seq<Slot<V>>)
    requires ScenarioKeys(e, u, n) && s == Empties<V>(16)[0 := Full(e, a)][1 := Full(u, b)] && Room(s)
    ensures IsNew(s, n) && Put(s, n, c) == Scenario(e, u, n, a, b, c)
  {
    ScenarioHomes(e, u, n);
    assert Stop(s, n, 1, 0) == 1;
  }

  /** A one-byte key whose low four bits are 0000 ("p") has home 15, the last of 16
      slots. Set into a new table it lands there, and removing it starts the compaction
      scan of `ht_remove` at slot 15, whose first read is one past the array. */
  lemma RemoveReadsPastEnd<V>(key: Key, v: V)
    requires |key| == 1 && key[0] % 16 == 0
    ensures IsCapacity(16)
    ensures Find(Put(Empties<V>(16), key, v), key) == Some(15)
    ensures RunEndAsWritten(Put(Empties<V>(16), key, v)[15 := Empty], 15, 15) == None
  {
    HomeOfNibble(key, 0, 15);
    var s := Empties<V>(16);
    assert Stop(s, key, 15, 0) == 0;
    PutFinds(s, key, v);
  }
}
