/** The linear-probing discipline of ht.c, stated on the value of the `entries` array:
    a sequence of slots, each empty or holding a key and its value. The methods of
    HashTable are proved to compute these functions; the lemmas here say what the
    functions mean for lookups. */
module Probing {
  import opened Fnv

  datatype Option<T> = None | Some(value: T)

  /** One `ht_entry`: empty when its key is NULL. */
  datatype Slot<V> = Empty | Full(key: Key, value: V)

  /** The slot `d` steps after `h`, wrapping around the end of a table of `n` slots. */
  function Pos(h: nat, d: nat, n: nat): (p: nat)
    requires h < n && d <= n
    ensures p < n
  {
    if h + d < n then h + d else h + d - n
  }

  /** How many steps after `h` the slot `q` comes. */
  function Dist(h: nat, q: nat, n: nat): (d: nat)
    requires h < n && q < n
    ensures d < n && Pos(h, d, n) == q
  {
    if h <= q then q - h else q + n - h
  }

  /** A probe for `key` steps over this slot: it is full and holds another key. */
  predicate Passes<V>(x: Slot<V>, key: Key) {
    x.Full? && x.key != key
  }

  /** How many steps from `h` a probe for `key`, started `d` steps in, takes before it
      reaches an empty slot or the key; |s| when it goes all the way round. */
  function Stop<V>(s: seq<Slot<V>>, key: Key, h: nat, d: nat): (r: nat)
    requires h < |s| && d <= |s|
    decreases |s| - d
    ensures d <= r <= |s|
    ensures forall e :: d <= e < r ==> Passes(s[Pos(h, e, |s|)], key)
    ensures r < |s| ==> !Passes(s[Pos(h, r, |s|)], key)
  {
    if d == |s| then d
    else if Passes(s[Pos(h, d, |s|)], key) then Stop(s, key, h, d + 1)
    else d
  }

  /** The slot where `ht_get` finds `key`, if it does. */
  function Find<V>(s: seq<Slot<V>>, key: Key): (r: Option<nat>)
    requires IsCapacity(|s|)
    ensures r.Some? ==> r.value < |s| && s[r.value].Full? && s[r.value].key == key
  {
    var h := Home(key, |s|);
    var d := Stop(s, key, h, 0);
    if d < |s| && s[Pos(h, d, |s|)].Full? then Some(Pos(h, d, |s|)) else None
  }

  /** What `ht_get` returns for `key`: the value in the slot the probe stops at. */
  function Get<V>(s: seq<Slot<V>>, key: Key): (r: Option<V>)
    requires IsCapacity(|s|)
    ensures r.Some? <==> Find(s, key).Some?
    ensures r.Some? ==> Full(key, r.value) in s
  {
    match Find(s, key)
    case None => None
    case Some(p) => Some(s[p].value)
  }

  /** Number of full slots among the first `i`. */
  function CountTo<V>(s: seq<Slot<V>>, i: nat): (c: nat)
    requires i <= |s|
    ensures c <= i
  {
    if i == 0 then 0 else CountTo(s, i - 1) + (if s[i - 1].Full? then 1 else 0)
  }

  function Count<V>(s: seq<Slot<V>>): nat {
    CountTo(s, |s|)
  }

  /** The slot array of a table: a power-of-two size, and at least one slot empty, so
      that every probe ends. */
  ghost predicate Room<V>(s: seq<Slot<V>>) {
    IsCapacity(|s|) && Count(s) < |s|
  }

  /** The slot where `ht_set_entry` puts `key`: where its probe stops. */
  function ProbeEnd<V>(s: seq<Slot<V>>, key: Key): (p: nat)
    requires Room(s)
    ensures p < |s| && !Passes(s[p], key)
    ensures Find(s, key).Some? ==> Find(s, key).value == p
  {
    var h := Home(key, |s|);
    StopInRange(s, key, h);
    Pos(h, Stop(s, key, h, 0), |s|)
  }

  /** Whether `ht_set_entry` adds `key` as a new entry rather than updating one. */
  predicate IsNew<V>(s: seq<Slot<V>>, key: Key): (b: bool)
    requires Room(s)
    ensures b ==> Find(s, key).None?
    ensures !b ==> s[ProbeEnd(s, key)].Full? && s[ProbeEnd(s, key)].key == key
  {
    s[ProbeEnd(s, key)].Empty?
  }

  /** The slots after `ht_set_entry(key, value)`. */
  function Put<V>(s: seq<Slot<V>>, key: Key, value: V): (t: seq<Slot<V>>)
    requires Room(s)
    ensures |t| == |s|
  {
    s[ProbeEnd(s, key) := Full(key, value)]
  }

  /** Every full slot is the one its key's probe finds. */
  ghost predicate Retrievable<V>(s: seq<Slot<V>>)
    requires IsCapacity(|s|)
  {
    forall p {:trigger Find(s, s[p].key)} :: 0 <= p < |s| && s[p].Full? ==> Find(s, s[p].key) == Some(p)
  }

  /** No key is stored twice. */
  ghost predicate Distinct<V>(s: seq<Slot<V>>) {
    forall p, q :: 0 <= p < |s| && 0 <= q < |s| && s[p].Full? && s[q].Full? && s[p].key == s[q].key ==> p == q
  }

  // ---------------------------------------------------------------------------
  // Probes

  lemma PosDist(h: nat, d: nat, n: nat)
    requires h < n && d < n
    ensures Dist(h, Pos(h, d, n), n) == d
  {
  }

  /** An empty slot among the first `i`, when fewer than `i` of them are full. */
  lemma {:induction false} EmptyBelow<V>(s: seq<Slot<V>>, i: nat) returns (e: nat)
    requires i <= |s| && CountTo(s, i) < i
    ensures e < i && s[e].Empty?
  {
    if s[i - 1].Empty? {
      e := i - 1;
    } else {
      e := EmptyBelow(s, i - 1);
    }
  }

  /** A probe ends by the time it reaches an empty slot. */
  lemma StopBeforeEmpty<V>(s: seq<Slot<V>>, key: Key, h: nat, d: nat, e: nat)
    requires h < |s| && e < |s| && s[e].Empty? && d <= Dist(h, e, |s|)
    ensures Stop(s, key, h, d) <= Dist(h, e, |s|)
  {
    assert !Passes(s[Pos(h, Dist(h, e, |s|), |s|)], key);
  }

  lemma StopInRange<V>(s: seq<Slot<V>>, key: Key, h: nat)
    requires h < |s| && Count(s) < |s|
    ensures Stop(s, key, h, 0) < |s|
  {
    var e := EmptyBelow(s, |s|);
    StopBeforeEmpty(s, key, h, 0, e);
  }

  /** A probe ends at the first slot it does not step over. */
  lemma StopIs<V>(s: seq<Slot<V>>, key: Key, h: nat, d: nat, r: nat)
    requires h < |s| && d <= r <= |s|
    requires forall e :: d <= e < r ==> Passes(s[Pos(h, e, |s|)], key)
    requires r < |s| ==> !Passes(s[Pos(h, r, |s|)], key)
    ensures Stop(s, key, h, d) == r
  {
  }

  /** One step of a probe that has not yet passed its end: it goes on over a slot it
      steps over, and otherwise it has reached its end. */
  lemma ProbeStep<V>(s: seq<Slot<V>>, key: Key, h: nat, d: nat)
    requires h < |s| && d <= Stop(s, key, h, 0) < |s|
    ensures Passes(s[Pos(h, d, |s|)], key) ==> d < Stop(s, key, h, 0)
    ensures !Passes(s[Pos(h, d, |s|)], key) ==> d == Stop(s, key, h, 0)
  {
  }

  /** Two slots a probe treats alike: both empty, or both full with the same key. */
  predicate SameKey<V>(x: Slot<V>, y: Slot<V>) {
    x.Empty? == y.Empty? && (x.Full? ==> x.key == y.key)
  }

  /** Changing a slot the probe does not reach, or changing only a value, leaves the
      probe where it was. */
  lemma StopUpdate<V>(s: seq<Slot<V>>, key: Key, h: nat, q: nat, x: Slot<V>)
    requires h < |s| && q < |s|
    requires SameKey(s[q], x) || Dist(h, q, |s|) > Stop(s, key, h, 0)
    ensures Stop(s[q := x], key, h, 0) == Stop(s, key, h, 0)
  {
    var t := s[q := x];
    var r := Stop(s, key, h, 0);
    forall e | 0 <= e < r
      ensures Passes(t[Pos(h, e, |s|)], key)
    {
      assert Passes(s[Pos(h, e, |s|)], key);
      if Pos(h, e, |s|) == q {
        PosDist(h, e, |s|);
      }
    }
    if r < |s| && Pos(h, r, |s|) == q {
      PosDist(h, r, |s|);
    }
    StopIs(t, key, h, 0, r);
  }

  // ---------------------------------------------------------------------------
  // Counting

  function Ind<V>(x: Slot<V>): nat {
    if x.Full? then 1 else 0
  }

  lemma {:induction false} CountToUpdate<V>(s: seq<Slot<V>>, i: nat, q: nat, x: Slot<V>)
    requires i <= |s| && q < |s|
    ensures CountTo(s[q := x], i) + (if q < i then Ind(s[q]) else 0)
         == CountTo(s, i) + (if q < i then Ind(x) else 0)
  {
    if i > 0 {
      CountToUpdate(s, i - 1, q, x);
    }
  }

  lemma {:induction false} CountToMono<V>(s: seq<Slot<V>>, i: nat, j: nat)
    requires i <= j <= |s|
    decreases j - i
    ensures CountTo(s, i) <= CountTo(s, j)
  {
    if i < j {
      CountToMono(s, i, j - 1);
    }
  }

  lemma CountUpdate<V>(s: seq<Slot<V>>, q: nat, x: Slot<V>)
    requires q < |s|
    ensures Count(s[q := x]) + Ind(s[q]) == Count(s) + Ind(x)
  {
    CountToUpdate(s, |s|, q, x);
  }

  // ---------------------------------------------------------------------------
  // Set

  /** `ht_set_entry` followed by `ht_get` of the same key returns the value set. */
  lemma PutFinds<V>(s: seq<Slot<V>>, key: Key, value: V)
    requires Room(s)
    ensures Find(Put(s, key, value), key) == Some(ProbeEnd(s, key))
    ensures Get(Put(s, key, value), key) == Some(value)
  {
    var n := |s|;
    var h := Home(key, n);
    StopInRange(s, key, h);
    var d := Stop(s, key, h, 0);
    var q := ProbeEnd(s, key);
    var t := Put(s, key, value);
    forall e | 0 <= e < d
      ensures Passes(t[Pos(h, e, n)], key)
    {
      PosDist(h, e, n);
      PosDist(h, d, n);
      assert Pos(h, e, n) != q;
    }
    StopIs(t, key, h, 0, d);
  }

  /** `ht_set_entry` adds a key exactly when `ht_get` does not find it. */
  lemma IsNewIffMissing<V>(s: seq<Slot<V>>, key: Key)
    requires Room(s)
    ensures IsNew(s, key) <==> Find(s, key) == None
  {
    var h := Home(key, |s|);
    StopInRange(s, key, h);
  }

  /** The number of full slots grows by one exactly when the key is new. */
  lemma PutCount<V>(s: seq<Slot<V>>, key: Key, value: V)
    requires Room(s)
    ensures Count(Put(s, key, value)) == Count(s) + (if IsNew(s, key) then 1 else 0)
  {
    CountUpdate(s, ProbeEnd(s, key), Full(key, value));
  }

  /** In a table whose keys are all retrievable, `ht_set_entry` leaves the lookup of
      every other key as it was. */
  lemma PutKeepsOthers<V>(s: seq<Slot<V>>, key: Key, value: V, other: Key)
    requires Room(s) && Retrievable(s) && other != key
    ensures Find(Put(s, key, value), other) == Find(s, other)
    ensures Get(Put(s, key, value), other) == Get(s, other)
  {
    var n := |s|;
    var q := ProbeEnd(s, key);
    var x := Full(key, value);
    var t := Put(s, key, value);
    var h := Home(other, n);
    var r := Stop(s, other, h, 0);
    if SameKey(s[q], x) || Dist(h, q, n) > r {
      StopUpdate(s, other, h, q, x);
    } else {
      PutIntoGap(s, key, value, other);
    }
  }

  /** When the probe for `other` reaches the empty slot that `key` is put into,
      `other` is stored nowhere, before or after. */
  lemma PutIntoGap<V>(s: seq<Slot<V>>, key: Key, value: V, other: Key)
    requires Room(s) && Retrievable(s) && other != key
    requires s[ProbeEnd(s, key)].Empty?
    requires Dist(Home(other, |s|), ProbeEnd(s, key), |s|) <= Stop(s, other, Home(other, |s|), 0)
    ensures Find(s, other) == None && Find(Put(s, key, value), other) == None
  {
    GapNotFound(s, other, ProbeEnd(s, key));
    NotStored(s, other);
    NotStoredAfterPut(s, key, value, other);
  }

  /** A probe that reaches an empty slot finds nothing. */
  lemma GapNotFound<V>(s: seq<Slot<V>>, key: Key, q: nat)
    requires IsCapacity(|s|) && q < |s| && s[q].Empty?
    requires Dist(Home(key, |s|), q, |s|) <= Stop(s, key, Home(key, |s|), 0)
    ensures Find(s, key) == None
  {
    StopBeforeEmpty(s, key, Home(key, |s|), 0, q);
  }

  lemma NotStoredAfterPut<V>(s: seq<Slot<V>>, key: Key, value: V, other: Key)
    requires Room(s) && other != key
    requires forall p :: 0 <= p < |s| && s[p].Full? ==> s[p].key != other
    ensures Find(Put(s, key, value), other) == None
  {
    var t := Put(s, key, value);
    assert forall p :: 0 <= p < |t| && t[p].Full? ==> t[p].key != other by {
      forall p | 0 <= p < |t| && t[p].Full? && p != ProbeEnd(s, key)
        ensures t[p].key != other
      {
        assert s[p] == t[p];
      }
    }
  }

  /** In a table whose keys are all retrievable, a key `ht_get` does not find is in
      no slot. */
  lemma NotStored<V>(s: seq<Slot<V>>, key: Key)
    requires IsCapacity(|s|) && Retrievable(s) && Find(s, key) == None
    ensures forall p :: 0 <= p < |s| && s[p].Full? ==> s[p].key != key
  {
  }

  /** `ht_set_entry` keeps every stored key retrievable. */
  lemma PutRetrievable<V>(s: seq<Slot<V>>, key: Key, value: V)
    requires Room(s) && Retrievable(s)
    ensures Retrievable(Put(s, key, value))
  {
    var q := ProbeEnd(s, key);
    var t := Put(s, key, value);
    forall p | 0 <= p < |t| && t[p].Full?
      ensures Find(t, t[p].key) == Some(p)
    {
      if p == q {
        PutFinds(s, key, value);
      } else {
        assert s[p] == t[p];
        assert Find(s, s[p].key) == Some(p);
        PutKeepsOthers(s, key, value, t[p].key);
      }
    }
  }

  // ---------------------------------------------------------------------------
  // Growth

  /** A freshly allocated (zeroed) array of `n` slots. */
  function Empties<V>(n: nat): (t: seq<Slot<V>>)
    ensures |t| == n && Count(t) == 0
  {
    var t := seq(n, _ => Empty);
    CountToEmpty(t, n);
    t
  }

  lemma {:induction false} CountToEmpty<V>(s: seq<Slot<V>>, i: nat)
    requires i <= |s| && forall j :: 0 <= j < i ==> s[j].Empty?
    ensures CountTo(s, i) == 0
  {
    if i > 0 {
      CountToEmpty(s, i - 1);
    }
  }

  /** `t` after `ht_set_entry` has put into it, in slot order, every full slot among
      the first `i` of `s`. */
  function Reinsert<V>(s: seq<Slot<V>>, i: nat, t: seq<Slot<V>>): (r: seq<Slot<V>>)
    requires i <= |s| && IsCapacity(|t|) && Count(t) + CountTo(s, i) < |t|
    decreases i
    ensures |r| == |t| && Count(r) <= Count(t) + CountTo(s, i)
  {
    if i == 0 then t
    else
      var r := Reinsert(s, i - 1, t);
      match s[i - 1]
      case Empty => r
      case Full(k, v) => PutCount(r, k, v); Put(r, k, v)
  }

  /** Reinserting one slot more: the slot is put into the table built so far, which has
      room for it. */
  lemma ReinsertNext<V>(s: seq<Slot<V>>, i: nat, t: seq<Slot<V>>)
    requires i < |s| && IsCapacity(|t|) && Count(t) + CountTo(s, i + 1) < |t|
    ensures Count(t) + CountTo(s, i) < |t|
    ensures s[i].Full? ==>
      Room(Reinsert(s, i, t)) && Reinsert(s, i + 1, t) == Put(Reinsert(s, i, t), s[i].key, s[i].value)
    ensures s[i].Empty? ==> Reinsert(s, i + 1, t) == Reinsert(s, i, t)
  {
  }

  /** A table with no full slot: every slot is empty, so every key is trivially
      retrievable. */
  lemma UnusedRetrievable<V>(s: seq<Slot<V>>)
    requires IsCapacity(|s|) && Count(s) == 0
    ensures forall p :: 0 <= p < |s| ==> s[p].Empty?
    ensures Retrievable(s)
  {
    forall p | 0 <= p < |s|
      ensures s[p].Empty?
    {
      CountUpdate(s, p, Empty);
    }
  }

  /** The slots `ht_expand` builds from `s`: a zeroed array twice the size, with every
      full slot of `s` put into it. */
  function Rehash<V>(s: seq<Slot<V>>): (r: seq<Slot<V>>)
    requires IsCapacity(|s|) && 2 * |s| <= MaxCapacity
    ensures |r| == 2 * |s| && IsCapacity(|r|) && Count(r) <= Count(s)
  {
    CapacityDoubles(|s|);
    Reinsert(s, |s|, Empties(2 * |s|))
  }

  lemma {:induction false} ReinsertRetrievable<V>(s: seq<Slot<V>>, i: nat, t: seq<Slot<V>>)
    requires i <= |s| && IsCapacity(|t|) && Count(t) + CountTo(s, i) < |t|
    requires Retrievable(t)
    ensures Retrievable(Reinsert(s, i, t))
  {
    if i > 0 {
      assert CountTo(s, i - 1) <= CountTo(s, i);
      ReinsertRetrievable(s, i - 1, t);
      ReinsertStepRetrievable(s, i - 1, t);
    }
  }

  /** One step of ReinsertRetrievable: setting slot `i` keeps the table retrievable. */
  lemma ReinsertStepRetrievable<V>(s: seq<Slot<V>>, i: nat, t: seq<Slot<V>>)
    requires i < |s| && IsCapacity(|t|) && Count(t) + CountTo(s, i + 1) < |t|
    requires Count(t) + CountTo(s, i) < |t| && Retrievable(Reinsert(s, i, t))
    ensures Retrievable(Reinsert(s, i + 1, t))
  {
    ReinsertNext(s, i, t);
    var r := Reinsert(s, i, t);
    match s[i]
    case Empty =>
      assert Reinsert(s, i + 1, t) == r;
    case Full(k, v) =>
      PutRetrievable(r, k, v);
      assert Reinsert(s, i + 1, t) == Put(r, k, v);
  }

  /** Every full slot that reinsertion produces comes from `s` or was already in `t`. */
  lemma {:induction false} ReinsertFrom<V>(s: seq<Slot<V>>, i: nat, t: seq<Slot<V>>)
    requires i <= |s| && IsCapacity(|t|) && Count(t) + CountTo(s, i) < |t|
    ensures var r := Reinsert(s, i, t);
      forall q :: 0 <= q < |r| && r[q].Full? ==> r[q] == t[q] || exists j :: 0 <= j < i && s[j] == r[q]
  {
    if i > 0 {
      ReinsertFrom(s, i - 1, t);
    }
  }

  /** The last occurrence of a key in `s` (by slot order) is the one reinsertion keeps. */
  ghost predicate LastOf<V>(s: seq<Slot<V>>, p: nat, i: nat)
    requires p < i <= |s|
  {
    s[p].Full? && forall q :: p < q < i && s[q].Full? ==> s[q].key != s[p].key
  }

  lemma {:induction false} ReinsertFinds<V>(s: seq<Slot<V>>, i: nat, t: seq<Slot<V>>, p: nat)
    requires i <= |s| && IsCapacity(|t|) && Count(t) + CountTo(s, i) < |t|
    requires Retrievable(t) && p < i && LastOf(s, p, i)
    ensures Get(Reinsert(s, i, t), s[p].key) == Some(s[p].value)
  {
    ReinsertNext(s, i - 1, t);
    var r := Reinsert(s, i - 1, t);
    if p == i - 1 {
      PutFinds(r, s[p].key, s[p].value);
      assert Reinsert(s, i, t) == Put(r, s[p].key, s[p].value);
    } else {
      ReinsertFinds(s, i - 1, t, p);
      match s[i - 1]
      case Empty =>
        assert Reinsert(s, i, t) == r;
      case Full(key, v) =>
        ReinsertRetrievable(s, i - 1, t);
        PutKeepsOthers(r, key, v, s[p].key);
        assert Reinsert(s, i, t) == Put(r, key, v);
    }
  }

  /** What `ht_expand` promises: in the doubled array every key is retrievable, every
      entry came from the old array, and the last entry of each key in the old array
      is found by `ht_get`. */
  lemma Rehashed<V>(s: seq<Slot<V>>)
    requires IsCapacity(|s|) && 2 * |s| <= MaxCapacity
    ensures Retrievable(Rehash(s))
    ensures forall q :: 0 <= q < 2 * |s| && Rehash(s)[q].Full? ==> Rehash(s)[q] in s
    ensures forall p :: 0 <= p < |s| && LastOf(s, p, |s|) ==> Get(Rehash(s), s[p].key) == Some(s[p].value)
  {
    CapacityDoubles(|s|);
    var t: seq<Slot<V>> := Empties(2 * |s|);
    ReinsertRetrievable(s, |s|, t);
    ReinsertFrom(s, |s|, t);
    forall p | 0 <= p < |s| && LastOf(s, p, |s|)
      ensures Get(Rehash(s), s[p].key) == Some(s[p].value)
    {
      ReinsertFinds(s, |s|, t, p);
    }
  }

  /** With no key stored twice, `ht_expand` keeps exactly the entries it had. */
  lemma RehashKeepsEntries<V>(s: seq<Slot<V>>)
    requires IsCapacity(|s|) && 2 * |s| <= MaxCapacity && Distinct(s)
    ensures forall x: Slot<V> :: x.Full? ==> (x in Rehash(s) <==> x in s)
    ensures forall x: Slot<V> :: x in s && x.Full? ==> Get(Rehash(s), x.key) == Some(x.value)
  {
    Rehashed(s);
    var r := Rehash(s);
    forall x | x in s && x.Full?
      ensures x in r && Get(r, x.key) == Some(x.value)
    {
      var p :| 0 <= p < |s| && s[p] == x;
      assert LastOf(s, p, |s|);
      var q := Find(r, x.key).value;
      assert r[q] == x;
    }
  }

  /** Every key retrievable means no key stored twice. */
  lemma RetrievableDistinct<V>(s: seq<Slot<V>>)
    requires IsCapacity(|s|) && Retrievable(s)
    ensures Distinct(s)
  {
    forall p, q | 0 <= p < |s| && 0 <= q < |s| && s[p].Full? && s[q].Full? && s[p].key == s[q].key
      ensures p == q
    {
      assert Find(s, s[p].key) == Some(p);
      assert Find(s, s[q].key) == Some(q);
    }
  }

  /** In a table whose keys are all retrievable, `ht_expand` changes no lookup. */
  lemma RehashSameLookups<V>(s: seq<Slot<V>>, key: Key)
    requires IsCapacity(|s|) && 2 * |s| <= MaxCapacity && Retrievable(s)
    ensures Get(Rehash(s), key) == Get(s, key)
  {
    RetrievableDistinct(s);
    RehashKeepsEntries(s);
    var r := Rehash(s);
    match Find(s, key)
    case Some(p) =>
      assert s[p] in s;
    case None =>
      NotStored(s, key);
  }

  /** `ht_expand` keeps a table whose keys are all retrievable so, with every lookup
      as it was. */
  lemma RehashLookups<V>(s: seq<Slot<V>>)
    requires IsCapacity(|s|) && 2 * |s| <= MaxCapacity && Retrievable(s)
    ensures Retrievable(Rehash(s))
    ensures forall k :: Get(Rehash(s), k) == Get(s, k)
  {
    Rehashed(s);
    forall k {
      RehashSameLookups(s, k);
    }
  }

  /** `ht_set_entry` keeps a table whose keys are all retrievable so, with every
      lookup of another key as it was. */
  lemma PutLookups<V>(s: seq<Slot<V>>, key: Key, value: V)
    requires Room(s) && Retrievable(s)
    ensures Retrievable(Put(s, key, value))
    ensures forall k :: k != key ==> Get(Put(s, key, value), k) == Get(s, k)
  {
    PutRetrievable(s, key, value);
    forall k | k != key {
      PutKeepsOthers(s, key, value, k);
    }
  }

  // ---------------------------------------------------------------------------
  // Removal

  /** Slot `i` belongs to the run that `ht_remove` compacts into the vacated slot
      `p`: it is full and its key's home is `p`. */
  predicate InRun<V>(s: seq<Slot<V>>, p: nat, i: nat)
    requires IsCapacity(|s|) && i < |s|
  {
    s[i].Full? && Home(s[i].key, |s|) == p
  }

  /** How many steps past the vacated slot `p` the run of slots whose home is `p`
      goes, from `d` steps on. */
  function RunEnd<V>(s: seq<Slot<V>>, p: nat, d: nat): (r: nat)
    requires IsCapacity(|s|) && p < |s| && d < |s| && s[p].Empty?
    decreases |s| - d
    ensures d <= r < |s|
    ensures forall e :: d < e <= r ==> InRun(s, p, Pos(p, e, |s|))
    ensures !InRun(s, p, Pos(p, r + 1, |s|))
  {
    if d + 1 == |s| then d
    else if InRun(s, p, Pos(p, d + 1, |s|)) then RunEnd(s, p, d + 1)
    else d
  }

  /** The compaction scan of `ht_remove` as the source writes it: from slot `j` it reads
      slot `j + 1` with no wrap-around, so from the last slot it reads one past the end
      of the array. That read is None here; otherwise the result is the last slot of
      the run. */
  function RunEndAsWritten<V>(s: seq<Slot<V>>, p: nat, j: nat): (r: Option<nat>)
    requires IsCapacity(|s|) && p < |s| && j < |s|
    decreases |s| - j
    ensures r.Some? ==> j <= r.value < |s| - 1
  {
    if j + 1 == |s| then None
    else if InRun(s, p, j + 1) then RunEndAsWritten(s, p, j + 1)
    else Some(j)
  }

  /** The scan as written agrees with the wrapped scan RunEnd while the run stays
      before the last slot, and reads past the array exactly when the run reaches it. */
  lemma {:induction false} RunEndAsWrittenAgrees<V>(s: seq<Slot<V>>, p: nat, d: nat)
    requires IsCapacity(|s|) && p < |s| && p + d < |s| && s[p].Empty?
    decreases |s| - d
    ensures RunEndAsWritten(s, p, p + d) ==
      if p + RunEnd(s, p, d) < |s| - 1 then Some(p + RunEnd(s, p, d)) else None
  {
    if d + 1 < |s| && p + d + 1 < |s| {
      assert Pos(p, d + 1, |s|) == p + d + 1;
      if InRun(s, p, p + d + 1) {
        RunEndAsWrittenAgrees(s, p, d + 1);
      }
    }
  }

  /** The slots after `ht_remove(key)`: the key's slot is emptied, then the last slot
      of the run that follows it and whose keys have their home there is moved back
      into it. */
  function Delete<V>(s: seq<Slot<V>>, key: Key): (t: seq<Slot<V>>)
    requires IsCapacity(|s|)
    ensures |t| == |s|
  {
    match Find(s, key)
    case None => s
    case Some(p) =>
      var s1 := s[p := Empty];
      var r := RunEnd(s1, p, 0);
      if r == 0 then s1
      else
        var j := Pos(p, r, |s|);
        s1[p := s1[j]][j := Empty]
  }

  /** The full slots of `s`, as a multiset of entries. */
  ghost function Entries<V>(s: seq<Slot<V>>): multiset<Slot<V>> {
    multiset(s)[Empty := 0]
  }

  /** Removing a key that `ht_get` finds empties exactly one slot, net, and drops
      exactly its entry: a moved entry keeps its key and its value. */
  lemma DeleteFound<V>(s: seq<Slot<V>>, key: Key)
    requires IsCapacity(|s|) && Find(s, key).Some?
    ensures Count(Delete(s, key)) == Count(s) - 1
    ensures Entries(Delete(s, key)) == Entries(s) - multiset{s[Find(s, key).value]}
  {
    var p := Find(s, key).value;
    var s1 := s[p := Empty];
    CountUpdate(s, p, Empty);
    var r := RunEnd(s1, p, 0);
    if r != 0 {
      var j := Pos(p, r, |s|);
      var s2 := s1[p := s1[j]];
      CountUpdate(s1, p, s1[j]);
      CountUpdate(s2, j, Empty);
    }
  }

  /** Removing a key that `ht_get` does not find changes nothing. */
  lemma DeleteMissing<V>(s: seq<Slot<V>>, key: Key)
    requires IsCapacity(|s|) && Find(s, key).None?
    ensures Delete(s, key) == s
  {
  }

  /** When no key is stored twice, a removed key is gone: removing it again finds
      nothing. */
  lemma DeleteTwice<V>(s: seq<Slot<V>>, key: Key)
    requires IsCapacity(|s|) && Distinct(s)
    ensures Find(Delete(s, key), key) == None
    ensures Delete(Delete(s, key), key) == Delete(s, key)
  {
    var t := Delete(s, key);
    if Find(s, key).Some? {
      var p := Find(s, key).value;
      forall q | 0 <= q < |t| && t[q].Full?
        ensures t[q].key != key
      {
        assert t[q] in multiset(s) && t[q] != s[p] by {
          DeleteSlots(s, key, q);
        }
      }
    }
  }

  /** A removal stores no key twice that was not stored twice before. */
  lemma DeleteDistinct<V>(s: seq<Slot<V>>, key: Key)
    requires IsCapacity(|s|) && Distinct(s)
    ensures Distinct(Delete(s, key))
  {
    var t := Delete(s, key);
    if Find(s, key).Some? {
      var p := Find(s, key).value;
      var s1 := s[p := Empty];
      var r := RunEnd(s1, p, 0);
      if r != 0 {
        var j := Pos(p, r, |s|);
        assert t == s1[p := s1[j]][j := Empty];
        forall a, b | 0 <= a < |t| && 0 <= b < |t| && t[a].Full? && t[b].Full? && t[a].key == t[b].key
          ensures a == b
        {
          var fa := if a == p then j else a;
          var fb := if b == p then j else b;
          assert t[a] == s[fa] && t[b] == s[fb];
        }
      }
    }
  }

  /** A removal does not make a missing key appear. */
  lemma DeleteAddsNothing<V>(s: seq<Slot<V>>, key: Key, k: Key)
    requires IsCapacity(|s|) && Retrievable(s)
    ensures Find(Delete(s, key), k).Some? ==> Find(s, k).Some?
  {
    var t := Delete(s, key);
    if Find(t, k).Some? && Find(s, key).Some? {
      RetrievableDistinct(s);
      var q := Find(t, k).value;
      DeleteSlots(s, key, q);
      var i :| 0 <= i < |s| && i != Find(s, key).value && s[i] == t[q];
      assert Find(s, k) == Some(i);
    }
  }

  /** In a table with at most two full slots, every slot but those two is empty. */
  lemma OnlyTwo<V>(s: seq<Slot<V>>, p: nat, q: nat, c: nat)
    requires Count(s) <= 2 && p < |s| && q < |s| && c < |s|
    requires p != q && s[p].Full? && s[q].Full?
    ensures c != p && c != q ==> s[c].Empty?
  {
    var s1 := s[p := Empty];
    CountUpdate(s, p, Empty);
    var s2 := s1[q := Empty];
    CountUpdate(s1, q, Empty);
    CountUpdate(s2, c, Empty);
  }

  /** A key in its own home slot is found there. */
  lemma FoundAtHome<V>(t: seq<Slot<V>>, k: Key)
    requires IsCapacity(|t|)
    requires t[Home(k, |t|)].Full? && t[Home(k, |t|)].key == k
    ensures Find(t, k) == Some(Home(k, |t|))
  {
    assert Stop(t, k, Home(k, |t|), 0) == 0;
  }

  /** The removal in `ht_remove` is sound for a table holding two keys: removing one
      leaves the other's lookup as it was. */
  lemma DeleteFromPair<V>(s: seq<Slot<V>>, key: Key, k: Key)
    requires IsCapacity(|s|) && Retrievable(s) && Count(s) <= 2 && k != key
    ensures Get(Delete(s, key), k) == Get(s, k)
  {
    DeleteAddsNothing(s, key, k);
    if Find(s, key).Some? && Find(s, k).Some? {
      var p, q := Find(s, key).value, Find(s, k).value;
      var h := Home(k, |s|);
      var n := |s|;
      var s1 := s[p := Empty];
      var d := Stop(s, k, h, 0);
      assert Pos(h, d, n) == q;
      if q == h {
        DeleteKeepsHome(s, key, p, q, k);
      } else {
        assert Passes(s[Pos(h, 0, n)], k);
        OnlyTwo(s, p, q, h);
        assert h == p;
        OnlyTwo(s, p, q, Pos(h, 1, n));
        assert d == 1;
        DeleteToHome(s, key, p, q, k);
      }
    }
  }

  /** DeleteFromPair when the other key sits in its home slot: nothing moves into the
      emptied slot, and the key stays where it is. */
  lemma DeleteKeepsHome<V>(s: seq<Slot<V>>, key: Key, p: nat, q: nat, k: Key)
    requires IsCapacity(|s|) && Count(s) <= 2 && Find(s, key) == Some(p)
    requires q < |s| && p != q && s[q].Full? && s[q].key == k && Home(k, |s|) == q
    ensures Get(Delete(s, key), k) == Some(s[q].value)
  {
    var n := |s|;
    var s1 := s[p := Empty];
    var c := Pos(p, 1, n);
    OnlyTwo(s, p, q, c);
    assert !InRun(s1, p, c);
    assert RunEnd(s1, p, 0) == 0;
    assert Delete(s, key) == s1;
    FoundAtHome(s1, k);
  }

  /** DeleteFromPair when the other key sits one slot past its home, where the removed
      key was: it is moved back into its home slot. */
  lemma DeleteToHome<V>(s: seq<Slot<V>>, key: Key, p: nat, q: nat, k: Key)
    requires IsCapacity(|s|) && Count(s) <= 2 && Find(s, key) == Some(p)
    requires q < |s| && p != q && q == Pos(p, 1, |s|)
    requires s[q].Full? && s[q].key == k && Home(k, |s|) == p
    ensures Get(Delete(s, key), k) == Some(s[q].value)
  {
    var n := |s|;
    var s1 := s[p := Empty];
    assert InRun(s1, p, q);
    var c := Pos(p, 2, n);
    OnlyTwo(s, p, q, c);
    assert RunEnd(s1, p, 1) == 1;
    assert RunEnd(s1, p, 0) == 1;
    var t := s1[p := s1[q]][q := Empty];
    assert Delete(s, key) == t;
    FoundAtHome(t, k);
  }

  lemma DeleteSlots<V>(s: seq<Slot<V>>, key: Key, q: nat)
    requires IsCapacity(|s|) && Find(s, key).Some? && Distinct(s)
    requires q < |s| && Delete(s, key)[q].Full?
    ensures exists i :: 0 <= i < |s| && i != Find(s, key).value && s[i] == Delete(s, key)[q]
  {
  }

  // ---------------------------------------------------------------------------
  // Removal, repaired

  /** How many steps past the empty slot `p` the full slots that follow it go, from
      `d` steps on: where the cluster after `p` ends. */
  function ClusterEnd<V>(s: seq<Slot<V>>, p: nat, d: nat): (r: nat)
    requires p < |s| && d < |s| && s[p].Empty?
    decreases |s| - d
    ensures d <= r < |s|
    ensures forall e :: d < e <= r ==> s[Pos(p, e, |s|)].Full?
    ensures s[Pos(p, r + 1, |s|)].Empty?
  {
    if d + 1 == |s| then d
    else if s[Pos(p, d + 1, |s|)].Full? then ClusterEnd(s, p, d + 1)
    else d
  }

  /** `s` with the `k` slots after `p` emptied. */
  function ClearAfter<V>(s: seq<Slot<V>>, p: nat, k: nat): (t: seq<Slot<V>>)
    requires p < |s| && k < |s|
    ensures |t| == |s|
    ensures forall x :: 0 <= x < |s| ==> t[x] == if 1 <= Dist(p, x, |s|) <= k then Empty else s[x]
  {
    if k == 0 then s
    else
      PosDist(p, k, |s|);
      ClearAfter(s, p, k - 1)[Pos(p, k, |s|) := Empty]
  }

  /** The `k` slots after `p`, in probe order. */
  function RunAfter<V>(s: seq<Slot<V>>, p: nat, k: nat): (r: seq<Slot<V>>)
    requires p < |s| && k < |s|
    ensures |r| == k && forall i :: 0 <= i < k ==> r[i] == s[Pos(p, i + 1, |s|)]
  {
    seq(k, i requires 0 <= i < k => s[Pos(p, i + 1, |s|)])
  }

  /** One slot more of the cluster after the empty slot `p` taken out, the slot `k + 1`
      steps past `p`: it still holds what it held, it is emptied, and its entry is
      appended to those taken out. */
  lemma TakeStep<V>(s: seq<Slot<V>>, p: nat, k: nat, j: nat)
    requires p < |s| && k + 1 < |s| && s[p].Empty? && j == Pos(p, k + 1, |s|)
    ensures ClearAfter(s, p, k)[j] == s[j]
    ensures ClearAfter(s, p, k + 1) == ClearAfter(s, p, k)[j := Empty]
    ensures RunAfter(s, p, k + 1) == RunAfter(s, p, k) + [s[j]]
  {
    PosDist(p, k + 1, |s|);
  }

  /** The cluster after `p` goes on past a full slot. */
  lemma ClusterGoesOn<V>(s: seq<Slot<V>>, p: nat, k: nat)
    requires p < |s| && k + 1 < |s| && s[p].Empty? && s[Pos(p, k + 1, |s|)].Full?
    ensures ClusterEnd(s, p, k) == ClusterEnd(s, p, k + 1)
  {
  }

  /** Where the cluster after `p` ends, when the slot after `k` steps in does not
      continue it. */
  lemma ClusterStops<V>(s: seq<Slot<V>>, p: nat, k: nat)
    requires p < |s| && k < |s| && s[p].Empty?
    requires !(k + 1 < |s| && s[Pos(p, k + 1, |s|)].Full?)
    ensures ClusterEnd(s, p, k) == k
  {
  }

  lemma {:induction false} ClearCount<V>(s: seq<Slot<V>>, p: nat, k: nat)
    requires p < |s| && k < |s| && forall e :: 1 <= e <= k ==> s[Pos(p, e, |s|)].Full?
    ensures Count(ClearAfter(s, p, k)) + k == Count(s)
  {
    if k > 0 {
      ClearCount(s, p, k - 1);
      var t := ClearAfter(s, p, k - 1);
      var x := Pos(p, k, |s|);
      PosDist(p, k, |s|);
      CountUpdate(t, x, Empty);
    }
  }

  lemma {:induction false} CountToFull<V>(s: seq<Slot<V>>, i: nat)
    requires i <= |s| && forall j :: 0 <= j < i ==> s[j].Full?
    ensures CountTo(s, i) == i
  {
    if i > 0 {
      CountToFull(s, i - 1);
    }
  }

  /** Two probes that meet stay together. */
  lemma PosShift(h: nat, e: nat, p: nat, f: nat, t: nat, n: nat)
    requires h < n && p < n && e + t <= n && f + t <= n
    ensures Pos(h, e, n) == Pos(p, f, n) ==> Pos(h, e + t, n) == Pos(p, f + t, n)
  {
  }

  /** A probe that reaches slot `q` through full slots, where `q` is full and lies
      beyond the cluster that follows the emptied slot `p`, never steps into that
      cluster: the cluster ends in an empty slot the probe would have to cross. */
  lemma ProbeAvoidsRun<V>(s: seq<Slot<V>>, p: nat, k: nat, h: nat, dq: nat, e: nat)
    requires p < |s| && h < |s| && k < |s| && dq < |s| && e < dq
    requires s[p].Full? && forall f :: 1 <= f <= k ==> s[Pos(p, f, |s|)].Full?
    requires Pos(p, k + 1, |s|) == p || s[Pos(p, k + 1, |s|)].Empty?
    requires forall d :: 0 <= d <= dq ==> s[Pos(h, d, |s|)].Full?
    requires Pos(h, dq, |s|) != p && Dist(p, Pos(h, dq, |s|), |s|) > k
    ensures Dist(p, Pos(h, e, |s|), |s|) > k
  {
    var n := |s|;
    var f := Dist(p, Pos(h, e, n), n);
    // If the probe entered the cluster at step `e`, it would leave it `k + 1 - f`
    // steps later, unless it stopped at `dq` first.
    var out := if f <= k && e + (k + 1 - f) <= dq then k + 1 - f else 0;
    var inside := if f <= k && e + (k + 1 - f) > dq then dq - e else 0;
    PosShift(h, e, p, f, out, n);
    PosShift(h, e, p, f, inside, n);
    PosDist(p, f + inside, n);
  }

  /** The cluster after the emptied slot `p`, stated on the slots before `p` was
      emptied. */
  lemma ClusterFacts<V>(s: seq<Slot<V>>, p: nat)
    requires p < |s| && s[p].Full?
    ensures var k := ClusterEnd(s[p := Empty], p, 0);
      (forall f :: 1 <= f <= k ==> s[Pos(p, f, |s|)].Full?)
      && (Pos(p, k + 1, |s|) == p || s[Pos(p, k + 1, |s|)].Empty?)
  {
    var s1 := s[p := Empty];
    var k := ClusterEnd(s1, p, 0);
    forall f | 1 <= f <= k
      ensures s[Pos(p, f, |s|)].Full?
    {
      PosDist(p, f, |s|);
      assert s1[Pos(p, f, |s|)].Full?;
    }
  }

  /** The probe that finds a key passes only full slots on its way. */
  lemma ProbePath<V>(s: seq<Slot<V>>, q: nat)
    requires IsCapacity(|s|) && q < |s| && s[q].Full? && Find(s, s[q].key) == Some(q)
    ensures var h := Home(s[q].key, |s|);
      var dq := Stop(s, s[q].key, h, 0);
      dq < |s| && Pos(h, dq, |s|) == q && (forall d :: 0 <= d <= dq ==> s[Pos(h, d, |s|)].Full?)
      && forall d :: 0 <= d < dq ==> s[Pos(h, d, |s|)].key != s[q].key
  {
    var key := s[q].key;
    var h := Home(key, |s|);
    var dq := Stop(s, key, h, 0);
    forall d | 0 <= d <= dq
      ensures s[Pos(h, d, |s|)].Full?
    {
      if d < dq {
        assert Passes(s[Pos(h, d, |s|)], key);
      }
    }
  }

  /** A probe through full slots to a slot beyond the cluster after `p` is unchanged
      when that cluster and `p` are emptied. */
  lemma ProbeSurvivesClear<V>(s: seq<Slot<V>>, t: seq<Slot<V>>, p: nat, k: nat, h: nat, dq: nat, key: Key)
    requires |t| == |s| && p < |s| && h < |s| && k < |s| && dq < |s|
    requires s[p].Full? && forall f :: 1 <= f <= k ==> s[Pos(p, f, |s|)].Full?
    requires Pos(p, k + 1, |s|) == p || s[Pos(p, k + 1, |s|)].Empty?
    requires forall d :: 0 <= d <= dq ==> s[Pos(h, d, |s|)].Full?
    requires forall d :: 0 <= d < dq ==> s[Pos(h, d, |s|)].key != key
    requires Pos(h, dq, |s|) != p && Dist(p, Pos(h, dq, |s|), |s|) > k
    requires forall x :: 0 <= x < |s| && x != p && Dist(p, x, |s|) > k ==> t[x] == s[x]
    requires s[Pos(h, dq, |s|)].key == key
    ensures Stop(t, key, h, 0) == dq
  {
    var n := |s|;
    forall e | 0 <= e < dq
      ensures Passes(t[Pos(h, e, n)], key)
    {
      ProbeAvoidsRun(s, p, k, h, dq, e);
      assert Dist(p, p, n) == 0;
      assert Pos(h, e, n) != p;
    }
    StopIs(t, key, h, 0, dq);
  }

  /** After `p` is emptied and the cluster after it cleared, a key left in the table is
      still found where it is. */
  lemma ClearedFinds<V>(s: seq<Slot<V>>, p: nat, q: nat)
    requires IsCapacity(|s|) && Retrievable(s) && p < |s| && s[p].Full? && q < |s|
    requires var s1 := s[p := Empty];
      ClearAfter(s1, p, ClusterEnd(s1, p, 0))[q].Full?
    ensures var s1 := s[p := Empty];
      var t := ClearAfter(s1, p, ClusterEnd(s1, p, 0));
      Find(t, t[q].key) == Some(q)
  {
    var n := |s|;
    var s1 := s[p := Empty];
    var k := ClusterEnd(s1, p, 0);
    var t := ClearAfter(s1, p, k);
    assert Dist(p, p, n) == 0;
    assert q != p && Dist(p, q, n) > k && t[q] == s[q];
    var key := s[q].key;
    var h := Home(key, n);
    var dq := Stop(s, key, h, 0);
    ClusterFacts(s, p);
    ProbePath(s, q);
    ProbeSurvivesClear(s, t, p, k, h, dq, key);
  }

  /** Emptying `p` and clearing the cluster after it keeps every key left retrievable. */
  lemma ClearedRetrievable<V>(s: seq<Slot<V>>, p: nat)
    requires IsCapacity(|s|) && Retrievable(s) && p < |s| && s[p].Full?
    ensures var s1 := s[p := Empty];
      Retrievable(ClearAfter(s1, p, ClusterEnd(s1, p, 0)))
  {
    var s1 := s[p := Empty];
    var t := ClearAfter(s1, p, ClusterEnd(s1, p, 0));
    forall q | 0 <= q < |t| && t[q].Full?
      ensures Find(t, t[q].key) == Some(q)
    {
      ClearedFinds(s, p, q);
    }
  }

  /** Removal that keeps every other key retrievable: the key's slot is emptied, then
      every entry of the rest of its cluster is taken out and set again. */
  function DeleteRepaired<V>(s: seq<Slot<V>>, key: Key): (t: seq<Slot<V>>)
    requires IsCapacity(|s|)
    ensures |t| == |s|
  {
    match Find(s, key)
    case None => s
    case Some(p) =>
      var s1 := s[p := Empty];
      var k := ClusterEnd(s1, p, 0);
      CountUpdate(s, p, Empty);
      ClearCount(s1, p, k);
      CountToFull(RunAfter(s1, p, k), k);
      Reinsert(RunAfter(s1, p, k), k, ClearAfter(s1, p, k))
  }

  /** The repaired removal of a found key, step by step: the key's slot emptied, the
      cluster after it taken out, and its entries set again; no more full slots than
      before, less the removed one. */
  lemma DeleteRepairedSteps<V>(s: seq<Slot<V>>, key: Key, p: nat)
    requires IsCapacity(|s|) && Find(s, key) == Some(p)
    ensures var s1 := s[p := Empty];
      var k := ClusterEnd(s1, p, 0);
      Count(ClearAfter(s1, p, k)) + CountTo(RunAfter(s1, p, k), k) < |s|
      && DeleteRepaired(s, key) == Reinsert(RunAfter(s1, p, k), k, ClearAfter(s1, p, k))
      && Count(DeleteRepaired(s, key)) < Count(s)
  {
    var s1 := s[p := Empty];
    var k := ClusterEnd(s1, p, 0);
    CountUpdate(s, p, Empty);
    ClearCount(s1, p, k);
    CountToFull(RunAfter(s1, p, k), k);
  }

  /** Reinserting entries of other keys leaves the lookup of `k` as it was. */
  lemma {:induction false} ReinsertKeepsOthers<V>(s: seq<Slot<V>>, i: nat, t: seq<Slot<V>>, k: Key)
    requires i <= |s| && IsCapacity(|t|) && Count(t) + CountTo(s, i) < |t| && Retrievable(t)
    requires forall j :: 0 <= j < i && s[j].Full? ==> s[j].key != k
    ensures Get(Reinsert(s, i, t), k) == Get(t, k)
  {
    if i > 0 {
      ReinsertNext(s, i - 1, t);
      ReinsertKeepsOthers(s, i - 1, t, k);
      var r := Reinsert(s, i - 1, t);
      match s[i - 1]
      case Empty =>
        assert Reinsert(s, i, t) == r;
      case Full(key, v) =>
        ReinsertRetrievable(s, i - 1, t);
        PutKeepsOthers(r, key, v, k);
        assert Reinsert(s, i, t) == Put(r, key, v);
    }
  }

  /** Every entry after the repaired removal of a found key is an entry of another slot
      of `s`. */
  lemma RepairedSlots<V>(s: seq<Slot<V>>, key: Key)
    requires IsCapacity(|s|) && Find(s, key).Some?
    ensures var t := DeleteRepaired(s, key);
      forall x :: 0 <= x < |t| && t[x].Full? ==>
        exists y :: 0 <= y < |s| && y != Find(s, key).value && s[y] == t[x]
  {
    var p := Find(s, key).value;
    DeleteRepairedSteps(s, key, p);
    RepairedFrom(s, p, ClusterEnd(s[p := Empty], p, 0));
  }

  /** Reinserting the `k` entries after the emptied slot `p` only puts back entries
      that were in other slots of `s`. */
  lemma RepairedFrom<V>(s: seq<Slot<V>>, p: nat, k: nat)
    requires IsCapacity(|s|) && p < |s| && k < |s|
    requires var s1 := s[p := Empty];
      Count(ClearAfter(s1, p, k)) + CountTo(RunAfter(s1, p, k), k) < |s|
    ensures var s1 := s[p := Empty];
      var t := Reinsert(RunAfter(s1, p, k), k, ClearAfter(s1, p, k));
      forall x :: 0 <= x < |t| && t[x].Full? ==> exists y :: 0 <= y < |s| && y != p && s[y] == t[x]
  {
    var n := |s|;
    var s1 := s[p := Empty];
    var moved := RunAfter(s1, p, k);
    var c := ClearAfter(s1, p, k);
    ReinsertFrom(moved, k, c);
    var t := Reinsert(moved, k, c);
    forall x | 0 <= x < n && t[x].Full?
      ensures exists y :: 0 <= y < n && y != p && s[y] == t[x]
    {
      if t[x] == c[x] {
        assert x != p && s[x] == t[x];
      } else {
        var j :| 0 <= j < k && moved[j] == t[x];
        var y := Pos(p, j + 1, n);
        assert y != p && s[y] == t[x];
      }
    }
  }

  /** The lookup of another key after the repaired removal, when it was found. */
  lemma RepairedFinds<V>(s: seq<Slot<V>>, key: Key, other: Key)
    requires IsCapacity(|s|) && Retrievable(s) && Find(s, key).Some? && other != key
    requires Find(s, other).Some?
    ensures Get(DeleteRepaired(s, key), other) == Get(s, other)
  {
    var n := |s|;
    var p := Find(s, key).value;
    var q := Find(s, other).value;
    var s1 := s[p := Empty];
    var k := ClusterEnd(s1, p, 0);
    CountUpdate(s, p, Empty);
    ClearCount(s1, p, k);
    CountToFull(RunAfter(s1, p, k), k);
    ClearedRetrievable(s, p);
    RetrievableDistinct(s);
    if 1 <= Dist(p, q, n) <= k {
      RepairedFindsMoved(s, p, q, k);
    } else {
      RepairedFindsKept(s, p, q, k);
    }
  }

  /** A key of the cluster after `p` is set again and found. */
  lemma RepairedFindsMoved<V>(s: seq<Slot<V>>, p: nat, q: nat, k: nat)
    requires IsCapacity(|s|) && Distinct(s) && p < |s| && q < |s| && s[q].Full?
    requires k < |s| && 1 <= Dist(p, q, |s|) <= k
    requires var s1 := s[p := Empty];
      Count(ClearAfter(s1, p, k)) + CountTo(RunAfter(s1, p, k), k) < |s|
      && Retrievable(ClearAfter(s1, p, k))
    ensures var s1 := s[p := Empty];
      Get(Reinsert(RunAfter(s1, p, k), k, ClearAfter(s1, p, k)), s[q].key) == Some(s[q].value)
  {
    var n := |s|;
    var s1 := s[p := Empty];
    var moved := RunAfter(s1, p, k);
    var j := Dist(p, q, n) - 1;
    assert Dist(p, p, n) == 0;
    assert moved[j] == s[q];
    forall j' | j < j' < k && moved[j'].Full?
      ensures moved[j'].key != s[q].key
    {
      PosDist(p, j' + 1, n);
    }
    assert LastOf(moved, j, k);
    ReinsertFinds(moved, k, ClearAfter(s1, p, k), j);
  }

  /** A key beyond the cluster after `p` stays where it is and is found. */
  lemma RepairedFindsKept<V>(s: seq<Slot<V>>, p: nat, q: nat, k: nat)
    requires IsCapacity(|s|) && Distinct(s) && p < |s| && q < |s| && q != p && s[q].Full?
    requires k < |s| && !(1 <= Dist(p, q, |s|) <= k)
    requires var s1 := s[p := Empty];
      Count(ClearAfter(s1, p, k)) + CountTo(RunAfter(s1, p, k), k) < |s|
      && Retrievable(ClearAfter(s1, p, k))
    ensures var s1 := s[p := Empty];
      Get(Reinsert(RunAfter(s1, p, k), k, ClearAfter(s1, p, k)), s[q].key) == Some(s[q].value)
  {
    var n := |s|;
    var s1 := s[p := Empty];
    var moved := RunAfter(s1, p, k);
    var c := ClearAfter(s1, p, k);
    assert c[q] == s[q];
    assert Find(c, s[q].key) == Some(q);
    forall j | 0 <= j < k && moved[j].Full?
      ensures moved[j].key != s[q].key
    {
      PosDist(p, j + 1, n);
    }
    ReinsertKeepsOthers(moved, k, c, s[q].key);
  }

  /** What removal is meant to do, and the repaired removal does: in a table whose keys
      are all retrievable, the removed key is gone, every other lookup is as it was,
      and every key left is still retrievable. */
  lemma DeleteRepairedLookups<V>(s: seq<Slot<V>>, key: Key)
    requires IsCapacity(|s|) && Retrievable(s)
    ensures Retrievable(DeleteRepaired(s, key))
    ensures Get(DeleteRepaired(s, key), key) == None
    ensures forall k :: k != key ==> Get(DeleteRepaired(s, key), k) == Get(s, k)
  {
    if Find(s, key).Some? {
      RepairedRetrievable(s, key);
      RepairedLosesKey(s, key);
      RepairedKeepsOthers(s, key);
    }
  }

  /** The repaired removal leaves every key it keeps at the end of its probe. */
  lemma RepairedRetrievable<V>(s: seq<Slot<V>>, key: Key)
    requires IsCapacity(|s|) && Retrievable(s) && Find(s, key).Some?
    ensures Retrievable(DeleteRepaired(s, key))
  {
    var p := Find(s, key).value;
    var s1 := s[p := Empty];
    var k := ClusterEnd(s1, p, 0);
    DeleteRepairedSteps(s, key, p);
    ClearedRetrievable(s, p);
    ReinsertRetrievable(RunAfter(s1, p, k), k, ClearAfter(s1, p, k));
  }

  /** The repaired removal holds the removed key in no slot. */
  lemma RepairedLosesKey<V>(s: seq<Slot<V>>, key: Key)
    requires IsCapacity(|s|) && Retrievable(s) && Find(s, key).Some?
    ensures var t := DeleteRepaired(s, key);
      forall q :: 0 <= q < |t| && t[q].Full? ==> t[q].key != key
  {
    var p := Find(s, key).value;
    var t := DeleteRepaired(s, key);
    RetrievableDistinct(s);
    RepairedSlots(s, key);
    forall q | 0 <= q < |t| && t[q].Full?
      ensures t[q].key != key
    {
      var y :| 0 <= y < |s| && y != p && s[y] == t[q];
      assert s[y].key != s[p].key;
    }
  }

  /** The repaired removal does not change the lookup of any other key. */
  lemma RepairedKeepsOthers<V>(s: seq<Slot<V>>, key: Key)
    requires IsCapacity(|s|) && Retrievable(s) && Find(s, key).Some?
    ensures forall k :: k != key ==> Get(DeleteRepaired(s, key), k) == Get(s, k)
  {
    var t := DeleteRepaired(s, key);
    var p := Find(s, key).value;
    RepairedSlots(s, key);
    forall other | other != key
      ensures Get(t, other) == Get(s, other)
    {
      if Find(s, other).Some? {
        RepairedFinds(s, key, other);
      } else {
        NotStored(s, other);
        assert forall q :: 0 <= q < |t| && t[q].Full? ==> t[q].key != other;
      }
    }
  }

  // ---------------------------------------------------------------------------
  // Iteration

  /** The full slots from `i` on, in increasing order: what `ht_next` yields from
      `_index == i`. */
  function FullFrom<V>(s: seq<Slot<V>>, i: nat): (r: seq<nat>)
    decreases |s| - i
    ensures forall k :: 0 <= k < |r| ==> i <= r[k] < |s| && s[r[k]].Full?
    ensures forall p :: i <= p < |s| && s[p].Full? ==> p in r
    ensures forall a, b :: 0 <= a < b < |r| ==> r[a] < r[b]
  {
    if i >= |s| then [] else (if s[i].Full? then [i] else []) + FullFrom(s, i + 1)
  }

  /** Empty slots skipped over change nothing that is left to yield; a full slot is
      yielded first. */
  lemma {:induction false} FullFromSkip<V>(s: seq<Slot<V>>, i: nat, j: nat)
    requires i <= j <= |s| && forall p :: i <= p < j ==> s[p].Empty?
    decreases j - i
    ensures FullFrom(s, i) == FullFrom(s, j)
    ensures j < |s| && s[j].Full? ==> FullFrom(s, i) == [j] + FullFrom(s, j + 1)
  {
    if i < j {
      FullFromSkip(s, i + 1, j);
    }
  }

  /** A full traversal yields each full slot once: as many slots as are full. */
  lemma {:induction false} FullFromCount<V>(s: seq<Slot<V>>, i: nat)
    requires i <= |s|
    decreases |s| - i
    ensures |FullFrom(s, i)| == Count(s) - CountTo(s, i)
  {
    if i < |s| {
      FullFromCount(s, i + 1);
    }
  }
}
