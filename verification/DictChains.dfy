/**
 The buckets of a hash table as chains of entries, in list order: what it means that they
 hold a finite map, and how entries are moved from one table to another.
 */
module DictChains {
  import opened Bits

  const INITIAL_SIZE: nat := 4

  /** The smallest power of two from the initial size on that is no less than `size`. */
  method NextPower(size: nat) returns (i: nat)
    ensures IsPow2(i) && i >= size && i >= INITIAL_SIZE
    ensures i == INITIAL_SIZE || i < 2 * size
    ensures IsPow2(size) && size >= INITIAL_SIZE ==> i == size
  {
    i := INITIAL_SIZE;
    ghost var k := 2;
    assert Pow2(2) == 4 by { assert Pow2(1) == 2; }
    while i < size
      invariant i == Pow2(k) && i >= INITIAL_SIZE
      invariant i == INITIAL_SIZE || i < 2 * size
      decreases size - i
    {
      i := i * 2;
      k := k + 1;
    }
    if IsPow2(size) && size >= INITIAL_SIZE {
      ghost var j: nat :| size == Pow2(j);
      PowersDouble(j, k);
    }
  }

  // ---- Chains ----

  datatype Entry<K, V> = Entry(key: K, val: V)

  type Chain<K, V> = seq<Entry<K, V>>

  predicate DistinctKeys<K(==), V>(chain: Chain<K, V>) {
    forall i, j :: 0 <= i < j < |chain| ==> chain[i].key != chain[j].key
  }

  predicate HasKey<K(==), V>(chain: Chain<K, V>, key: K) {
    exists j :: 0 <= j < |chain| && chain[j].key == key
  }

  /** A chain without its entry `j`. */
  function Unlinked<K, V>(chain: Chain<K, V>, j: nat): Chain<K, V>
    requires j < |chain|
  {
    chain[..j] + chain[j + 1..]
  }

  // ---- Tables ----

  /** How keys are spread: the hash function and the mask applied to it. */
  datatype Spread<!K> = Spread(hash: K -> nat, mask: nat) {
    function Slot(key: K): nat {
      And(hash(key), mask)
    }
  }

  /** Bucket `i`: each key once, in its own bucket, with its value. */
  ghost predicate InBucket<K, V>(chain: Chain<K, V>, i: nat, s: Spread<K>, model: map<K, V>) {
    && DistinctKeys(chain)
    && forall j :: 0 <= j < |chain| ==>
         var e := chain[j]; s.Slot(e.key) == i && e.key in model && model[e.key] == e.val
  }

  ghost predicate Stored<K, V>(tab: seq<Chain<K, V>>, s: Spread<K>, k: K) {
    s.Slot(k) < |tab| && HasKey(tab[s.Slot(k)], k)
  }

  /** The entries of a table are exactly the pairs of a map. */
  ghost predicate Holds<K(!new), V>(tab: seq<Chain<K, V>>, s: Spread<K>, model: map<K, V>) {
    && (forall i :: 0 <= i < |tab| ==> InBucket(tab[i], i, s, model))
    && (forall k {:trigger Stored(tab, s, k)} :: k in model ==> Stored(tab, s, k))
  }

  lemma HoldsInsert<K(!new), V>(tab: seq<Chain<K, V>>, s: Spread<K>, model: map<K, V>, e: Entry<K, V>)
    requires Holds(tab, s, model) && s.Slot(e.key) < |tab| && e.key !in model
    ensures
      var i := s.Slot(e.key);
      Holds(tab[i := [e] + tab[i]], s, model[e.key := e.val])
  {
    var i := s.Slot(e.key);
    var tab', model' := tab[i := [e] + tab[i]], model[e.key := e.val];
    forall b | 0 <= b < |tab|
      ensures InBucket(tab'[b], b, s, model')
    {
      assert InBucket(tab[b], b, s, model);
    }
    forall k | k in model'
      ensures Stored(tab', s, k)
    {
      if k == e.key {
        assert tab'[i][0].key == k;
      } else {
        assert Stored(tab, s, k);
        var j :| 0 <= j < |tab[s.Slot(k)]| && tab[s.Slot(k)][j].key == k;
        assert tab'[s.Slot(k)][if s.Slot(k) == i then j + 1 else j].key == k;
      }
    }
  }

  lemma HoldsDelete<K(!new), V>(tab: seq<Chain<K, V>>, s: Spread<K>, model: map<K, V>, i: nat, j: nat)
    requires Holds(tab, s, model) && i < |tab| && j < |tab[i]|
    ensures Holds(tab[i := Unlinked(tab[i], j)], s, model - {tab[i][j].key})
  {
    var key := tab[i][j].key;
    var tab', model' := tab[i := Unlinked(tab[i], j)], model - {key};
    assert InBucket(tab[i], i, s, model);
    forall b | 0 <= b < |tab|
      ensures InBucket(tab'[b], b, s, model')
    {
      assert InBucket(tab[b], b, s, model);
    }
    forall k | k in model'
      ensures Stored(tab', s, k)
    {
      assert Stored(tab, s, k);
      var b := s.Slot(k);
      var p :| 0 <= p < |tab[b]| && tab[b][p].key == k;
      assert tab'[b][if b == i && p > j then p - 1 else p].key == k;
    }
  }

  lemma HoldsUpdate<K(!new), V>(tab: seq<Chain<K, V>>, s: Spread<K>, model: map<K, V>, i: nat, j: nat, val: V)
    requires Holds(tab, s, model) && i < |tab| && j < |tab[i]|
    ensures
      var key := tab[i][j].key;
      Holds(tab[i := tab[i][j := Entry(key, val)]], s, model[key := val])
  {
    var key := tab[i][j].key;
    var tab', model' := tab[i := tab[i][j := Entry(key, val)]], model[key := val];
    assert InBucket(tab[i], i, s, model);
    forall b | 0 <= b < |tab|
      ensures InBucket(tab'[b], b, s, model')
    {
      assert InBucket(tab[b], b, s, model);
    }
    forall k | k in model'
      ensures Stored(tab', s, k)
    {
      assert Stored(tab, s, k);
      var b := s.Slot(k);
      var p :| 0 <= p < |tab[b]| && tab[b][p].key == k;
      assert tab'[b][p].key == k;
    }
  }

  // ---- Moving entries to another table ----

  /** A key belongs to a bucket before `i`, or is among the first `j` of bucket `i`. */
  ghost predicate Passed<K, V>(tab: seq<Chain<K, V>>, s: Spread<K>, i: nat, j: nat, k: K) {
    || s.Slot(k) < i
    || (s.Slot(k) == i && i < |tab| && j <= |tab[i]| && HasKey(tab[i][..j], k))
  }

  /** `m` is the part of the map whose keys were passed. */
  ghost predicate Moved<K(!new), V>(tab: seq<Chain<K, V>>, s: Spread<K>, model: map<K, V>, m: map<K, V>, i: nat,
                                    j: nat)
  {
    && i <= |tab| && (i == |tab| ==> j == 0) && (i < |tab| ==> j <= |tab[i]|)
    && (forall k :: k in m ==> k in model && m[k] == model[k])
    && (forall k {:trigger Passed(tab, s, i, j, k)} :: k in model ==> (k in m <==> Passed(tab, s, i, j, k)))
  }

  lemma MoveOne<K(!new), V>(tab: seq<Chain<K, V>>, s: Spread<K>, model: map<K, V>, m: map<K, V>, i: nat, j: nat)
    requires Holds(tab, s, model) && Moved(tab, s, model, m, i, j) && i < |tab| && j < |tab[i]|
    ensures tab[i][j].key in model && tab[i][j].key !in m
    ensures Moved(tab, s, model, m[tab[i][j].key := tab[i][j].val], i, j + 1)
  {
    assert InBucket(tab[i], i, s, model);
    var chain, e := tab[i], tab[i][j];
    assert !Passed(tab, s, i, j, e.key);
    forall k | k in model
      ensures k in m || k == e.key <==> Passed(tab, s, i, j + 1, k)
    {
      assert k in m <==> Passed(tab, s, i, j, k);
      PassOne(chain, j, k);
    }
  }

  lemma PassOne<K, V>(chain: Chain<K, V>, j: nat, k: K)
    requires j < |chain|
    ensures HasKey(chain[..j + 1], k) <==> HasKey(chain[..j], k) || k == chain[j].key
  {
    if HasKey(chain[..j], k) {
      var p :| 0 <= p < j && chain[..j][p].key == k;
      assert chain[..j + 1][p].key == k;
    }
    if k == chain[j].key {
      assert chain[..j + 1][j].key == k;
    }
    if HasKey(chain[..j + 1], k) {
      var p :| 0 <= p < j + 1 && chain[..j + 1][p].key == k;
      assert p < j ==> chain[..j][p].key == k;
    }
  }

  lemma MoveOn<K(!new), V>(tab: seq<Chain<K, V>>, s: Spread<K>, model: map<K, V>, m: map<K, V>, i: nat)
    requires Holds(tab, s, model) && i < |tab| && Moved(tab, s, model, m, i, |tab[i]|)
    ensures Moved(tab, s, model, m, i + 1, 0)
  {
    var chain := tab[i];
    assert chain[..|chain|] == chain;
    forall k | k in model
      ensures k in m <==> Passed(tab, s, i + 1, 0, k)
    {
      assert k in m <==> Passed(tab, s, i, |chain|, k);
      assert Stored(tab, s, k);
    }
  }

  /** A part of a map that is as large as the map is the map. */
  lemma WholeMap<K, V>(m: map<K, V>, model: map<K, V>)
    requires forall k :: k in m ==> k in model && m[k] == model[k]
    ensures |m| <= |model|
    ensures |m| == |model| ==> m == model
  {
    assert m.Keys <= model.Keys;
    Subset(m.Keys, model.Keys);
  }

  lemma {:induction false} Subset<T>(a: set<T>, b: set<T>)
    requires a <= b
    ensures |a| <= |b| && (|a| == |b| ==> a == b)
  {
    assert b == a + (b - a);
    assert |b| == |a| + |b - a|;
  }

  // ---- Rehashing ----

  /** The old table with its map, the new table with the map `m` of what was moved so
      far, the position in the old table, and the count of what is left. */
  ghost predicate Rehashing<K(!new), V>(tab: seq<Chain<K, V>>, s: Spread<K>, model: map<K, V>,
                                        into: seq<Chain<K, V>>, s': Spread<K>, m: map<K, V>, i: nat, j: nat, used: int)
  {
    && |into| == s'.mask + 1
    && Holds(tab, s, model)
    && Holds(into, s', m)
    && Moved(tab, s, model, m, i, j)
    && |m| + used == |model|
  }

  /** The current entry goes to the head of its new bucket. */
  lemma OneEntry<K(!new), V>(tab: seq<Chain<K, V>>, s: Spread<K>, model: map<K, V>,
                             into: seq<Chain<K, V>>, s': Spread<K>, m: map<K, V>, i: nat, j: nat, used: int)
    requires Rehashing(tab, s, model, into, s', m, i, j, used) && i < |tab| && j < |tab[i]|
    ensures
      var e := tab[i][j];
      var h := s'.Slot(e.key);
      && h < |into| && used > 0
      && Rehashing(tab, s, model, into[h := [e] + into[h]], s', m[e.key := e.val], i, j + 1, used - 1)
  {
    var e := tab[i][j];
    MoveOne(tab, s, model, m, i, j);
    WholeMap(m[e.key := e.val], model);
    HoldsInsert(into, s', m, e);
  }

  lemma BucketDone<K(!new), V>(tab: seq<Chain<K, V>>, s: Spread<K>, model: map<K, V>,
                               into: seq<Chain<K, V>>, s': Spread<K>, m: map<K, V>, i: nat, j: nat, used: int)
    requires Rehashing(tab, s, model, into, s', m, i, j, used) && i < |tab| && j == |tab[i]|
    ensures Rehashing(tab, s, model, into, s', m, i + 1, 0, used)
  {
    MoveOn(tab, s, model, m, i);
  }

  /** Whether the loop stops behind the last bucket or because nothing is counted any
      more, everything has been moved. */
  lemma AllMoved<K(!new), V>(tab: seq<Chain<K, V>>, s: Spread<K>, model: map<K, V>,
                             into: seq<Chain<K, V>>, s': Spread<K>, m: map<K, V>, i: nat, used: int)
    requires Rehashing(tab, s, model, into, s', m, i, 0, used)
    requires i == |tab| || used <= 0
    ensures m == model && used == 0
  {
    WholeMap(m, model);
    if i == |tab| {
      forall k | k in model
        ensures k in m
      {
        assert Stored(tab, s, k) && Passed(tab, s, i, 0, k);
      }
      assert m == model;
    }
  }

  // ---- The order in which entries are moved ----

  /** A table with an entry put in front of its bucket. */
  function Front<K, V>(tab: seq<Chain<K, V>>, s: Spread<K>, e: Entry<K, V>): (tab': seq<Chain<K, V>>)
    ensures |tab'| == |tab|
  {
    var h := s.Slot(e.key);
    if h < |tab| then tab[h := [e] + tab[h]] else tab
  }

  /** The first `j` entries of a chain, put in front one after the other. */
  function MovedTo<K, V>(into: seq<Chain<K, V>>, s: Spread<K>, chain: Chain<K, V>, j: nat): (into': seq<Chain<K, V>>)
    requires j <= |chain|
    ensures |into'| == |into|
  {
    if j == 0 then into else Front(MovedTo(into, s, chain, j - 1), s, chain[j - 1])
  }

  /** The first `i` buckets of a table, one after the other. */
  function AllMovedTo<K, V>(into: seq<Chain<K, V>>, s: Spread<K>, tab: seq<Chain<K, V>>,
                            i: nat): (into': seq<Chain<K, V>>)
    requires i <= |tab|
    ensures |into'| == |into|
  {
    if i == 0 then into else MovedTo(AllMovedTo(into, s, tab, i - 1), s, tab[i - 1], |tab[i - 1]|)
  }

  lemma {:induction false} EmptyBucketsMoveNothing<K, V>(into: seq<Chain<K, V>>, s: Spread<K>, tab: seq<Chain<K, V>>,
                                                         i: nat, n: nat)
    requires i <= n <= |tab| && forall k :: i <= k < n ==> tab[k] == []
    ensures AllMovedTo(into, s, tab, n) == AllMovedTo(into, s, tab, i)
    decreases n
  {
    if i < n {
      EmptyBucketsMoveNothing(into, s, tab, i, n - 1);
    }
  }

  /** Once everything was moved, there are only empty buckets left. */
  lemma RestIsEmpty<K(!new), V>(tab: seq<Chain<K, V>>, s: Spread<K>, model: map<K, V>, i: nat)
    requires Holds(tab, s, model) && Moved(tab, s, model, model, i, 0)
    ensures forall k :: i <= k < |tab| ==> tab[k] == []
  {
    forall k | i <= k < |tab|
      ensures tab[k] == []
    {
      assert InBucket(tab[k], k, s, model);
      assert tab[k] != [] ==> Passed(tab, s, i, 0, tab[k][0].key);
    }
  }
}
