/**
 The chained hash table: an array of list heads that doubles when it is full, and nodes in
 memory. It refines a finite map, its ghost `model`.
 */
module Dict {
  import opened Bits
  import opened Bytes
  import opened DictChains
  import opened DictNodes

  class Dict<K(==, !new), V> {
    var cells: Memory<K, V>
    var table: array<Option<nat>>
    var size: nat
    var sizemask: nat
    var used: nat
    const hash: K -> nat
    ghost var tab: seq<Chain<K, V>>
    ghost var model: map<K, V>

    ghost function S(): Spread<K>
      reads this`sizemask
    {
      Spread(hash, sizemask)
    }

    /** The size is zero or a power of two, the mask is one less, the count is exact and
        no more than the size, the lists hold the chains, and these hold exactly the map. */
    ghost predicate Valid()
      reads this, table
    {
      && table.Length == size
      && (if size == 0 then sizemask == 0 else IsPow2(size) && size >= INITIAL_SIZE && sizemask == size - 1)
      && used == |model| && used <= size
      && Realizes(cells, table[..], tab)
      && Holds(tab, S(), model)
    }

    constructor (hash: K -> nat)
      ensures Valid() && model == map[] && fresh(table) && this.hash == hash
    {
      cells := [];
      table := new Option<nat>[0];
      size, sizemask, used := 0, 0, 0;
      this.hash := hash;
      tab, model := [], map[];
    }

    function Slot(key: K): nat
      reads this`sizemask
    {
      And(hash(key), sizemask)
    }

    /** A pointer to the live node with a key and its value. */
    predicate Finds(p: Option<nat>, key: K)
      reads this`cells
    {
      p.Some? && p.value < |cells| && cells[p.value].live && cells[p.value].key == key
    }

    /** dictFind. */
    method Find(key: K) returns (he: Option<nat>)
      requires Valid()
      ensures he.Some? <==> key in model
      ensures he.Some? ==> Finds(he, key) && cells[he.value].val == model[key]
    {
      assert key in model ==> Stored(tab, S(), key);
      if size == 0 {
        return None;
      }
      var h := Slot(key);
      assert InBucket(tab[h], h, S(), model);
      ghost var j;
      var prev;
      he, prev, j := Walk(cells, table[h], key, tab[h]);
    }

    /** dictExpand: rehashes everything into a table of the next power of two. */
    method Expand(n: nat) returns (ok: bool)
      requires Valid()
      modifies this`table, this`size, this`sizemask, this`used, this`cells, this`tab
      ensures Valid() && ok == (|model| <= n)
      ensures ok ==> fresh(table) && size >= n && (size == INITIAL_SIZE || size < 2 * n)
      ensures ok && IsPow2(n) && n >= INITIAL_SIZE ==> size == n
      ensures ok ==> tab == AllMovedTo(Empty(size), S(), old(tab), |old(tab)|)
      ensures !ok ==> unchanged(this)
    {
      var realsize := NextPower(n);
      if used > n {
        return false;
      }
      Rehash(realsize);
      return true;
    }

    /** Moves everything to a new table. */
    method Rehash(n: nat)
      requires Valid() && IsPow2(n) && n >= INITIAL_SIZE && used <= n
      modifies this`table, this`size, this`sizemask, this`used, this`cells, this`tab
      ensures Valid() && fresh(table) && size == n && tab == AllMovedTo(Empty(n), S(), old(tab), |old(tab)|)
    {
      var moved, into;
      ghost var tab';
      moved, into, tab' := MoveToNew(cells, table, hash, n, used, tab, S(), model);
      Install(moved, into, n, used, tab');
    }

    /** Remaps the new table in the old. */
    method Install(moved: Memory<K, V>, into: array<Option<nat>>, n: nat, total: nat, ghost tab': seq<Chain<K, V>>)
      requires into.Length == n && IsPow2(n) && n >= INITIAL_SIZE && total == |model| <= n
      requires Realizes(moved, into[..], tab') && Holds(tab', Spread(hash, n - 1), model)
      modifies this`table, this`size, this`sizemask, this`used, this`cells, this`tab
      ensures Valid() && table == into && size == n && tab == tab'
    {
      cells := moved;
      table, size, sizemask, used := into, n, n - 1, total;
      tab := tab';
    }

    /** _dictExpandIfNeeded: makes room for one more entry, which cannot fail. */
    method ExpandIfNeeded() returns (ok: bool)
      requires Valid()
      modifies this`table, this`size, this`sizemask, this`used, this`cells, this`tab
      ensures Valid() && ok && used < size && (table == old(table) || fresh(table))
      ensures size == if old(size) == 0 then INITIAL_SIZE else if old(used == size) then 2 * old(size) else old(size)
    {
      if size == 0 {
        assert Pow2(2) == INITIAL_SIZE by { assert Pow2(1) == 2; }
        ok := Expand(INITIAL_SIZE);
      } else if used == size {
        ghost var k: nat :| size == Pow2(k);
        assert Pow2(k + 1) == size * 2;
        ok := Expand(size * 2);
      } else {
        ok := true;
      }
    }

    /** _dictKeyIndex: the bucket for a new key, or -1 when the key is there; the table
        may have grown either way. */
    method KeyIndex(key: K) returns (h: int)
      requires Valid()
      modifies this`table, this`size, this`sizemask, this`used, this`cells, this`tab
      ensures Valid() && used < size && (table == old(table) || fresh(table))
      ensures h == if key in model then -1 else Slot(key)
    {
      var ok := ExpandIfNeeded();
      if !ok {
        return -1;
      }
      var b := Slot(key);
      assert key in model ==> Stored(tab, S(), key);
      assert InBucket(tab[b], b, S(), model);
      var he, _, j := Walk(cells, table[b], key, tab[b]);
      return if he.Some? then -1 else b;
    }

    /** dictAdd fails exactly on a key that is there. */
    method Add(key: K, val: V) returns (ok: bool)
      requires Valid()
      modifies this, table
      ensures Valid() && (table == old(table) || fresh(table))
      ensures ok == (key !in old(model))
      ensures model == if ok then old(model)[key := val] else old(model)
    {
      var h := KeyIndex(key);
      if h == -1 {
        return false;
      }
      Insert(key, val, h);
      return true;
    }

    /** Puts a new node in front of a bucket. */
    method Insert(key: K, val: V, h: nat)
      requires Valid() && key !in model && used < size && h == Slot(key)
      modifies this`cells, this`used, this`tab, this`model, table
      ensures Valid() && model == old(model)[key := val]
    {
      ghost var heads, s, e, before := table[..], S(), Entry(key, val), cells;
      HoldsInsert(tab, s, model, e);
      assert InBucket(tab[h], h, s, model);
      var entry := Node(key, val, table[h], true);
      PushFront(cells, heads[h], tab[h], entry);
      cells := cells + [entry];
      RealizesFrame(before, cells, heads, tab, s, model, h, key);
      table[h] := Some(|cells| - 1);
      used := used + 1;
      tab, model := tab[h := [e] + tab[h]], model[key := val];
      assert table[..] == heads[h := Some(|before|)];
    }

    /** dictReplace: sets the value either way, and says whether the key is new. */
    method Replace(key: K, val: V) returns (added: int)
      requires Valid()
      modifies this, table
      ensures Valid() && (table == old(table) || fresh(table))
      ensures model == old(model)[key := val]
      ensures added == if key in old(model) then 0 else 1
    {
      var ok := Add(key, val);
      if ok {
        return 1;
      }
      SetValue(key, val);
      return 0;
    }

    /** Finds the node of a key that is there and sets its value. */
    method SetValue(key: K, val: V)
      requires Valid() && key in model
      modifies this`cells, this`tab, this`model
      ensures Valid() && model == old(model)[key := val]
    {
      ghost var heads, s, before := table[..], S(), cells;
      assert Stored(tab, s, key);
      var h := Slot(key);
      assert InBucket(tab[h], h, s, model);
      var he, _, j := Walk(cells, table[h], key, tab[h]);
      HoldsUpdate(tab, s, model, h, j, val);
      SetNode(cells, heads[h], tab[h], j, he.value, val);
      cells := cells[he.value := cells[he.value].(val := val)];
      RealizesFrame(before, cells, heads, tab, s, model, h, key);
      tab, model := tab[h := tab[h][j := Entry(key, val)]], model[key := val];
    }

    /** dictDelete fails exactly on a key that is not there. Only the entry goes: the others
        stay in their chains, in their order, and a pointer behind it that was taken before
        still leads to the rest of its bucket. */
    method Delete(key: K) returns (ok: bool, ghost j: nat)
      requires Valid()
      modifies this`cells, this`used, this`tab, this`model, table
      ensures Valid() && ok == (key in old(model)) && model == old(model) - {key}
      ensures
        if ok then
          var h := Slot(key);
          && h < |tab| == |old(tab)| && j < |old(tab)[h]| && old(tab)[h][j].key == key
          && tab == old(tab)[h := Unlinked(old(tab)[h], j)]
          && StillLead(old(cells), cells, old(tab)[h][j + 1..])
        else
          tab == old(tab) && cells == old(cells)
    {
      assert key in model ==> Stored(tab, S(), key);
      if size == 0 {
        return false, 0;
      }
      var h := Slot(key);
      assert InBucket(tab[h], h, S(), model);
      var de, prev;
      de, prev, j := Walk(cells, table[h], key, tab[h]);
      if de.None? {
        return false, 0;
      }
      Unlink(h, de.value, prev, j, key);
      return true, j;
    }

    /** Unlinks the node of entry `j` of bucket `h`, and frees it. */
    method Unlink(h: nat, de: nat, prev: Option<nat>, ghost j: nat, ghost key: K)
      requires Valid() && h < size && j < |tab[h]| && key == tab[h][j].key
      requires
        && PointerAt(cells, table[h], j) == Some(de)
        && prev == if j == 0 then None else PointerAt(cells, table[h], j - 1)
      modifies this`cells, this`used, this`tab, this`model, table
      ensures Valid() && model == old(model) - {key} && tab == old(tab)[h := Unlinked(old(tab)[h], j)]
      ensures StillLead(old(cells), cells, old(tab)[h][j + 1..])
    {
      ghost var heads, s, before := table[..], S(), cells;
      InMemory(cells, heads, tab, s, model, h, j, prev, de);
      UnlinkInTable(cells, heads, tab, s, model, h, j, prev, de, key);
      HoldsDelete(tab, s, model, h, j);
      RemoveNode(h, de, prev);
      used := used - 1;
      tab, model := tab[h := Unlinked(tab[h], j)], model - {key};
    }

    /** Links around a node and frees it. */
    method RemoveNode(h: nat, de: nat, prev: Option<nat>)
      requires h < table.Length && de < |cells| && (prev.Some? ==> prev.value < |cells|)
      modifies this`cells, table
      ensures cells == WithoutNode(old(cells), prev, de)
      ensures table[..] == if prev.Some? then old(table[..]) else old(table[..])[h := old(cells)[de].next]
    {
      var next := cells[de].next;
      if prev.Some? {
        cells := cells[prev.value := cells[prev.value].(next := next)];
      } else {
        table[h] := next;
      }
      cells := cells[de := cells[de].(live := false)];
    }
  }

  function LinkedAround<K, V>(cells: Memory<K, V>, prev: Option<nat>, de: nat): Memory<K, V>
    requires de < |cells| && (prev.Some? ==> prev.value < |cells|)
  {
    if prev.Some? then cells[prev.value := cells[prev.value].(next := cells[de].next)] else cells
  }

  function WithoutNode<K, V>(cells: Memory<K, V>, prev: Option<nat>, de: nat): Memory<K, V>
    requires de < |cells| && (prev.Some? ==> prev.value < |cells|)
  {
    var linked := LinkedAround(cells, prev, de);
    linked[de := linked[de].(live := false)]
  }

  /** The node of an entry and the one before it are in memory. */
  lemma InMemory<K(!new), V>(cells: Memory<K, V>, heads: seq<Option<nat>>, tab: seq<Chain<K, V>>, s: Spread<K>,
                             model: map<K, V>, h: nat, j: nat, prev: Option<nat>, de: nat)
    requires Realizes(cells, heads, tab) && Holds(tab, s, model) && h < |tab| && j < |tab[h]|
    requires
      && PointerAt(cells, heads[h], j) == Some(de)
      && prev == if j == 0 then None else PointerAt(cells, heads[h], j - 1)
    ensures de < |cells| && cells[de].Entry() == tab[h][j]
    ensures prev.Some? <==> j > 0
    ensures j > 0 ==> prev.value < |cells| && cells[prev.value].Entry() == tab[h][j - 1]
  {
    PointerNext(cells, heads[h], tab[h], j);
    if j > 0 {
      PointerNext(cells, heads[h], tab[h], j - 1);
    }
  }

  /** Without the node, the lists hold the chains without the entry, and pointers to what is
      behind it lead there as before. */
  lemma UnlinkInTable<K(!new), V>(cells: Memory<K, V>, heads: seq<Option<nat>>, tab: seq<Chain<K, V>>, s: Spread<K>,
                                  model: map<K, V>, h: nat, j: nat, prev: Option<nat>, de: nat, key: K)
    requires Realizes(cells, heads, tab) && Holds(tab, s, model) && h < |tab| && j < |tab[h]| && key == tab[h][j].key
    requires
      && PointerAt(cells, heads[h], j) == Some(de)
      && prev == if j == 0 then None else PointerAt(cells, heads[h], j - 1)
    requires de < |cells| && cells[de].Entry() == tab[h][j] && (prev.Some? <==> j > 0)
    requires j > 0 ==> prev.value < |cells| && cells[prev.value].Entry() == tab[h][j - 1]
    ensures
      var cells' := WithoutNode(cells, prev, de);
      && Realizes(cells', if prev.Some? then heads else heads[h := cells[de].next], tab[h := Unlinked(tab[h], j)])
      && StillLead(cells, cells', tab[h][j + 1..])
  {
    var linked, cells' := LinkedAround(cells, prev, de), WithoutNode(cells, prev, de);
    var k := if j == 0 then key else tab[h][j - 1].key;
    assert InBucket(tab[h], h, s, model);
    UnlinkNode(cells, heads[h], tab[h], j, prev, de);
    OtherBuckets(cells, linked, cells', heads, tab, s, model, h, k, key);
    RestOfBucket(cells, linked, cells', tab[h], j, k);
  }

  /** A table of empty buckets. */
  ghost function Empty<K, V>(n: nat): (tab: seq<Chain<K, V>>)
    ensures |tab| == n && forall i :: 0 <= i < n ==> tab[i] == []
  {
    seq(n, _ => [])
  }

  /** Follows a list for a key: the node, the one before it, and the position. */
  method Walk<K(==), V>(cells: Memory<K, V>, head: Option<nat>, key: K, ghost chain: Chain<K, V>)
    returns (he: Option<nat>, prev: Option<nat>, ghost j: nat)
    requires Points(cells, head, chain)
    ensures
      && j <= |chain|
      && he == PointerAt(cells, head, j)
      && prev == if j == 0 then None else PointerAt(cells, head, j - 1)
    ensures if he.Some? then j < |chain| && chain[j].key == key && he.value < |cells| && cells[he.value].live
              && cells[he.value].Entry() == chain[j] else !HasKey(chain, key)
  {
    he, prev, j := head, None, 0;
    while he.Some?
      invariant
        && j <= |chain|
        && he == PointerAt(cells, head, j)
        && prev == if j == 0 then None else PointerAt(cells, head, j - 1)
      invariant he.Some? <==> j < |chain|
      invariant forall k :: 0 <= k < j ==> chain[k].key != key
      decreases |chain| - j
    {
      PointerNext(cells, head, chain, j);
      if cells[he.value].key == key {
        return;
      }
      PointsAt(cells, head, chain, j + 1);
      prev, he, j := he, cells[he.value].next, j + 1;
    }
  }

  /** An array of empty lists. */
  method NewHeads(n: nat) returns (heads: array<Option<nat>>)
    ensures fresh(heads) && heads.Length == n && forall i :: 0 <= i < n ==> heads[i].None?
  {
    heads := new Option<nat>[n](_ => None);
  }

  /** Moves all nodes of a table to a new one. */
  method MoveToNew<K(!new), V>(cells: Memory<K, V>, table: array<Option<nat>>, hash: K -> nat, n: nat, used: nat,
                               ghost tab: seq<Chain<K, V>>, ghost s: Spread<K>, ghost model: map<K, V>)
    returns (cells': Memory<K, V>, into: array<Option<nat>>, ghost chains: seq<Chain<K, V>>)
    requires n > 0 && Realizes(cells, table[..], tab) && Holds(tab, s, model) && used == |model|
    ensures
      && fresh(into)
      && into.Length == n
      && Realizes(cells', into[..], chains)
      && Holds(chains, Spread(hash, n - 1), model)
    ensures chains == AllMovedTo(Empty(n), Spread(hash, n - 1), tab, |tab|)
  {
    into := NewHeads(n);
    var left;
    cells', left, chains := MoveAll(cells, table, hash, n - 1, into, used, tab, s, model);
    assert left == 0;
  }

  /** The loop over the old buckets, which stops early once everything was moved. */
  method MoveAll<K(!new), V>(cells: Memory<K, V>, table: array<Option<nat>>, hash: K -> nat, mask: nat,
                             into: array<Option<nat>>, used: nat, ghost tab: seq<Chain<K, V>>, ghost s: Spread<K>,
                             ghost model: map<K, V>)
    returns (cells': Memory<K, V>, left: nat, ghost chains: seq<Chain<K, V>>)
    requires table != into && Realizes(cells, table[..], tab) && Holds(tab, s, model) && used == |model|
    requires into.Length == mask + 1 && forall i :: 0 <= i < into.Length ==> into[i].None?
    modifies into
    ensures left == 0 && Realizes(cells', into[..], chains) && Holds(chains, Spread(hash, mask), model)
    ensures chains == AllMovedTo(Empty(mask + 1), Spread(hash, mask), tab, |tab|)
  {
    ghost var m, s', none, heads := map[], Spread(hash, mask), Empty(mask + 1), table[..];
    cells', left, chains := cells, used, none;
    var i: nat := 0;
    StartMove(cells, heads, tab, s, model, into[..], none, s', used);
    while i < table.Length && left > 0
      invariant i <= table.Length && table[..] == heads
      invariant BetweenBuckets(cells', heads, tab, s, model, i, into[..], none, chains, s', m, left)
    {
      cells', left, m, chains, i := MoveOneBucket(cells', table[i], hash, mask, into, left, heads, tab, s, model, m, i,
                                                  none, chains);
    }
    EndOfMove(cells', heads, tab, s, model, i, into[..], none, chains, s', m, left);
  }

  lemma StartMove<K(!new), V>(cells: Memory<K, V>, heads: seq<Option<nat>>, tab: seq<Chain<K, V>>, s: Spread<K>,
                              model: map<K, V>, heads': seq<Option<nat>>, none: seq<Chain<K, V>>, s': Spread<K>,
                              used: nat)
    requires Realizes(cells, heads, tab) && Holds(tab, s, model) && used == |model|
    requires |heads'| == s'.mask + 1 && none == Empty(s'.mask + 1) && forall i :: 0 <= i < |heads'| ==> heads'[i].None?
    ensures BetweenBuckets(cells, heads, tab, s, model, 0, heads', none, none, s', map[], used)
  {
  }

  method MoveOneBucket<K(!new), V>(cells: Memory<K, V>, head: Option<nat>, hash: K -> nat, mask: nat,
                                   into: array<Option<nat>>, used: nat, ghost heads: seq<Option<nat>>,
                                   ghost tab: seq<Chain<K, V>>, ghost s: Spread<K>, ghost model: map<K, V>,
                                   ghost m: map<K, V>, i: nat, ghost none: seq<Chain<K, V>>,
                                   ghost chains: seq<Chain<K, V>>)
    returns (cells': Memory<K, V>, left: nat, ghost m': map<K, V>, ghost chains': seq<Chain<K, V>>, i': nat)
    requires BetweenBuckets(cells, heads, tab, s, model, i, into[..], none, chains, Spread(hash, mask), m, used)
    requires i < |tab| && head == heads[i]
    modifies into
    ensures
      && BetweenBuckets(cells', heads, tab, s, model, i', into[..], none, chains', Spread(hash, mask), m', left)
      && i' == i + 1
  {
    EnterBucket(cells, heads, tab, s, model, i, into[..], none, chains, Spread(hash, mask), m, used);
    i' := i + 1;
    cells', left, m', chains' := MoveBucket(cells, head, hash, mask, into, used, heads, tab, s, model, m, i, chains);
  }

  /** Moves the chain of bucket `i` into the new table, each node to the front of its list;
      each one moved is one less that is counted. */
  method MoveBucket<K(!new), V>(cells: Memory<K, V>, head: Option<nat>, hash: K -> nat, mask: nat,
                                into: array<Option<nat>>, used: nat, ghost heads: seq<Option<nat>>,
                                ghost tab: seq<Chain<K, V>>, ghost s: Spread<K>, ghost model: map<K, V>,
                                ghost m: map<K, V>, ghost i: nat, ghost chains: seq<Chain<K, V>>)
    returns (cells': Memory<K, V>, left: nat, ghost m': map<K, V>, ghost chains': seq<Chain<K, V>>)
    requires Moving(cells, heads, tab, i, 0, head, into[..], chains)
    requires Rehashing(tab, s, model, chains, Spread(hash, mask), m, i, 0, used)
    modifies into
    ensures Realizes(cells', into[..], chains') && forall k :: i < k < |tab| ==> Points(cells', heads[k], tab[k])
    ensures Rehashing(tab, s, model, chains', Spread(hash, mask), m', i + 1, 0, left)
    ensures chains' == MovedTo(chains, Spread(hash, mask), tab[i], |tab[i]|)
  {
    ghost var s', j := Spread(hash, mask), 0;
    cells', left, m', chains' := cells, used, m, chains;
    var he := head;
    while he.Some?
      invariant MidBucket(cells', heads, tab, s, model, i, j, he, into[..], chains, chains', s', m', left)
      decreases |tab[i]| - j
    {
      cells', he, left, m', chains', j := MoveFirst(cells', he.value, hash, mask, into, left, heads, tab, s, model, m',
                                                    i, j, chains, chains');
    }
    MidBucketDone(cells', heads, tab, s, model, i, j, he, into[..], chains, chains', s', m', left);
  }

  /** Before bucket `i`: the ones before it were moved, in their order. */
  ghost predicate BetweenBuckets<K(!new), V>(cells: Memory<K, V>, heads: seq<Option<nat>>, tab: seq<Chain<K, V>>,
                                             s: Spread<K>, model: map<K, V>, i: nat, heads': seq<Option<nat>>,
                                             none: seq<Chain<K, V>>, chains: seq<Chain<K, V>>, s': Spread<K>,
                                             m: map<K, V>, left: int)
  {
    && |heads| == |tab| && Realizes(cells, heads', chains)
    && (forall k :: i <= k < |tab| ==> Points(cells, heads[k], tab[k]))
    && Rehashing(tab, s, model, chains, s', m, i, 0, left)
    && chains == AllMovedTo(none, s', tab, i)
  }

  lemma EnterBucket<K(!new), V>(cells: Memory<K, V>, heads: seq<Option<nat>>, tab: seq<Chain<K, V>>, s: Spread<K>,
                                model: map<K, V>, i: nat, heads': seq<Option<nat>>, none: seq<Chain<K, V>>,
                                chains: seq<Chain<K, V>>, s': Spread<K>, m: map<K, V>, left: int)
    requires BetweenBuckets(cells, heads, tab, s, model, i, heads', none, chains, s', m, left) && i < |tab|
    ensures Moving(cells, heads, tab, i, 0, heads[i], heads', chains)
  {
    assert tab[i][0..] == tab[i];
  }

  /** Whether the loop stops behind the last bucket or because nothing is counted any more,
      the new table holds everything, as if all buckets had been moved. */
  lemma EndOfMove<K(!new), V>(cells: Memory<K, V>, heads: seq<Option<nat>>, tab: seq<Chain<K, V>>, s: Spread<K>,
                              model: map<K, V>, i: nat, heads': seq<Option<nat>>, none: seq<Chain<K, V>>,
                              chains: seq<Chain<K, V>>, s': Spread<K>, m: map<K, V>, left: int)
    requires
      && BetweenBuckets(cells, heads, tab, s, model, i, heads', none, chains, s', m, left)
      && (i == |tab| || left <= 0)
    ensures
      && left == 0
      && Realizes(cells, heads', chains)
      && Holds(chains, s', model)
      && chains == AllMovedTo(none, s', tab, |tab|)
  {
    AllMoved(tab, s, model, chains, s', m, i, left);
    RestIsEmpty(tab, s, model, i);
    EmptyBucketsMoveNothing(none, s', tab, i, |tab|);
  }

  /** Inside bucket `i`: the first `j` entries were moved, in their order. */
  ghost predicate MidBucket<K(!new), V>(cells: Memory<K, V>, heads: seq<Option<nat>>, tab: seq<Chain<K, V>>,
                                        s: Spread<K>, model: map<K, V>, i: nat, j: nat, he: Option<nat>,
                                        heads': seq<Option<nat>>, chains: seq<Chain<K, V>>, chains': seq<Chain<K, V>>,
                                        s': Spread<K>, m: map<K, V>, left: int)
  {
    && Moving(cells, heads, tab, i, j, he, heads', chains')
    && Rehashing(tab, s, model, chains', s', m, i, j, left)
    && chains' == MovedTo(chains, s', tab[i], j)
  }

  lemma MidBucketDone<K(!new), V>(cells: Memory<K, V>, heads: seq<Option<nat>>, tab: seq<Chain<K, V>>, s: Spread<K>,
                                  model: map<K, V>, i: nat, j: nat, he: Option<nat>, heads': seq<Option<nat>>,
                                  chains: seq<Chain<K, V>>, chains': seq<Chain<K, V>>, s': Spread<K>, m: map<K, V>,
                                  left: int)
    requires MidBucket(cells, heads, tab, s, model, i, j, he, heads', chains, chains', s', m, left) && he.None?
    ensures j == |tab[i]| && Rehashing(tab, s, model, chains', s', m, i + 1, 0, left)
  {
    assert tab[i][j..] == [];
    BucketDone(tab, s, model, chains', s', m, i, j, left);
  }

  /** One turn of that loop. */
  method MoveFirst<K(!new), V>(cells: Memory<K, V>, he: nat, hash: K -> nat, mask: nat, into: array<Option<nat>>,
                               left: nat, ghost heads: seq<Option<nat>>, ghost tab: seq<Chain<K, V>>,
                               ghost s: Spread<K>, ghost model: map<K, V>, ghost m: map<K, V>, ghost i: nat,
                               ghost j: nat, ghost chains0: seq<Chain<K, V>>, ghost chains: seq<Chain<K, V>>)
    returns (cells': Memory<K, V>, nextHe: Option<nat>, left': nat, ghost m': map<K, V>,
             ghost chains': seq<Chain<K, V>>, ghost j': nat)
    requires MidBucket(cells, heads, tab, s, model, i, j, Some(he), into[..], chains0, chains, Spread(hash, mask), m,
                       left)
    modifies into
    ensures MidBucket(cells', heads, tab, s, model, i, j', nextHe, into[..], chains0, chains', Spread(hash, mask), m',
                      left')
    ensures j < j' <= |tab[i]|
  {
    ghost var s', before := Spread(hash, mask), into[..];
    nextHe := cells[he].next;
    var h := And(hash(cells[he].key), mask);
    m', chains', j' := MidBucketStep(cells, heads, tab, s, model, i, j, he, before, chains0, chains, s', m, left, h);
    left' := left - 1;
    cells' := cells[he := cells[he].(next := into[h])];
    into[h] := Some(he);
    assert into[..] == before[h := Some(he)];
  }

  lemma MidBucketStep<K(!new), V>(cells: Memory<K, V>, heads: seq<Option<nat>>, tab: seq<Chain<K, V>>, s: Spread<K>,
                                  model: map<K, V>, i: nat, j: nat, he: nat, heads': seq<Option<nat>>,
                                  chains0: seq<Chain<K, V>>, chains: seq<Chain<K, V>>, s': Spread<K>, m: map<K, V>,
                                  left: int, h: nat)
    returns (m': map<K, V>, chains': seq<Chain<K, V>>, j': nat)
    requires MidBucket(cells, heads, tab, s, model, i, j, Some(he), heads', chains0, chains, s', m, left)
    requires he < |cells| && h == s'.Slot(cells[he].key)
    ensures h < |heads'| && j < j' <= |tab[i]| && left > 0
    ensures MidBucket(cells[he := cells[he].(next := heads'[h])], heads, tab, s, model, i, j', cells[he].next,
                      heads'[h := Some(he)], chains0, chains', s', m', left - 1)
  {
    var e := tab[i][j];
    OneEntry(tab, s, model, chains, s', m, i, j, left);
    MoveNode(cells, heads, tab, i, j, he, heads', chains, s, model, s', m, left, e, h);
    m', chains', j' := m[e.key := e.val], chains[h := [e] + chains[h]], j + 1;
  }

  /** Two changes, to nodes with keys of one bucket, leave the other buckets alone. */
  lemma OtherBuckets<K(!new), V>(a: Memory<K, V>, b: Memory<K, V>, c: Memory<K, V>, heads: seq<Option<nat>>,
                                 tab: seq<Chain<K, V>>, s: Spread<K>, model: map<K, V>, h: nat, k: K, k': K)
    requires Realizes(a, heads, tab) && Holds(tab, s, model) && s.Slot(k) == s.Slot(k') == h
    requires OnlyAt(a, b, k) && OnlyAt(b, c, k')
    ensures forall i :: 0 <= i < |tab| && i != h ==> Points(c, heads[i], tab[i])
  {
    forall i | 0 <= i < |tab| && i != h
      ensures Points(c, heads[i], tab[i])
    {
      assert InBucket(tab[i], i, s, model);
      PointsFrame(a, b, heads[i], tab[i], k);
      PointsFrame(b, c, heads[i], tab[i], k');
    }
  }

  /** Every pointer to a list still leads to it. */
  ghost predicate StillLead<K, V>(cells: Memory<K, V>, cells': Memory<K, V>, rest: Chain<K, V>) {
    |cells| <= |cells'| && forall p: Option<nat> :: Points(cells, p, rest) ==> Points(cells', p, rest)
  }

  /** They leave the rest of their own bucket alone, too. */
  lemma RestOfBucket<K, V>(a: Memory<K, V>, b: Memory<K, V>, c: Memory<K, V>, chain: Chain<K, V>, j: nat, k: K)
    requires DistinctKeys(chain) && j < |chain|
    requires k == (if j == 0 then chain[j].key else chain[j - 1].key) && OnlyAt(a, b, k) && OnlyAt(b, c, chain[j].key)
    ensures StillLead(a, c, chain[j + 1..])
  {
    var rest := chain[j + 1..];
    forall p: Option<nat> | Points(a, p, rest)
      ensures Points(c, p, rest)
    {
      PointsFrame(a, b, p, rest, k);
      PointsFrame(b, c, p, rest, chain[j].key);
    }
  }
}
