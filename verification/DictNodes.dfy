/**
 The linked lists behind the chains of a hash table: nodes in memory with `next` pointers.
 A pointer is the index of a node; a node that was freed is no longer live.
 */
module DictNodes {
  import opened Bytes
  import opened DictChains

  datatype Node<K, V> = Node(key: K, val: V, next: Option<nat>, live: bool) {
    function Entry(): Entry<K, V> {
      DictChains.Entry(key, val)
    }
  }

  type Memory<K, V> = seq<Node<K, V>>

  /** The list that starts at `head` holds the entries of a chain, and ends there. */
  ghost predicate Points<K, V>(cells: Memory<K, V>, head: Option<nat>, chain: Chain<K, V>)
    decreases |chain|
  {
    if chain == [] then head.None?
    else
      && head.Some? && head.value < |cells| && cells[head.value].live
      && cells[head.value].Entry() == chain[0]
      && Points(cells, cells[head.value].next, chain[1..])
  }

  /** The pointer to entry `j` of a list, or the one behind its last entry. */
  function PointerAt<K, V>(cells: Memory<K, V>, head: Option<nat>, j: nat): Option<nat>
    decreases j
  {
    if j == 0 then head
    else if head.Some? && head.value < |cells| then PointerAt(cells, cells[head.value].next, j - 1)
    else None
  }

  lemma {:induction false} PointsAt<K, V>(cells: Memory<K, V>, head: Option<nat>, chain: Chain<K, V>, j: nat)
    requires Points(cells, head, chain) && j <= |chain|
    ensures Points(cells, PointerAt(cells, head, j), chain[j..])
    decreases j
  {
    if j > 0 {
      PointsAt(cells, cells[head.value].next, chain[1..], j - 1);
      assert chain[1..][j - 1..] == chain[j..];
    }
  }

  lemma {:induction false} PointerNext<K, V>(cells: Memory<K, V>, head: Option<nat>, chain: Chain<K, V>, j: nat)
    requires Points(cells, head, chain) && j < |chain|
    ensures
      var p := PointerAt(cells, head, j);
      && p.Some? && p.value < |cells| && cells[p.value].live && cells[p.value].Entry() == chain[j]
      && PointerAt(cells, head, j + 1) == cells[p.value].next
    decreases j
  {
    if j > 0 {
      PointerNext(cells, cells[head.value].next, chain[1..], j - 1);
    }
  }

  // ---- Frames ----

  /** Only nodes with a certain key may have changed, and nodes may have been added. */
  ghost predicate OnlyAt<K, V>(cells: Memory<K, V>, cells': Memory<K, V>, key: K) {
    |cells| <= |cells'| && forall n :: 0 <= n < |cells| && cells[n].key != key ==> cells'[n] == cells[n]
  }

  lemma {:induction false} PointsFrame<K, V>(cells: Memory<K, V>, cells': Memory<K, V>, head: Option<nat>,
                                             chain: Chain<K, V>, key: K)
    requires Points(cells, head, chain) && OnlyAt(cells, cells', key) && !HasKey(chain, key)
    ensures Points(cells', head, chain)
    decreases |chain|
  {
    if chain != [] {
      TailLacksKey(chain, key);
      PointsFrame(cells, cells', cells[head.value].next, chain[1..], key);
    }
  }

  lemma TailLacksKey<K, V>(chain: Chain<K, V>, key: K)
    requires chain != [] && !HasKey(chain, key)
    ensures chain[0].key != key && !HasKey(chain[1..], key)
  {
  }

  lemma TailDistinct<K, V>(chain: Chain<K, V>)
    requires chain != [] && DistinctKeys(chain)
    ensures DistinctKeys(chain[1..]) && !HasKey(chain[1..], chain[0].key)
  {
  }

  // ---- Changing a list ----

  /** A new node in front. */
  lemma PushFront<K, V>(cells: Memory<K, V>, head: Option<nat>, chain: Chain<K, V>, node: Node<K, V>)
    requires Points(cells, head, chain) && !HasKey(chain, node.key) && node.next == head && node.live
    ensures Points(cells + [node], Some(|cells|), [node.Entry()] + chain)
  {
    PointsFrame(cells, cells + [node], head, chain, node.key);
    assert ([node.Entry()] + chain)[1..] == chain;
  }

  /** A node with another value. */
  lemma {:induction false} SetNode<K, V>(cells: Memory<K, V>, head: Option<nat>, chain: Chain<K, V>, j: nat, p: nat,
                                         val: V)
    requires
      && Points(cells, head, chain)
      && DistinctKeys(chain)
      && j < |chain|
      && PointerAt(cells, head, j) == Some(p)
      && p < |cells|
    ensures Points(cells[p := cells[p].(val := val)], head, chain[j := DictChains.Entry(chain[j].key, val)])
    decreases j
  {
    var cells' := cells[p := cells[p].(val := val)];
    var chain' := chain[j := DictChains.Entry(chain[j].key, val)];
    var next := cells[head.value].next;
    TailDistinct(chain);
    if j == 0 {
      PointsFrame(cells, cells', next, chain[1..], chain[0].key);
      assert chain'[1..] == chain[1..];
    } else {
      PointerNext(cells, head, chain, j);
      SetNode(cells, next, chain[1..], j - 1, p, val);
      assert chain'[1..] == chain[1..][j - 1 := DictChains.Entry(chain[j].key, val)];
    }
  }

  /** The node before entry `j` is linked to the one behind it. */
  lemma {:induction false} Relink<K, V>(cells: Memory<K, V>, head: Option<nat>, chain: Chain<K, V>, j: nat, prev: nat,
                                        de: nat)
    requires Points(cells, head, chain) && DistinctKeys(chain) && 0 < j < |chain|
    requires
      && PointerAt(cells, head, j - 1) == Some(prev)
      && PointerAt(cells, head, j) == Some(de)
      && prev < |cells|
      && de < |cells|
    ensures Points(cells[prev := cells[prev].(next := cells[de].next)], head, Unlinked(chain, j))
    decreases j
  {
    var cells' := cells[prev := cells[prev].(next := cells[de].next)];
    var next := cells[head.value].next;
    TailDistinct(chain);
    PointerNext(cells, head, chain, j - 1);
    PointerNext(cells, head, chain, j);
    if j == 1 {
      assert chain[1..][1..] == chain[2..];
      assert !HasKey(chain[2..], chain[0].key);
      PointsFrame(cells, cells', cells[de].next, chain[2..], chain[0].key);
      assert Unlinked(chain, 1)[1..] == chain[2..];
    } else {
      Relink(cells, next, chain[1..], j - 1, prev, de);
      assert Unlinked(chain, j)[1..] == Unlinked(chain[1..], j - 1);
    }
  }

  /** Unlinking an entry from its list and freeing its node. */
  lemma UnlinkNode<K, V>(cells: Memory<K, V>, head: Option<nat>, chain: Chain<K, V>, j: nat, prev: Option<nat>, de: nat)
    requires Points(cells, head, chain) && DistinctKeys(chain) && j < |chain|
    requires
      && prev == (if j == 0 then None else PointerAt(cells, head, j - 1))
      && PointerAt(cells, head, j) == Some(de)
      && de < |cells|
    requires prev.Some? ==> prev.value < |cells|
    ensures
      var next := cells[de].next;
      var linked := if prev.Some? then cells[prev.value := cells[prev.value].(next := next)] else cells;
      Points(linked[de := linked[de].(live := false)], if prev.Some? then head else next, Unlinked(chain, j))
  {
    var next := cells[de].next;
    var linked := if prev.Some? then cells[prev.value := cells[prev.value].(next := next)] else cells;
    var head' := if prev.Some? then head else next;
    PointerNext(cells, head, chain, j);
    if j == 0 {
      assert Unlinked(chain, 0) == chain[1..];
    } else {
      PointerNext(cells, head, chain, j - 1);
      Relink(cells, head, chain, j, prev.value, de);
    }
    UnlinkedLacks(chain, j);
    PointsFrame(linked, linked[de := linked[de].(live := false)], head', Unlinked(chain, j), chain[j].key);
  }

  lemma UnlinkedLacks<K, V>(chain: Chain<K, V>, j: nat)
    requires DistinctKeys(chain) && j < |chain|
    ensures !HasKey(Unlinked(chain, j), chain[j].key)
  {
  }

  // ---- Tables ----

  /** Each bucket's list holds its chain. */
  ghost predicate Realizes<K, V>(cells: Memory<K, V>, heads: seq<Option<nat>>, tab: seq<Chain<K, V>>) {
    |heads| == |tab| && forall i :: 0 <= i < |tab| ==> Points(cells, heads[i], tab[i])
  }

  /** A change to nodes with one key leaves the buckets alone in which the key is not. */
  lemma RealizesFrame<K(!new), V>(cells: Memory<K, V>, cells': Memory<K, V>, heads: seq<Option<nat>>,
                                  tab: seq<Chain<K, V>>, s: Spread<K>, model: map<K, V>, h: nat, key: K)
    requires Realizes(cells, heads, tab) && Holds(tab, s, model) && OnlyAt(cells, cells', key) && h == s.Slot(key)
    ensures forall i :: 0 <= i < |tab| && i != h ==> Points(cells', heads[i], tab[i])
  {
    forall i | 0 <= i < |tab| && i != h
      ensures Points(cells', heads[i], tab[i])
    {
      assert InBucket(tab[i], i, s, model);
      PointsFrame(cells, cells', heads[i], tab[i], key);
    }
  }

  // ---- Moving nodes to another table ----

  /** The rest of bucket `i` hangs from `he`, the later buckets from their heads, and what
      was moved from the new heads. */
  ghost predicate Moving<K, V>(cells: Memory<K, V>, heads: seq<Option<nat>>, tab: seq<Chain<K, V>>, i: nat, j: nat,
                                 he: Option<nat>, heads': seq<Option<nat>>, into: seq<Chain<K, V>>)
  {
    && |heads| == |tab| && i < |tab| && j <= |tab[i]| && Points(cells, he, tab[i][j..])
    && (forall k :: i < k < |tab| ==> Points(cells, heads[k], tab[k]))
    && Realizes(cells, heads', into)
  }

  /** One node is taken from its old list and put in front of its new one. */
  lemma MoveNode<K(!new), V>(cells: Memory<K, V>, heads: seq<Option<nat>>, tab: seq<Chain<K, V>>, i: nat, j: nat,
                             p: nat, heads': seq<Option<nat>>, into: seq<Chain<K, V>>, s: Spread<K>, model: map<K, V>,
                             s': Spread<K>, m: map<K, V>, used: int, e: Entry<K, V>, h: nat)
    requires Moving(cells, heads, tab, i, j, Some(p), heads', into) && j < |tab[i]|
    requires Rehashing(tab, s, model, into, s', m, i, j, used) && e == tab[i][j] && h == s'.Slot(e.key) < |into|
    ensures p < |cells| && cells[p].Entry() == e
    ensures Moving(cells[p := cells[p].(next := heads'[h])], heads, tab, i, j + 1, cells[p].next,
                   heads'[h := Some(p)], into[h := [e] + into[h]])
  {
    var cells' := cells[p := cells[p].(next := heads'[h])];
    MoveOne(tab, s, model, m, i, j);
    assert InBucket(tab[i], i, s, model);
    assert tab[i][j..][1..] == tab[i][j + 1..];
    assert !HasKey(tab[i][j + 1..], e.key);
    PointsFrame(cells, cells', cells[p].next, tab[i][j + 1..], e.key);
    forall k | i < k < |tab|
      ensures Points(cells', heads[k], tab[k])
    {
      assert InBucket(tab[k], k, s, model);
      PointsFrame(cells, cells', heads[k], tab[k], e.key);
    }
    MoveInto(cells, cells', heads', into, s', m, p, e, h);
  }

  /** The new table with the node that was moved into it. */
  lemma MoveInto<K(!new), V>(cells: Memory<K, V>, cells': Memory<K, V>, heads: seq<Option<nat>>, into: seq<Chain<K, V>>,
                             s: Spread<K>, m: map<K, V>, p: nat, e: Entry<K, V>, h: nat)
    requires Realizes(cells, heads, into) && Holds(into, s, m) && e.key !in m && h == s.Slot(e.key) < |into|
    requires p < |cells| && cells[p].live && cells[p].Entry() == e && cells' == cells[p := cells[p].(next := heads[h])]
    ensures Realizes(cells', heads[h := Some(p)], into[h := [e] + into[h]])
  {
    forall t | 0 <= t < |into|
      ensures Points(cells', heads[t], into[t])
    {
      assert InBucket(into[t], t, s, m);
      PointsFrame(cells, cells', heads[t], into[t], e.key);
    }
    assert ([e] + into[h])[1..] == into[h];
  }
}
