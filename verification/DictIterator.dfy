/**
 Iterating over a hash table whose caller may delete the entry it was just given, and
 runs of operations on a table.
 */
module DictIterator {
  import opened Bytes
  import opened DictChains
  import opened DictNodes
  import opened Dict

  /** All entries from one bucket on, bucket after bucket. */
  function From<K, V>(tab: seq<Chain<K, V>>, i: nat): Chain<K, V>
    decreases |tab| - i
  {
    if i < |tab| then tab[i] + From(tab, i + 1) else []
  }

  lemma {:induction false} FromMember<K, V>(tab: seq<Chain<K, V>>, i: nat, e: Entry<K, V>)
    ensures e in From(tab, i) <==> exists j :: i <= j < |tab| && e in tab[j]
    decreases |tab| - i
  {
    if i < |tab| {
      FromMember(tab, i + 1, e);
      if j :| i <= j < |tab| && e in tab[j] {
        assert j == i || i + 1 <= j;
      }
    }
  }

  lemma {:induction false} FromSame<K, V>(tab: seq<Chain<K, V>>, tab': seq<Chain<K, V>>, i: nat)
    requires |tab| == |tab'| && forall j :: i <= j < |tab| ==> tab[j] == tab'[j]
    ensures From(tab, i) == From(tab', i)
    decreases |tab| - i
  {
    if i < |tab| {
      FromSame(tab, tab', i + 1);
    }
  }

  /** A chain lists the pairs of a map. */
  ghost predicate Lists<K, V>(chain: Chain<K, V>, model: map<K, V>) {
    && (forall e :: e in chain ==> e.key in model && model[e.key] == e.val)
    && (forall k :: k in model ==> Entry(k, model[k]) in chain)
  }

  /** Bucket after bucket, every pair of the map is listed, and listed once. */
  lemma AllListed<K(!new), V>(tab: seq<Chain<K, V>>, s: Spread<K>, model: map<K, V>)
    requires Holds(tab, s, model)
    ensures DistinctKeys(From(tab, 0)) && Lists(From(tab, 0), model)
  {
    FromDistinct(tab, 0, s, model);
    forall e | e in From(tab, 0)
      ensures e.key in model && model[e.key] == e.val
    {
      FromMember(tab, 0, e);
      var i :| 0 <= i < |tab| && e in tab[i];
      assert InBucket(tab[i], i, s, model);
    }
    forall k | k in model
      ensures Entry(k, model[k]) in From(tab, 0)
    {
      assert Stored(tab, s, k);
      var h := s.Slot(k);
      assert InBucket(tab[h], h, s, model);
      var j :| 0 <= j < |tab[h]| && tab[h][j].key == k;
      assert tab[h][j] == Entry(k, model[k]);
      FromMember(tab, 0, tab[h][j]);
    }
  }

  lemma {:induction false} FromDistinct<K(!new), V>(tab: seq<Chain<K, V>>, i: nat, s: Spread<K>, model: map<K, V>)
    requires Holds(tab, s, model)
    ensures DistinctKeys(From(tab, i))
    ensures forall j :: 0 <= j < |From(tab, i)| ==> s.Slot(From(tab, i)[j].key) >= i
    decreases |tab| - i
  {
    if i < |tab| {
      assert InBucket(tab[i], i, s, model);
      FromDistinct(tab, i + 1, s, model);
    }
  }

  /** With a current entry, the saved pointer leads to the rest of its bucket, which is what
      comes from position `pos` on. */
  ghost predicate Placed<K(!new), V>(cells: Memory<K, V>, tab: seq<Chain<K, V>>, index: int, entry: Option<nat>,
                                     nextEntry: Option<nat>, pos: nat, rest: Chain<K, V>)
  {
    && -1 <= index
    && (if entry.Some? then Arrived(cells, tab, index, nextEntry, pos, rest) else rest == [])
  }

  /** A pointer to this part of a bucket. */
  ghost predicate Arrived<K(!new), V>(cells: Memory<K, V>, tab: seq<Chain<K, V>>, index: int, entry: Option<nat>,
                                      pos: nat, rest: Chain<K, V>)
  {
    0 <= index < |tab| && pos <= |tab[index]| && rest == tab[index][pos..] && Points(cells, entry, rest)
  }

  /** The loop of dictNext: advances until there is an entry or no bucket is left. */
  method Seek<K(!new), V>(cells: Memory<K, V>, table: array<Option<nat>>, index: int, entry: Option<nat>,
                          nextEntry: Option<nat>, ghost tab: seq<Chain<K, V>>, ghost pos: nat, ghost rest: Chain<K, V>)
    returns (index': int, entry': Option<nat>, ghost pos': nat, ghost rest': Chain<K, V>)
    requires Realizes(cells, table[..], tab) && Placed(cells, tab, index, entry, nextEntry, pos, rest)
    ensures if entry'.Some? then Arrived(cells, tab, index', entry', pos', rest') else index' >= |tab| && rest' == []
    ensures rest + From(tab, index + 1) == rest' + From(tab, index' + 1)
  {
    index', entry', pos', rest' := index, entry, pos, rest;
    while true
      invariant Placed(cells, tab, index', entry', nextEntry, pos', rest')
      invariant rest + From(tab, index + 1) == rest' + From(tab, index' + 1)
      decreases table.Length - index', entry'.Some?
    {
      var more;
      more, index', entry', pos', rest' := Advance(cells, table, index', entry', nextEntry, tab, pos', rest');
      if !more || entry'.Some? {
        return;
      }
    }
  }

  /** One round: takes the saved pointer or, without a current entry, the head of the next
      bucket. */
  method Advance<K(!new), V>(cells: Memory<K, V>, table: array<Option<nat>>, index: int, entry: Option<nat>,
                             nextEntry: Option<nat>, ghost tab: seq<Chain<K, V>>, ghost pos: nat,
                             ghost rest: Chain<K, V>)
    returns (more: bool, index': int, entry': Option<nat>, ghost pos': nat, ghost rest': Chain<K, V>)
    requires Realizes(cells, table[..], tab) && Placed(cells, tab, index, entry, nextEntry, pos, rest)
    ensures if more then Arrived(cells, tab, index', entry', pos', rest')
            else index' >= |tab| && entry' == None && rest' == []
    ensures index' == if entry.Some? then index else index + 1
    ensures entry'.None? ==> rest' == []
    ensures rest + From(tab, index + 1) == rest' + From(tab, index' + 1)
  {
    if entry.Some? {
      return true, index, nextEntry, pos, rest;
    }
    if index + 1 >= table.Length {
      return false, index + 1, None, 0, [];
    }
    assert Points(cells, table[..][index + 1], tab[index + 1]);
    return true, index + 1, table[index + 1], 0, tab[index + 1];
  }

  /** dictNext on the fields of the iterator. */
  method Take<K(!new), V>(cells: Memory<K, V>, table: array<Option<nat>>, index: int, entry: Option<nat>,
                          nextEntry: Option<nat>, ghost tab: seq<Chain<K, V>>, ghost pos: nat, ghost rest: Chain<K, V>)
    returns (e: Option<Entry<K, V>>, index': int, entry': Option<nat>, nextEntry': Option<nat>, ghost pos': nat,
             ghost rest': Chain<K, V>)
    requires Realizes(cells, table[..], tab) && Placed(cells, tab, index, entry, nextEntry, pos, rest)
    ensures Placed(cells, tab, index', entry', nextEntry', pos', rest')
    ensures rest + From(tab, index + 1) == (if e.Some? then [e.value] else []) + (rest' + From(tab, index' + 1))
    ensures if e.Some? then entry'.Some? && JustBehind(tab, index', pos', e.value.key)
            else index' >= |tab| && rest' == []
  {
    nextEntry' := nextEntry;
    index', entry', pos', rest' := Seek(cells, table, index, entry, nextEntry, tab, pos, rest);
    if entry'.None? {
      return None, index', entry', nextEntry', pos', rest';
    }
    var node := cells[entry'.value];
    nextEntry' := node.next;
    e := Some(node.Entry());
    ReturnFirst(cells, tab, index', entry', pos', rest');
    pos', rest' := pos' + 1, rest'[1..];
  }

  ghost predicate JustBehind<K(!new), V>(tab: seq<Chain<K, V>>, index: int, pos: nat, key: K) {
    0 <= index < |tab| && 0 < pos <= |tab[index]| && tab[index][pos - 1].key == key
  }

  lemma ReturnFirst<K(!new), V>(cells: Memory<K, V>, tab: seq<Chain<K, V>>, index: int, entry: Option<nat>, pos: nat,
                                rest: Chain<K, V>)
    requires Arrived(cells, tab, index, entry, pos, rest) && entry.Some?
    ensures rest != [] && entry.value < |cells|
    ensures
      var node := cells[entry.value];
      && rest[0] == node.Entry() && rest[0] == tab[index][pos]
      && Arrived(cells, tab, index, node.next, pos + 1, rest[1..])
      && rest + From(tab, index + 1) == [node.Entry()] + (rest[1..] + From(tab, index + 1))
  {
  }

  class Iterator<K(==, !new), V> {
    const ht: Dict<K, V>
    var index: int
    var entry: Option<nat>
    var nextEntry: Option<nat>
    ghost var pos: nat
    ghost var rest: Chain<K, V>

    ghost predicate Valid()
      reads this, ht, ht.table
    {
      ht.Valid() && Placed(ht.cells, ht.tab, index, entry, nextEntry, pos, rest)
    }

    /** What is yet to be returned. */
    ghost function Left(): Chain<K, V>
      requires Valid()
      reads this, ht, ht.table
    {
      rest + From(ht.tab, index + 1)
    }

    /** The iterator has just returned an entry with this key. */
    ghost predicate Behind(key: K)
      reads this, ht
    {
      entry.Some? && JustBehind(ht.tab, index, pos, key)
    }

    /** dictGetIterator. */
    constructor (ht: Dict<K, V>)
      requires ht.Valid()
      ensures Valid() && this.ht == ht && Left() == From(ht.tab, 0)
    {
      this.ht := ht;
      index, entry, nextEntry := -1, None, None;
      pos, rest := 0, [];
    }

    /** dictNext: returns the first of what is left, if anything is. */
    method Next() returns (e: Option<Entry<K, V>>)
      requires Valid()
      modifies this
      ensures Valid()
      ensures old(Left()) == (if e.Some? then [e.value] else []) + Left()
      ensures if e.Some? then Behind(e.value.key) else Left() == []
    {
      e, index, entry, nextEntry, pos, rest := Take(ht.cells, ht.table, index, entry, nextEntry, ht.tab, pos, rest);
    }
  }

  /** A map without the entries that were visited and dropped. */
  ghost function Kept<K, V>(model: map<K, V>, visited: Chain<K, V>, drop: Entry<K, V> -> bool): map<K, V> {
    if visited == [] then model else
      var m, e := Kept(model, visited[..|visited| - 1], drop), visited[|visited| - 1];
      if drop(e) then m - {e.key} else m
  }

  lemma {:induction false} KeptKeys<K, V>(model: map<K, V>, visited: Chain<K, V>, drop: Entry<K, V> -> bool, k: K)
    requires forall e :: e in visited ==> e.key in model && model[e.key] == e.val
    ensures k in Kept(model, visited, drop) <==>
      k in model && !(drop(Entry(k, model[k])) && Entry(k, model[k]) in visited)
    ensures k in Kept(model, visited, drop) ==> Kept(model, visited, drop)[k] == model[k]
  {
    if visited != [] {
      var before, e := visited[..|visited| - 1], visited[|visited| - 1];
      KeptKeys(model, before, drop, k);
      assert visited == before + [e];
      assert e in visited;
    }
  }

  lemma KeptAll<K(!new), V>(model: map<K, V>, visited: Chain<K, V>, drop: Entry<K, V> -> bool)
    requires Lists(visited, model)
    ensures Kept(model, visited, drop) == map k | k in model && !drop(Entry(k, model[k])) :: model[k]
  {
    var m := Kept(model, visited, drop);
    forall k
      ensures k in m <==> k in model && !drop(Entry(k, model[k]))
      ensures k in m ==> m[k] == model[k]
    {
      KeptKeys(model, visited, drop, k);
    }
  }

  /** A full pass that deletes some of the entries, each right after it was returned. It
      meets every entry that was in the table, once, and leaves those not deleted. */
  method Traverse<K(!new), V>(d: Dict<K, V>, drop: Entry<K, V> -> bool) returns (visited: Chain<K, V>)
    requires d.Valid()
    modifies d, d.table
    ensures d.Valid() && DistinctKeys(visited) && Lists(visited, old(d.model))
    ensures d.model == map k | k in old(d.model) && !drop(Entry(k, old(d.model)[k])) :: old(d.model)[k]
  {
    ghost var all := From(d.tab, 0);
    AllListed(d.tab, d.S(), d.model);
    visited := Pass(d, drop, all);
    KeptAll(old(d.model), visited, drop);
  }

  method Pass<K(!new), V>(d: Dict<K, V>, drop: Entry<K, V> -> bool, ghost all: Chain<K, V>)
    returns (visited: Chain<K, V>)
    requires d.Valid() && all == From(d.tab, 0)
    modifies d, d.table
    ensures d.Valid() && visited == all
    ensures d.model == Kept(old(d.model), visited, drop)
  {
    var it := new Iterator(d);
    visited := [];
    while true
      invariant fresh(it) && it.ht == d && it.Valid() && d.table == old(d.table)
      invariant visited + it.Left() == all
      invariant d.model == Kept(old(d.model), visited, drop)
      decreases |it.Left()|
    {
      ghost var left := it.Left();
      var e := it.Next();
      if e.None? {
        return;
      }
      if drop(e.value) {
        DeleteLast(it, e.value.key);
      }
      VisitOne(visited, e.value, it.Left());
      visited := visited + [e.value];
    }
  }

  lemma VisitOne<K, V>(visited: Chain<K, V>, e: Entry<K, V>, left: Chain<K, V>)
    ensures visited + ([e] + left) == (visited + [e]) + left
    ensures (visited + [e])[..|visited + [e]| - 1] == visited
  {
  }

  /** Deletes the entry that an iterator has just returned: its node is freed, and what the
      iterator has left to return stays the same. */
  method DeleteLast<K(!new), V>(it: Iterator<K, V>, key: K)
    requires it.Valid() && it.Behind(key)
    modifies it.ht, it.ht.table, it`pos
    ensures it.ht.table == old(it.ht.table) && it.Valid() && it.Left() == old(it.Left())
    ensures it.ht.model == old(it.ht.model) - {key}
  {
    DeleteAt(it.ht, key, it.index, it.nextEntry, it.pos, it.rest);
    it.pos := it.pos - 1;
  }

  /** Deletes the entry before the one that a pointer leads to. */
  method DeleteAt<K(!new), V>(d: Dict<K, V>, key: K, ghost h: nat, ghost next: Option<nat>, ghost pos: nat,
                              ghost rest: Chain<K, V>)
    requires d.Valid() && JustBehind(d.tab, h, pos, key) && Arrived(d.cells, d.tab, h, next, pos, rest)
    modifies d, d.table
    ensures d.Valid() && d.table == old(d.table) && d.model == old(d.model) - {key}
    ensures Arrived(d.cells, d.tab, h, next, pos - 1, rest) && From(d.tab, h + 1) == From(old(d.tab), h + 1)
  {
    ghost var cells, tab, s, model := d.cells, d.tab, d.S(), d.model;
    LastReturned(tab, s, model, h, pos, key, pos - 1);
    ghost var j;
    var ok;
    ok, j := d.Delete(key);
    LastReturned(tab, s, model, h, pos, key, j);
    DeleteBehind(cells, d.cells, tab, h, pos, next, rest);
  }

  /** The entry just returned is in its own bucket, and the only one with its key. */
  lemma LastReturned<K(!new), V>(tab: seq<Chain<K, V>>, s: Spread<K>, model: map<K, V>, h: nat, pos: nat, key: K,
                                 j: nat)
    requires Holds(tab, s, model) && JustBehind(tab, h, pos, key) && j < |tab[h]| && tab[h][j].key == key
    ensures key in model && s.Slot(key) == h && j == pos - 1
  {
    assert InBucket(tab[h], h, s, model);
  }

  lemma DeleteBehind<K(!new), V>(cells: Memory<K, V>, cells': Memory<K, V>, tab: seq<Chain<K, V>>, h: nat, pos: nat,
                                 nextEntry: Option<nat>, rest: Chain<K, V>)
    requires Arrived(cells, tab, h, nextEntry, pos, rest) && pos > 0 && StillLead(cells, cells', tab[h][pos..])
    ensures
      var tab' := tab[h := Unlinked(tab[h], pos - 1)];
      Arrived(cells', tab', h, nextEntry, pos - 1, rest) && From(tab', h + 1) == From(tab, h + 1)
  {
    assert Unlinked(tab[h], pos - 1)[pos - 1..] == tab[h][pos..];
    FromSame(tab, tab[h := Unlinked(tab[h], pos - 1)], h + 1);
  }

  // ---- Runs ----

  datatype Op<K, V> = OpAdd(key: K, val: V) | OpReplace(key: K, val: V) | OpDelete(key: K) | OpFind(key: K)

  /** What a caller sees: success, or the value found. */
  datatype Answer<V> = Done(ok: bool) | Found(val: Option<V>)

  /** The operations on a plain map. */
  function OnMap<K, V>(model: map<K, V>, op: Op<K, V>): (map<K, V>, Answer<V>) {
    match op
    case OpAdd(k, v) => if k in model then (model, Done(false)) else (model[k := v], Done(true))
    case OpReplace(k, v) => (model[k := v], Done(k !in model))
    case OpDelete(k) => (model - {k}, Done(k in model))
    case OpFind(k) => (model, Found(if k in model then Some(model[k]) else None))
  }

  function Answers<K, V>(model: map<K, V>, ops: seq<Op<K, V>>): (map<K, V>, seq<Answer<V>>) {
    if ops == [] then (model, []) else
      var (m, before) := Answers(model, ops[..|ops| - 1]);
      var (m', a) := OnMap(m, ops[|ops| - 1]);
      (m', before + [a])
  }

  /** One operation on the table. */
  method Perform<K(!new), V>(d: Dict<K, V>, op: Op<K, V>) returns (a: Answer<V>)
    requires d.Valid()
    modifies d, d.table
    ensures d.Valid() && (d.table == old(d.table) || fresh(d.table))
    ensures (d.model, a) == OnMap(old(d.model), op)
  {
    match op
    case OpAdd(k, v) =>
      var ok := d.Add(k, v);
      a := Done(ok);
    case OpReplace(k, v) =>
      var added := d.Replace(k, v);
      a := Done(added == 1);
    case OpDelete(k) =>
      var ok, _ := d.Delete(k);
      a := Done(ok);
    case OpFind(k) =>
      var e := d.Find(k);
      a := Found(if e.Some? then Some(d.cells[e.value].val) else None);
  }

  /** Over every run from an empty table, with every hash function, the table answers as
      a plain map does. */
  method Drive<K(==, !new), V>(hash: K -> nat, ops: seq<Op<K, V>>) returns (d: Dict<K, V>, answers: seq<Answer<V>>)
    ensures d.Valid() && fresh(d) && (d.model, answers) == Answers(map[], ops)
  {
    d := new Dict(hash);
    answers := [];
    for i := 0 to |ops|
      invariant d.Valid() && fresh(d) && fresh(d.table)
      invariant (d.model, answers) == Answers(map[], ops[..i])
    {
      assert ops[..i + 1][..i] == ops[..i];
      var a := Perform(d, ops[i]);
      answers := answers + [a];
    }
    assert ops[..|ops|] == ops;
  }
}
