/**
 Entries of the configuration tree by path: finding them, and making them.
 */
module ConfigPaths {
  import opened Bytes
  import opened ConfigText
  import opened ConfigTree

  // ---- Fields of a path ----

  predicate IsDivider(b: byte) {
    b == DOT || b == SLASH
  }

  function FieldEnd(path: bytes, i: nat): (e: nat)
    requires i <= |path|
    ensures i <= e <= |path|
    decreases |path| - i
  {
    if i == |path| || IsDivider(path[i]) then i else FieldEnd(path, i + 1)
  }

  function FieldsFrom(path: bytes, i: nat): (fs: seq<bytes>)
    requires i <= |path|
    ensures fs != []
    decreases |path| - i
  {
    var e := FieldEnd(path, i);
    [path[i..e]] + if e == |path| then [] else FieldsFrom(path, e + 1)
  }

  /** The buffer that a path is copied to holds the C string, as far as it fits. */
  function Copied(path: bytes): bytes {
    var s := CString(path);
    if |s| < MAX_LINE then s else s[..MAX_LINE - 1]
  }

  function Fields(path: bytes): seq<bytes> {
    FieldsFrom(Copied(path), 0)
  }

  // ---- Finding ----

  predicate IsChild(nodes: seq<Node>, i: nat, n: nat, key: bytes)
    requires i < |nodes|
  {
    nodes[i].parent == n && nodes[i].key == key
  }

  /** The last child with a key, among the first `i` nodes. */
  function FindBefore(nodes: seq<Node>, n: nat, key: bytes, i: nat): (r: Option<nat>)
    requires i <= |nodes|
    ensures r.Some? ==> r.value < i && IsChild(nodes, r.value, n, key)
  {
    if i == 0 then None else if IsChild(nodes, i - 1, n, key) then Some(i - 1) else FindBefore(nodes, n, key, i - 1)
  }

  function FindChild(nodes: seq<Node>, n: nat, key: bytes): Option<nat> {
    FindBefore(nodes, n, key, |nodes|)
  }

  function Walk(nodes: seq<Node>, n: nat, fields: seq<bytes>): (r: Option<nat>)
    requires IsTree(nodes) && n < |nodes|
    ensures r.Some? ==> n <= r.value < |nodes| && (fields != [] ==> n < r.value)
    decreases |fields|
  {
    if fields == [] then Some(n)
    else
      var c := FindChild(nodes, n, fields[0]);
      if c.None? then None else
        assert Parent(nodes, c.value) == n by { ChildIsLater(nodes, c.value, n); }
        Walk(nodes, c.value, fields[1..])
  }

  lemma ChildIsLater(nodes: seq<Node>, i: nat, n: nat)
    requires IsTree(nodes) && i < |nodes| && nodes[i].parent == n
    ensures 1 <= i && n < i && Parent(nodes, i) == n
  {
    assert i >= 1 ==> Linked(nodes, i);
  }

  /** get: the entry of a path below `n`. */
  function Get(nodes: seq<Node>, n: nat, path: bytes): Option<nat>
    requires IsTree(nodes) && n < |nodes|
  {
    Walk(nodes, n, Fields(path))
  }

  lemma {:induction false} WalkAppend(nodes: seq<Node>, n: nat, a: seq<bytes>, b: seq<bytes>)
    requires IsTree(nodes) && n < |nodes|
    ensures
      var r := Walk(nodes, n, a);
      Walk(nodes, n, a + b) == if r.None? then None else Walk(nodes, r.value, b)
    decreases |a|
  {
    if a == [] {
      assert a + b == b;
    } else {
      assert (a + b)[1..] == a[1..] + b;
      var c := FindChild(nodes, n, a[0]);
      if c.Some? {
        ChildIsLater(nodes, c.value, n);
        WalkAppend(nodes, c.value, a[1..], b);
      }
    }
  }

  /** The way to an entry ends with its parent and its key. */
  lemma WalkEnd(nodes: seq<Node>, n: nat, q: seq<bytes>, x: nat)
    requires IsTree(nodes) && n < |nodes| && q != [] && Walk(nodes, n, q) == Some(x)
    ensures 1 <= x < |nodes| && q[|q| - 1] == nodes[x].key && Walk(nodes, n, q[..|q| - 1]) == Some(Parent(nodes, x))
  {
    var a, f := q[..|q| - 1], q[|q| - 1];
    assert q == a + [f];
    WalkAppend(nodes, n, a, [f]);
    var m := Walk(nodes, n, a).value;
    var c := FindChild(nodes, m, f).value;
    ChildIsLater(nodes, c, m);
    assert [f][1..] == [];
  }

  /** Different fields lead to different entries. */
  lemma {:induction false} WalkInjective(nodes: seq<Node>, n: nat, q: seq<bytes>, q': seq<bytes>, x: nat)
    requires IsTree(nodes) && n < |nodes| && Walk(nodes, n, q) == Some(x) && Walk(nodes, n, q') == Some(x)
    ensures q == q'
    decreases |q|
  {
    if q != [] && q' != [] {
      WalkEnd(nodes, n, q, x);
      WalkEnd(nodes, n, q', x);
      WalkInjective(nodes, n, q[..|q| - 1], q'[..|q'| - 1], Parent(nodes, x));
      assert q == q[..|q| - 1] + [q[|q| - 1]] && q' == q'[..|q'| - 1] + [q'[|q'| - 1]];
    }
  }

  // ---- Making ----

  /** Adds what is missing on the way; returns the tree and the last entry. */
  function Build(nodes: seq<Node>, n: nat, fields: seq<bytes>): (r: (seq<Node>, nat))
    requires IsTree(nodes) && n < |nodes|
    ensures IsTree(r.0) && nodes <= r.0 && r.1 < |r.0|
    decreases |fields|
  {
    if fields == [] then (nodes, n)
    else
      var c := FindChild(nodes, n, fields[0]);
      if c.Some? then Build(nodes, c.value, fields[1..])
      else
        AddChildKeepsTree(nodes, n, fields[0], []);
        Build(nodes + [NewChild(nodes, n, fields[0], [])], |nodes|, fields[1..])
  }

  /** set. */
  function SetPath(nodes: seq<Node>, n: nat, path: bytes, val: bytes): (r: (seq<Node>, nat))
    requires IsTree(nodes) && n < |nodes|
    ensures r.1 < |r.0|
  {
    var (nodes', c) := Build(nodes, n, Fields(path));
    (WithValue(nodes', c, val), c)
  }

  // ---- What making an entry changes ----

  /** A child that is found among the first nodes is found there, whatever follows. */
  lemma {:induction false} FindExtends(nodes: seq<Node>, nodes': seq<Node>, n: nat, key: bytes, i: nat)
    requires nodes <= nodes' && i <= |nodes|
    ensures FindBefore(nodes', n, key, i) == FindBefore(nodes, n, key, i)
  {
    if i > 0 {
      FindExtends(nodes, nodes', n, key, i - 1);
    }
  }

  lemma {:induction false} FindOld(nodes: seq<Node>, nodes': seq<Node>, n: nat, key: bytes, i: nat)
    requires nodes <= nodes' && |nodes| <= i <= |nodes'|
    requires FindBefore(nodes', n, key, i).Some? && FindBefore(nodes', n, key, i).value < |nodes|
    ensures FindChild(nodes, n, key) == FindBefore(nodes', n, key, i)
    decreases i
  {
    if i == |nodes| {
      FindExtends(nodes, nodes', n, key, i);
    } else {
      FindOld(nodes, nodes', n, key, i - 1);
    }
  }

  /** No child that was found is hidden by a later one. */
  ghost predicate KeepsFound(nodes: seq<Node>, nodes': seq<Node>) {
    && IsTree(nodes) && IsTree(nodes') && nodes <= nodes'
    && forall n, key {:trigger FoundStays(nodes, nodes', n, key)} :: FoundStays(nodes, nodes', n, key)
  }

  ghost predicate FoundStays(nodes: seq<Node>, nodes': seq<Node>, n: nat, key: bytes) {
    FindChild(nodes, n, key).Some? ==> FindChild(nodes', n, key) == FindChild(nodes, n, key)
  }

  lemma FoundStaysTwice(a: seq<Node>, b: seq<Node>, c: seq<Node>)
    requires KeepsFound(a, b) && KeepsFound(b, c)
    ensures KeepsFound(a, c)
  {
    forall n, key
      ensures FoundStays(a, c, n, key)
    {
      assert FoundStays(a, b, n, key) && FoundStays(b, c, n, key);
    }
  }

  lemma AddKeepsFound(nodes: seq<Node>, n: nat, key: bytes)
    requires IsTree(nodes) && n < |nodes| && FindChild(nodes, n, key).None?
    ensures
      var nodes' := nodes + [NewChild(nodes, n, key, [])];
      KeepsFound(nodes, nodes') && FindChild(nodes', n, key) == Some(|nodes|)
  {
    AddChildKeepsTree(nodes, n, key, []);
    var nodes' := nodes + [NewChild(nodes, n, key, [])];
    forall m, k
      ensures FoundStays(nodes, nodes', m, k)
    {
      FindExtends(nodes, nodes', m, k, |nodes|);
    }
  }

  lemma KeepsFoundSelf(nodes: seq<Node>)
    requires IsTree(nodes)
    ensures KeepsFound(nodes, nodes)
  {
    forall n, key ensures FoundStays(nodes, nodes, n, key) {}
  }

  lemma {:induction false} BuildKeepsFound(nodes: seq<Node>, n: nat, fields: seq<bytes>)
    requires IsTree(nodes) && n < |nodes|
    ensures KeepsFound(nodes, Build(nodes, n, fields).0)
    decreases |fields|
  {
    if fields == [] {
      KeepsFoundSelf(nodes);
    } else {
      var c := FindChild(nodes, n, fields[0]);
      if c.Some? {
        BuildKeepsFound(nodes, c.value, fields[1..]);
      } else {
        var nodes' := nodes + [NewChild(nodes, n, fields[0], [])];
        AddKeepsFound(nodes, n, fields[0]);
        BuildKeepsFound(nodes', |nodes|, fields[1..]);
        FoundStaysTwice(nodes, nodes', Build(nodes, n, fields).0);
      }
    }
  }

  lemma {:induction false} WalkStays(nodes: seq<Node>, nodes': seq<Node>, n: nat, q: seq<bytes>)
    requires KeepsFound(nodes, nodes') && n < |nodes| && Walk(nodes, n, q).Some?
    ensures Walk(nodes', n, q) == Walk(nodes, n, q)
    decreases |q|
  {
    if q != [] {
      assert FoundStays(nodes, nodes', n, q[0]);
      WalkStays(nodes, nodes', FindChild(nodes, n, q[0]).value, q[1..]);
    }
  }

  /** The way to an old entry was there before. */
  lemma {:induction false} WalkWasThere(nodes: seq<Node>, nodes': seq<Node>, n: nat, q: seq<bytes>)
    requires KeepsFound(nodes, nodes') && n < |nodes|
    requires Walk(nodes', n, q).Some? && Walk(nodes', n, q).value < |nodes|
    ensures Walk(nodes, n, q) == Walk(nodes', n, q)
    decreases |q|
  {
    if q != [] {
      var c := FindChild(nodes', n, q[0]).value;
      ChildIsLater(nodes', c, n);
      FindOld(nodes, nodes', n, q[0], |nodes'|);
      WalkWasThere(nodes, nodes', c, q[1..]);
    }
  }

  /** The path that was made leads to its entry. */
  lemma {:induction false} BuildIsFound(nodes: seq<Node>, n: nat, fields: seq<bytes>)
    requires IsTree(nodes) && n < |nodes|
    ensures Walk(Build(nodes, n, fields).0, n, fields) == Some(Build(nodes, n, fields).1)
    decreases |fields|
  {
    if fields != [] {
      var (nodes', x) := Build(nodes, n, fields);
      var c := FindChild(nodes, n, fields[0]);
      if c.Some? {
        BuildIsFound(nodes, c.value, fields[1..]);
        BuildKeepsFound(nodes, c.value, fields[1..]);
        assert FoundStays(nodes, nodes', n, fields[0]);
      } else {
        var more := nodes + [NewChild(nodes, n, fields[0], [])];
        AddKeepsFound(nodes, n, fields[0]);
        BuildIsFound(more, |nodes|, fields[1..]);
        BuildKeepsFound(more, |nodes|, fields[1..]);
        assert FoundStays(more, nodes', n, fields[0]);
      }
    }
  }

  /** Every new entry lies on that path, has no value, and its fields begin the path. */
  lemma {:induction false} NewIsOnPath(nodes: seq<Node>, n: nat, fields: seq<bytes>, x: nat) returns (j: nat)
    requires IsTree(nodes) && n < |nodes| && |nodes| <= x < |Build(nodes, n, fields).0|
    ensures j <= |fields| && Walk(Build(nodes, n, fields).0, n, fields[..j]) == Some(x)
    ensures Build(nodes, n, fields).0[x].val == []
    decreases |fields|
  {
    var nodes' := Build(nodes, n, fields).0;
    var rest := fields[1..];
    var c := FindChild(nodes, n, fields[0]);
    if c.Some? {
      BuildKeepsFound(nodes, c.value, rest);
      assert FoundStays(nodes, nodes', n, fields[0]);
      j := NewIsOnPath(nodes, c.value, rest, x);
    } else {
      var more := nodes + [NewChild(nodes, n, fields[0], [])];
      AddKeepsFound(nodes, n, fields[0]);
      BuildKeepsFound(more, |nodes|, rest);
      assert FoundStays(more, nodes', n, fields[0]);
      if x == |nodes| {
        j := 0;
        assert nodes'[x] == more[x];
      } else {
        j := NewIsOnPath(more, |nodes|, rest, x);
      }
    }
    j := j + 1;
    assert fields[..j][1..] == rest[..j - 1];
  }

  // ---- Setting a value ----

  function WithValue(nodes: seq<Node>, c: nat, val: bytes): seq<Node>
    requires c < |nodes|
  {
    nodes[c := nodes[c].(val := val)]
  }

  lemma {:induction false} ValueKeepsFind(nodes: seq<Node>, c: nat, val: bytes, n: nat, key: bytes, i: nat)
    requires c < |nodes| && i <= |nodes|
    ensures FindBefore(WithValue(nodes, c, val), n, key, i) == FindBefore(nodes, n, key, i)
  {
    if i > 0 {
      ValueKeepsFind(nodes, c, val, n, key, i - 1);
    }
  }

  lemma ValueKeepsTree(nodes: seq<Node>, c: nat, val: bytes)
    requires IsTree(nodes) && c < |nodes|
    ensures IsTree(WithValue(nodes, c, val))
  {
    var nodes' := WithValue(nodes, c, val);
    forall i | 1 <= i < |nodes'|
      ensures Linked(nodes', i)
    {
      assert Linked(nodes, i);
    }
  }

  lemma {:induction false} ValueKeepsWalk(nodes: seq<Node>, c: nat, val: bytes, n: nat, q: seq<bytes>)
    requires IsTree(nodes) && c < |nodes| && n < |nodes| && IsTree(WithValue(nodes, c, val))
    ensures Walk(WithValue(nodes, c, val), n, q) == Walk(nodes, n, q)
    decreases |q|
  {
    if q != [] {
      ValueKeepsFind(nodes, c, val, n, q[0], |nodes|);
      var m := FindChild(nodes, n, q[0]);
      if m.Some? {
        ChildIsLater(nodes, m.value, n);
        ValueKeepsWalk(nodes, c, val, m.value, q[1..]);
      }
    }
  }

  /** After set, the path leads to an entry with the value. */
  lemma SetIsFound(nodes: seq<Node>, n: nat, path: bytes, val: bytes)
    requires IsTree(nodes) && n < |nodes|
    ensures
      var (nodes', c) := SetPath(nodes, n, path, val);
      IsTree(nodes') && n < |nodes'| && Get(nodes', n, path) == Some(c) && nodes'[c].val == val
  {
    var (built, c) := Build(nodes, n, Fields(path));
    BuildIsFound(nodes, n, Fields(path));
    ValueKeepsTree(built, c, val);
    ValueKeepsWalk(built, c, val, n, Fields(path));
  }

  /** Every path that was found leads to the same entry, whose value has changed only if
      the path has the same fields, whatever its dividers. */
  lemma SetKeepsOthers(nodes: seq<Node>, n: nat, path: bytes, val: bytes, other: bytes, x: nat)
    requires IsTree(nodes) && n < |nodes| && Get(nodes, n, other) == Some(x)
    ensures
      var (nodes', c) := SetPath(nodes, n, path, val);
      && IsTree(nodes') && |nodes'| >= |nodes| && Get(nodes', n, other) == Some(x)
      && nodes'[x] == nodes[x].(val := if Fields(other) == Fields(path) then val else nodes[x].val)
  {
    var (built, c) := Build(nodes, n, Fields(path));
    BuildIsFound(nodes, n, Fields(path));
    BuildKeepsFound(nodes, n, Fields(path));
    WalkStays(nodes, built, n, Fields(other));
    ValueKeepsTree(built, c, val);
    ValueKeepsWalk(built, c, val, n, Fields(other));
    if x == c {
      WalkInjective(built, n, Fields(other), Fields(path), x);
    }
  }

  /** A path that is found only now begins the path that was set. */
  lemma SetMakesPrefixes(nodes: seq<Node>, n: nat, path: bytes, val: bytes, other: bytes)
    requires IsTree(nodes) && n < |nodes| && Get(nodes, n, other) == None
    ensures
      var (nodes', c) := SetPath(nodes, n, path, val);
      && IsTree(nodes') && n < |nodes'|
      && var r := Get(nodes', n, other);
         r.Some? ==>
           && Fields(other) <= Fields(path)
           && nodes'[r.value].val == if Fields(other) == Fields(path) then val else []
  {
    var fields, q := Fields(path), Fields(other);
    var (built, c) := Build(nodes, n, fields);
    ValueKeepsTree(built, c, val);
    ValueKeepsWalk(built, c, val, n, q);
    BuildIsFound(nodes, n, fields);
    BuildKeepsFound(nodes, n, fields);
    var r := Walk(built, n, q);
    if r.Some? {
      if r.value < |nodes| {
        WalkWasThere(nodes, built, n, q);
      }
      var j := NewIsOnPath(nodes, n, fields, r.value);
      WalkInjective(built, n, q, fields[..j], r.value);
      if r.value == c {
        WalkInjective(built, n, q, fields, c);
      }
    }
  }
}
