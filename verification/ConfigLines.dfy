/**
 Lines of a configuration file and paths as a user writes them, and what is made of them. The
 texts are defined by the codes of their characters.
 */
module ConfigLines {
  import opened Bytes
  import opened ConfigText
  import opened ConfigTree
  import opened ConfigPaths

  /** Tabs, blanks, carriage returns and newlines. */
  predicate White(s: bytes) {
    forall i :: 0 <= i < |s| ==> s[i] == 9 || s[i] == 32 || s[i] == 13 || s[i] == 10
  }

  /** No white space at either end. */
  predicate Bare(s: bytes) {
    s != [] ==> !White([s[0]]) && !White([s[|s| - 1]])
  }

  /** A key holds no separator, and does not begin like a comment or with other white space. */
  predicate Key(s: bytes) {
    && Bare(s)
    && (forall i :: 0 <= i < |s| ==> s[i] != 58 && s[i] != 61)
    && (s != [] ==> s[0] != 35 && s[0] != 11 && s[0] != 12)
  }

  function TabsText(n: nat): bytes {
    if n == 0 then [] else [9] + TabsText(n - 1)
  }

  // ---- White space ----

  lemma {:induction false} LeftIgnored(a: bytes, s: bytes)
    requires White(a)
    ensures TrimLeft(a + s) == TrimLeft(s)
  {
    if a == [] {
      assert a + s == s;
    } else {
      assert (a + s)[1..] == a[1..] + s;
      LeftIgnored(a[1..], s);
    }
  }

  lemma {:induction false} RightIgnored(s: bytes, b: bytes)
    requires White(b)
    ensures TrimRight(s + b) == TrimRight(s)
    decreases |b|
  {
    if b == [] {
      assert s + b == s;
    } else {
      var n := |b| - 1;
      assert (s + b)[..|s + b| - 1] == s + b[..n];
      RightIgnored(s, b[..n]);
    }
  }

  lemma AroundIgnored(a: bytes, s: bytes, b: bytes)
    requires White(a) && White(b) && Bare(s)
    ensures Trim(a + (s + b)) == s
  {
    LeftIgnored(a, s + b);
    if s == [] {
      assert s + b == b + [];
      LeftIgnored(b, []);
    } else {
      assert White([s[0]]) <==> IsBlank(s[0]);
      assert White([s[|s| - 1]]) <==> IsBlank(s[|s| - 1]);
      assert TrimLeft(s + b) == s + b;
      RightIgnored(s, b);
    }
  }

  // ---- Lines ----

  lemma {:induction false} TabsTextIs(n: nat)
    ensures TabsText(n) == Tabs(n)
  {
    if n > 0 {
      TabsTextIs(n - 1);
      assert Tabs(n) == [9] + Tabs(n - 1);
    }
  }

  lemma LineIs(indent: nat, s: bytes)
    requires s != [] && !IsBlank(s[0])
    ensures Parse(TabsText(indent) + s) == ParseEntry(indent, s)
  {
    TabsTextIs(indent);
    ParseIndented(indent, s);
  }

  lemma EntryBody(indent: nat, head: bytes, separator: byte, tail: bytes, s: bytes)
    requires (separator == 58 || separator == 61) && s == head + ([separator] + tail)
    requires forall i :: 0 <= i < |head| ==> head[i] != 58 && head[i] != 61
    requires head != [] ==> head[0] != 35 && head[0] != 11 && head[0] != 12 && !White([head[0]])
    ensures s != [] && !IsBlank(s[0]) && ParseEntry(indent, s) == Item(indent, Trim(head), Trim(tail))
  {
    assert s[0] == if head == [] then separator else head[0];
    assert head != [] ==> (White([head[0]]) <==> IsBlank(head[0]));
    EntrySplits(head, separator, tail, s);
  }

  lemma EntrySplits(head: bytes, separator: byte, tail: bytes, s: bytes)
    requires (separator == 58 || separator == 61) && s == head + ([separator] + tail)
    requires forall i :: 0 <= i < |head| ==> head[i] != 58 && head[i] != 61
    ensures KeyLength(s) == |head| < |s| && s[..|head|] == head && s[|head| + 1..] == tail
  {
    KeyLengthOf(head, separator, tail);
  }

  lemma HeadIs(key: bytes, before: bytes, head: bytes)
    requires Key(key) && White(before) && (key == [] ==> before == []) && head == key + before
    ensures forall i :: 0 <= i < |head| ==> head[i] != 58 && head[i] != 61
    ensures head != [] ==> head[0] != 35 && head[0] != 11 && head[0] != 12 && !White([head[0]])
    ensures Trim(head) == key
  {
    AroundIgnored([], key, before);
    assert [] + head == head;
  }

  /** A key, a colon or an equals sign, and a value, with any white space around, are an entry
      with the indentation that the tabs are. */
  lemma EntryLineReads(indent: nat, key: bytes, before: bytes, separator: byte, behind: bytes, val: bytes, end: bytes)
    requires Key(key) && Bare(val) && White(before) && White(behind) && White(end)
    requires (separator == 58 || separator == 61) && (key == [] ==> before == [])
    ensures Parse(TabsText(indent) + (key + before + ([separator] + (behind + (val + end))))) == Item(indent, key, val)
  {
    HeadIs(key, before, key + before);
    AroundIgnored(behind, val, end);
    var head, tail := key + before, behind + (val + end);
    var s := head + ([separator] + tail);
    EntryBody(indent, head, separator, tail, s);
    LineIs(indent, s);
  }

  /** A line whose first byte behind the tabs is # is a comment with the bytes behind it. */
  lemma CommentReads(indent: nat, val: bytes)
    ensures Parse(TabsText(indent) + ([35] + val)) == Comment(val)
  {
    var s := [35] + val;
    TabsTextIs(indent);
    ParseIndented(indent, s);
    assert s[1..] == val;
  }

  /** A line is passed over exactly when it is all white space. */
  lemma BlankReads(s: bytes)
    ensures Parse(s) == Blank <==> White(s)
  {
    assert AllBlank(s) <==> White(s);
  }

  /** Behind the tabs, no other white space may stand before an entry or a comment. */
  lemma SpaceFails(indent: nat, space: byte, s: bytes)
    requires space == 32 || space == 11 || space == 12 || space == 13
    requires !White(TabsText(indent) + ([space] + s))
    ensures Parse(TabsText(indent) + ([space] + s)) == Bad
  {
    var line := TabsText(indent) + ([space] + s);
    TabsTextIs(indent);
    CountTabsOf(indent, [space] + s);
    assert AllBlank(line) <==> White(line);
    assert line[indent..] == [space] + s;
  }

  /** A line that is no comment is wrong without a colon and an equals sign. */
  lemma NoSeparatorFails(indent: nat, s: bytes)
    requires s != [] && s[0] != 35 && !White([s[0]]) && forall i :: 0 <= i < |s| ==> s[i] != 58 && s[i] != 61
    ensures Parse(TabsText(indent) + s) == Bad
  {
    TabsTextIs(indent);
    assert White([s[0]]) <==> IsBlank(s[0]);
    ParseIndented(indent, s);
    NoSeparator(s);
  }

  /** The line that is saved for a node: a tab for each level of its parent, and then a comment or
      the key, a colon, a blank and the value. */
  lemma SavedLineIs(nodes: seq<Node>, i: nat)
    requires IsTree(nodes) && 1 <= i < |nodes|
    ensures
      var node, tabs := nodes[i], TabsText(nodes[Parent(nodes, i)].depth);
      && (node.key != [] && node.key[0] == 35 ==> NodeLine(nodes, i) == tabs + ([35] + node.val))
      && (node.key == [] || node.key[0] != 35 ==> NodeLine(nodes, i) == tabs + (node.key + ([58, 32] + node.val)))
  {
    TabsTextIs(nodes[Parent(nodes, i)].depth);
  }

  // ---- Paths ----

  /** Fields with a dot or a slash behind each but the last. */
  function PathText(fields: seq<bytes>, dividers: bytes): bytes
    requires |fields| == |dividers| + 1
  {
    if |fields| == 1 then fields[0] else fields[0] + ([dividers[0]] + PathText(fields[1..], dividers[1..]))
  }

  predicate Field(s: bytes) {
    forall i :: 0 <= i < |s| ==> s[i] != 46 && s[i] != 47 && s[i] != 0
  }

  lemma {:induction false} FieldEnds(path: bytes, i: nat, e: nat)
    requires i <= e <= |path| && (forall k :: i <= k < e ==> path[k] != 46 && path[k] != 47)
    requires e < |path| ==> path[e] == 46 || path[e] == 47
    ensures FieldEnd(path, i) == e
    decreases e - i
  {
    if i < e {
      FieldEnds(path, i + 1, e);
    }
  }

  lemma {:induction false} FieldsAre(fields: seq<bytes>, dividers: bytes, path: bytes, i: nat)
    requires |fields| == |dividers| + 1 && (forall k :: 0 <= k < |fields| ==> Field(fields[k]))
    requires forall k :: 0 <= k < |dividers| ==> dividers[k] == 46 || dividers[k] == 47
    requires i <= |path| && path[i..] == PathText(fields, dividers)
    ensures FieldsFrom(path, i) == fields
    decreases |fields|
  {
    if |fields| == 1 {
      LastField(fields[0], path, i);
    } else {
      var e := FirstField(fields[0], dividers[0], PathText(fields[1..], dividers[1..]), path, i);
      FieldsAre(fields[1..], dividers[1..], path, e + 1);
      assert fields == [fields[0]] + fields[1..];
    }
  }

  lemma LastField(field: bytes, path: bytes, i: nat)
    requires Field(field) && i <= |path| && path[i..] == field
    ensures FieldsFrom(path, i) == [field]
  {
    FieldIn(path, i, field, |path|);
    FieldEnds(path, i, |path|);
    assert path[i..|path|] == field;
  }

  lemma FieldIn(path: bytes, i: nat, field: bytes, e: nat)
    requires Field(field) && i <= e <= |path| && path[i..e] == field
    ensures forall k :: i <= k < e ==> path[k] != 46 && path[k] != 47
  {
    forall k | i <= k < e
      ensures path[k] != 46 && path[k] != 47
    {
      assert path[k] == path[i..e][k - i];
    }
  }

  lemma FirstField(field: bytes, divider: byte, rest: bytes, path: bytes, i: nat) returns (e: nat)
    requires Field(field) && (divider == 46 || divider == 47) && i <= |path| && path[i..] == field + ([divider] + rest)
    ensures e < |path| && path[e + 1..] == rest && FieldsFrom(path, i) == [field] + FieldsFrom(path, e + 1)
  {
    e := i + |field|;
    Divided(field, divider, rest, path, i, e);
    FieldStep(field, path, i, e);
  }

  lemma FieldStep(field: bytes, path: bytes, i: nat, e: nat)
    requires Field(field) && i <= e < |path| && path[i..e] == field && (path[e] == 46 || path[e] == 47)
    ensures FieldsFrom(path, i) == [field] + FieldsFrom(path, e + 1)
  {
    FieldIn(path, i, field, e);
    FieldEnds(path, i, e);
  }

  lemma Divided(field: bytes, divider: byte, rest: bytes, path: bytes, i: nat, e: nat)
    requires i <= |path| && path[i..] == field + ([divider] + rest) && e == i + |field|
    ensures e < |path| && path[i..e] == field && path[e] == divider && path[e + 1..] == rest
  {
    var tail, n := field + ([divider] + rest), |field|;
    assert |path| == i + |tail|;
    SliceOfDrop(path, i, 0, n);
    DropOfDrop(path, i, n + 1);
    assert tail[..n] == field && tail[n] == divider && tail[n + 1..] == rest;
    assert path[i..][n] == path[e];
  }

  lemma {:induction false} PathHasNoNul(fields: seq<bytes>, dividers: bytes)
    requires |fields| == |dividers| + 1 && (forall k :: 0 <= k < |fields| ==> Field(fields[k]))
    requires forall k :: 0 <= k < |dividers| ==> dividers[k] == 46 || dividers[k] == 47
    ensures NUL !in PathText(fields, dividers)
    decreases |fields|
  {
    if |fields| > 1 {
      PathHasNoNul(fields[1..], dividers[1..]);
    }
  }

  lemma {:induction false} CStringBehind(t: bytes, more: bytes)
    requires 0 !in t
    ensures CString(t + more) == t + CString(more)
  {
    if t == [] {
      assert t + more == more;
    } else {
      assert (t + more)[1..] == t[1..] + more;
      CStringBehind(t[1..], more);
    }
  }

  /** A path has the fields it was put together from, whatever mixture of dots and slashes
      divides them, up to its end or to the 4095 bytes that fit the buffer. */
  lemma PathHasFields(fields: seq<bytes>, dividers: bytes, behind: bytes)
    requires |fields| == |dividers| + 1 && (forall k :: 0 <= k < |fields| ==> Field(fields[k]))
    requires forall k :: 0 <= k < |dividers| ==> dividers[k] == 46 || dividers[k] == 47
    requires
      var path := PathText(fields, dividers);
      |path| == 4095 || (|path| < 4095 && (behind == [] || behind[0] == 0))
    ensures Fields(PathText(fields, dividers) + behind) == fields
  {
    var path := PathText(fields, dividers);
    PathHasNoNul(fields, dividers);
    CStringBehind(path, behind);
    assert Copied(path + behind) == path;
    assert path[0..] == path;
    FieldsAre(fields, dividers, path, 0);
  }

  /** What is found is the last node with this parent and this key, and nothing only if there is
      none. */
  lemma {:induction false} FindIsLast(nodes: seq<Node>, n: nat, key: bytes, i: nat)
    requires i <= |nodes|
    ensures
      match FindBefore(nodes, n, key, i)
      case None => forall k :: 0 <= k < i ==> !(nodes[k].parent == n && nodes[k].key == key)
      case Some(r) =>
        && r < i && nodes[r].parent == n && nodes[r].key == key
        && forall k :: r < k < i ==> !(nodes[k].parent == n && nodes[k].key == key)
  {
    if i > 0 && !IsChild(nodes, i - 1, n, key) {
      FindIsLast(nodes, n, key, i - 1);
    }
  }
}
