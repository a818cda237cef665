/**
 A configuration file as an outline: an entry belongs to the last entry before it that is
 indented less. The loader, which counts steps towards the root, makes the same tree.
 */
module ConfigOutline {
  import opened Bytes
  import opened ConfigText
  import opened ConfigTree

  /** The indentation of each node: that of the root is less than any, and comments have none. */
  type Marks = seq<Option<int>>

  predicate Rooted(marks: Marks) {
    marks != [] && marks[0] == Some(-1)
  }

  predicate Below(mark: Option<int>, indent: int) {
    mark.Some? && mark.value < indent
  }

  /** The last node that is indented less. */
  function LastBelow(marks: Marks, indent: nat): (j: nat)
    requires Rooted(marks)
    ensures j < |marks| && Below(marks[j], indent)
    ensures forall k :: j < k < |marks| ==> !Below(marks[k], indent)
  {
    var n := |marks| - 1;
    if Below(marks[n], indent) then n else LastBelow(marks[..n], indent)
  }

  /** The last entry, or the root when there is none. */
  function LastEntry(marks: Marks): (j: nat)
    requires Rooted(marks)
    ensures j < |marks| && marks[j].Some?
    ensures forall k :: j < k < |marks| ==> marks[k].None?
  {
    var n := |marks| - 1;
    if marks[n].Some? then n else LastEntry(marks[..n])
  }

  datatype Outline = Outline(nodes: seq<Node>, marks: Marks)

  predicate Fits(o: Outline) {
    |o.nodes| == |o.marks| && Rooted(o.marks)
  }

  function WithChild(o: Outline, p: nat, key: bytes, val: bytes, mark: Option<int>): Outline
    requires p < |o.nodes|
  {
    Outline(o.nodes + [Node(p, o.nodes[p].depth + 1, key, val)], o.marks + [mark])
  }

  /** One line: a comment belongs to the last entry, an entry to the last one that is indented
      less; it may be indented by one tab more than the last entry, and the first one by one. */
  function Place(o: Outline, line: Line): (r: Option<Outline>)
    requires Fits(o)
    ensures r.Some? ==> Fits(r.value)
  {
    match line
    case Blank => Some(o)
    case Bad => None
    case Comment(val) => Some(WithChild(o, LastEntry(o.marks), [35], val, None))
    case Item(indent, key, val) =>
      var last := LastEntry(o.marks);
      if indent > (if last == 0 then 1 else o.marks[last].value + 1) then None
      else Some(WithChild(o, LastBelow(o.marks, indent), key, val, Some(indent)))
  }

  function PlaceAll(o: Outline, lines: seq<bytes>): Option<Outline>
    requires Fits(o)
    decreases |lines|
  {
    if lines == [] then Some(o)
    else
      var o' := Place(o, Parse(lines[0]));
      if o'.None? then None else PlaceAll(o'.value, lines[1..])
  }

  const EMPTY := Outline([ROOT], [Some(-1)])

  // ---- Steps towards the root ----

  lemma {:induction false} UpStays(nodes: seq<Node>, node: Node, c: nat, n: nat)
    requires IsTree(nodes) && IsTree(nodes + [node]) && c < |nodes|
    ensures Up(nodes + [node], c, n) == Up(nodes, c, n)
    decreases n
  {
    if n > 0 {
      UpStays(nodes, node, if c != 0 then Parent(nodes, c) else c, n - 1);
    }
  }

  lemma {:induction false} UpTwice(nodes: seq<Node>, c: nat, m: nat, n: nat)
    requires IsTree(nodes) && c < |nodes|
    ensures Up(nodes, Up(nodes, c, m), n) == Up(nodes, c, m + n)
    decreases m
  {
    if m > 0 {
      UpTwice(nodes, if c != 0 then Parent(nodes, c) else c, m - 1, n);
    }
  }

  lemma {:induction false} UpFromRoot(nodes: seq<Node>, n: nat)
    requires IsTree(nodes)
    ensures Up(nodes, 0, n) == 0
    decreases n
  {
    if n > 0 {
      UpFromRoot(nodes, n - 1);
    }
  }

  // ---- The loader and the outline ----

  /** The steps that the loader would take for an indentation lead to the last node that is
      indented less. */
  ghost predicate Leads(l: Loader, marks: Marks, indent: nat)
    requires Ready(l) && Rooted(marks)
  {
    indent <= l.last ==> Up(l.nodes, l.cfg, l.last - indent + 1) == LastBelow(marks, indent)
  }

  ghost predicate Matches(l: Loader, o: Outline) {
    && Ready(l) && Fits(o) && l.nodes == o.nodes && l.cfg == LastEntry(o.marks)
    && l.last == (if l.cfg == 0 then 0 else o.marks[l.cfg].value)
    && forall indent: nat :: Leads(l, o.marks, indent)
  }

  /** Where the loader puts an entry. */
  lemma GoesTo(l: Loader, o: Outline, indent: nat) returns (p: nat)
    requires Matches(l, o) && indent <= l.last + 1
    ensures p == LastBelow(o.marks, indent) < |l.nodes|
    ensures p == if indent <= l.last then Up(l.nodes, l.cfg, l.last - indent + 1) else l.cfg
  {
    p := LastBelow(o.marks, indent);
    assert Leads(l, o.marks, indent);
    if indent == l.last + 1 {
      assert Below(o.marks[l.cfg], indent);
      assert p <= l.cfg;
    }
  }

  lemma LastBelowSnoc(marks: Marks, mark: Option<int>, indent: nat)
    requires Rooted(marks)
    ensures LastBelow(marks + [mark], indent) == if Below(mark, indent) then |marks| else LastBelow(marks, indent)
    ensures LastEntry(marks + [mark]) == if mark.Some? then |marks| else LastEntry(marks)
  {
    assert (marks + [mark])[..|marks|] == marks;
  }

  lemma UpFromNew(nodes: seq<Node>, node: Node, p: nat, n: nat)
    requires IsTree(nodes) && IsTree(nodes + [node]) && node.parent == p < |nodes|
    ensures Up(nodes + [node], |nodes|, n + 1) == Up(nodes, p, n)
  {
    assert Parent(nodes + [node], |nodes|) == p;
    UpStays(nodes, node, p, n);
  }

  lemma LeadsFrom(l: Loader, o: Outline, indent: nat, p: nat, t: nat)
    requires Matches(l, o) && t <= indent <= l.last + 1 && p == LastBelow(o.marks, indent)
    requires p == if indent <= l.last then Up(l.nodes, l.cfg, l.last - indent + 1) else l.cfg
    ensures Up(l.nodes, p, indent - t) == LastBelow(o.marks, t)
  {
    assert Leads(l, o.marks, t);
    if indent <= l.last {
      UpTwice(l.nodes, l.cfg, l.last - indent + 1, indent - t);
    }
  }

  lemma NewLeads(nodes: seq<Node>, marks: Marks, node: Node, p: nat, indent: nat, t: nat)
    requires IsTree(nodes) && IsTree(nodes + [node]) && node.parent == p < |nodes| && Rooted(marks)
    requires t <= indent && Up(nodes, p, indent - t) == LastBelow(marks, t)
    ensures Up(nodes + [node], |nodes|, indent - t + 1) == LastBelow(marks + [Some(indent)], t)
  {
    UpFromNew(nodes, node, p, indent - t);
    LastBelowSnoc(marks, Some(indent), t);
  }

  lemma PlacesItem(l: Loader, o: Outline, indent: nat, key: bytes, val: bytes)
    requires Matches(l, o) && indent <= l.last + 1
    ensures
      var r, o' := Read(l, Item(indent, key, val)), Place(o, Item(indent, key, val));
      r.Some? && o'.Some? && Matches(r.value, o'.value)
  {
    var p := GoesTo(l, o, indent);
    var l' := Read(l, Item(indent, key, val)).value;
    LastBelowSnoc(o.marks, Some(indent), 0);
    forall t: nat ensures Leads(l', o.marks + [Some(indent)], t) {
      if t <= indent {
        LeadsFrom(l, o, indent, p, t);
        NewLeads(l.nodes, o.marks, NewChild(l.nodes, p, key, val), p, indent, t);
      }
    }
  }

  lemma PlacesComment(l: Loader, o: Outline, val: bytes)
    requires Matches(l, o)
    ensures
      var r, o' := Read(l, Comment(val)), Place(o, Comment(val));
      r.Some? && o'.Some? && Matches(r.value, o'.value)
  {
    var l' := Read(l, Comment(val)).value;
    LastBelowSnoc(o.marks, None, 0);
    forall t: nat ensures Leads(l', o.marks + [None], t) {
      LastBelowSnoc(o.marks, None, t);
      assert Leads(l, o.marks, t);
      if t <= l.last {
        UpStays(l.nodes, NewChild(l.nodes, l.cfg, [HASH], val), l.cfg, l.last - t + 1);
      }
    }
  }

  lemma {:induction false} ReadsOutline(l: Loader, o: Outline, lines: seq<bytes>)
    requires Matches(l, o)
    ensures ReadAll(l, lines).Some? <==> PlaceAll(o, lines).Some?
    ensures ReadAll(l, lines).Some? ==> ReadAll(l, lines).value.nodes == PlaceAll(o, lines).value.nodes
    decreases |lines|
  {
    if lines != [] {
      var line := Parse(lines[0]);
      match line
      case Blank => ReadsOutline(l, o, lines[1..]);
      case Bad =>
      case Comment(val) =>
        PlacesComment(l, o, val);
        ReadsOutline(Read(l, line).value, Place(o, line).value, lines[1..]);
      case Item(indent, key, val) =>
        if indent <= l.last + 1 {
          PlacesItem(l, o, indent, key, val);
          ReadsOutline(Read(l, line).value, Place(o, line).value, lines[1..]);
        }
    }
  }

  /** Every text loads exactly when its lines are an outline, and to the tree of that outline. */
  lemma LoadedIsOutline(text: bytes)
    ensures
      var outline := PlaceAll(EMPTY, Lines(text));
      Loaded(text) == if outline.None? then None else Some(outline.value.nodes)
  {
    forall t: nat ensures Leads(START, EMPTY.marks, t) {
      if t <= START.last {
        UpFromRoot(START.nodes, START.last - t + 1);
      }
    }
    ReadsOutline(START, EMPTY, Lines(text));
  }
}
