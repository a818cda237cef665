/**
 The configuration tree: loading it from lines, saving it, and that what was loaded and
 saved loads again to the same tree.

 Nodes are kept in the order in which they were made. A pointer to a node is its index,
 and the children of a node are the nodes with that parent, in order.
 */
module ConfigTree {
  import opened Bytes
  import opened ConfigText
  import Sequences

  datatype Node = Node(parent: int, depth: nat, key: bytes, val: bytes) {
    predicate IsComment() {
      key != [] && key[0] == HASH
    }
  }

  /** The bytes of "root". */
  const ROOT := Node(-1, 0, [114, 111, 111, 116], [])

  ghost predicate IsTree(nodes: seq<Node>) {
    && nodes != [] && nodes[0].parent == -1 && nodes[0].depth == 0
    && forall i :: 1 <= i < |nodes| ==> Linked(nodes, i)
  }

  predicate Linked(nodes: seq<Node>, i: nat)
    requires 1 <= i < |nodes|
  {
    0 <= nodes[i].parent < i && nodes[i].depth == nodes[nodes[i].parent].depth + 1
  }

  function Parent(nodes: seq<Node>, i: nat): (p: nat)
    requires IsTree(nodes) && 1 <= i < |nodes|
    ensures p < i && nodes[i].depth == nodes[p].depth + 1
  {
    assert Linked(nodes, i);
    nodes[i].parent
  }

  function NewChild(nodes: seq<Node>, p: nat, key: bytes, val: bytes): Node
    requires p < |nodes|
  {
    Node(p, nodes[p].depth + 1, key, val)
  }

  lemma AddChildKeepsTree(nodes: seq<Node>, p: nat, key: bytes, val: bytes)
    requires IsTree(nodes) && p < |nodes|
    ensures IsTree(nodes + [NewChild(nodes, p, key, val)])
  {
    var nodes' := nodes + [NewChild(nodes, p, key, val)];
    forall i | 1 <= i < |nodes'|
      ensures Linked(nodes', i)
    {
      assert i < |nodes| ==> Linked(nodes, i);
    }
  }

  // ---- Paths to the root ----

  /** `x` is `c` or an ancestor of it. */
  predicate OnPath(nodes: seq<Node>, c: nat, x: nat)
    requires IsTree(nodes) && c < |nodes|
    decreases c
  {
    c == x || (c != 0 && OnPath(nodes, Parent(nodes, c), x))
  }

  lemma {:induction false} PathDown(nodes: seq<Node>, c: nat, x: nat)
    requires IsTree(nodes) && c < |nodes| && OnPath(nodes, c, x)
    ensures x <= c && nodes[x].depth <= nodes[c].depth
    ensures nodes[x].depth == nodes[c].depth ==> x == c
    decreases c
  {
    if c != x {
      PathDown(nodes, Parent(nodes, c), x);
    }
  }

  lemma {:induction false} PathJoins(nodes: seq<Node>, c: nat, q: nat, x: nat)
    requires IsTree(nodes) && c < |nodes| && OnPath(nodes, c, q) && q < |nodes| && OnPath(nodes, q, x)
    ensures OnPath(nodes, c, x)
    decreases c
  {
    if c != q {
      PathJoins(nodes, Parent(nodes, c), q, x);
    }
  }

  /** What is added later does not change the paths. */
  lemma {:induction false} PathExtends(nodes: seq<Node>, nodes': seq<Node>, c: nat, x: nat)
    requires IsTree(nodes) && IsTree(nodes') && nodes <= nodes' && c < |nodes|
    ensures OnPath(nodes', c, x) == OnPath(nodes, c, x)
    decreases c
  {
    if c != 0 {
      PathExtends(nodes, nodes', Parent(nodes, c), x);
    }
  }

  // ---- Saving ----

  /** The line of a node: as many tabs as its parent is deep. */
  function NodeLine(nodes: seq<Node>, i: nat): bytes
    requires IsTree(nodes) && 1 <= i < |nodes|
  {
    var d := nodes[Parent(nodes, i)].depth;
    if nodes[i].IsComment() then CommentLine(d, nodes[i].val) else ItemLine(d, nodes[i].key, nodes[i].val)
  }

  /** What is printed for a node; it does not matter for the order of the nodes. */
  type Printer = nat -> bytes

  function PrinterOf(nodes: seq<Node>): Printer
    requires IsTree(nodes)
  {
    (i: nat) => if 1 <= i < |nodes| then NodeLine(nodes, i) else []
  }

  /** What save writes for the children of `n` from index `i` on, each followed by its own
      children. */
  function SaveFrom(nodes: seq<Node>, pr: Printer, n: nat, i: nat): bytes
    requires IsTree(nodes) && n < i <= |nodes|
    decreases |nodes| - i
  {
    if i == |nodes| then []
    else if nodes[i].parent == n then
      pr(i) + [LF] + SaveFrom(nodes, pr, i, i + 1) + SaveFrom(nodes, pr, n, i + 1)
    else SaveFrom(nodes, pr, n, i + 1)
  }

  function Saved(nodes: seq<Node>): bytes
    requires IsTree(nodes)
  {
    SaveFrom(nodes, PrinterOf(nodes), 0, 1)
  }

  /** The lines from `i` to `n` as one text, and as the list that is read of it. */
  function LinesFrom(pr: Printer, i: nat, n: nat): bytes
    requires i <= n
    decreases n - i
  {
    if i == n then [] else pr(i) + [LF] + LinesFrom(pr, i + 1, n)
  }

  function ListFrom(pr: Printer, i: nat, n: nat): seq<bytes>
    requires i <= n
    decreases n - i
  {
    if i == n then [] else Pieces(pr(i)) + ListFrom(pr, i + 1, n)
  }

  // ---- The shape of a tree that was loaded ----

  /** The last node up to `i` that is no comment: the current node of the loader. */
  function Current(nodes: seq<Node>, i: nat): (c: nat)
    requires i < |nodes|
    ensures c <= i
  {
    if i == 0 then 0 else if nodes[i].IsComment() then Current(nodes, i - 1) else i
  }

  /** A comment belongs to the current node, another node to that or an ancestor of it. */
  predicate InOrder(nodes: seq<Node>, i: nat)
    requires IsTree(nodes) && 1 <= i < |nodes|
  {
    var c := Current(nodes, i - 1);
    if nodes[i].IsComment() then Parent(nodes, i) == c else OnPath(nodes, c, Parent(nodes, i))
  }

  ghost predicate Shaped(nodes: seq<Node>) {
    IsTree(nodes) && forall i :: 1 <= i < |nodes| ==> InOrder(nodes, i)
  }

  /** The path of the current node has, besides new nodes, only nodes that it had before. */
  lemma CurrentPath(nodes: seq<Node>, i: nat, x: nat)
    requires Shaped(nodes) && 1 <= i < |nodes| && x < i && OnPath(nodes, Current(nodes, i), x)
    ensures OnPath(nodes, Current(nodes, i - 1), x)
    ensures !nodes[i].IsComment() ==> OnPath(nodes, Parent(nodes, i), x)
  {
    assert InOrder(nodes, i);
    if !nodes[i].IsComment() {
      PathJoins(nodes, Current(nodes, i - 1), Parent(nodes, i), x);
    }
  }

  /** A node that is off the path gets no more children. */
  lemma {:induction false} OffPath(nodes: seq<Node>, pr: Printer, x: nat, i: nat)
    requires Shaped(nodes) && x < i <= |nodes| && !OnPath(nodes, Current(nodes, i - 1), x)
    ensures SaveFrom(nodes, pr, x, i) == []
    decreases |nodes| - i
  {
    if i < |nodes| {
      assert InOrder(nodes, i);
      if OnPath(nodes, Current(nodes, i), x) {
        CurrentPath(nodes, i, x);
      }
      OffPath(nodes, pr, x, i + 1);
    }
  }

  /** What is still to be written for a node and all its ancestors. */
  function PathSave(nodes: seq<Node>, pr: Printer, c: nat, i: nat): bytes
    requires IsTree(nodes) && c < i <= |nodes|
    decreases c
  {
    SaveFrom(nodes, pr, c, i) + if c == 0 then [] else PathSave(nodes, pr, Parent(nodes, c), i)
  }

  /** Nodes between the current one and the parent of the next get no more children. */
  lemma {:induction false} Popped(nodes: seq<Node>, pr: Printer, c: nat, q: nat, i: nat)
    requires Shaped(nodes) && c < i < |nodes| && OnPath(nodes, c, q) && Parent(nodes, i) == q && !nodes[i].IsComment()
    ensures PathSave(nodes, pr, c, i) == PathSave(nodes, pr, q, i)
    decreases c
  {
    if c != q {
      var p := Parent(nodes, c);
      PathDown(nodes, p, q);
      NotOnPath(nodes, q, c);
      OffPath(nodes, pr, c, i + 1);
      Popped(nodes, pr, p, q, i);
    }
  }

  lemma NotOnPath(nodes: seq<Node>, q: nat, c: nat)
    requires IsTree(nodes) && q < c < |nodes|
    ensures !OnPath(nodes, q, c)
  {
    if OnPath(nodes, q, c) {
      PathDown(nodes, q, c);
    }
  }

  lemma {:induction false} AncestorsSkip(nodes: seq<Node>, pr: Printer, y: nat, i: nat)
    requires IsTree(nodes) && y < i < |nodes| && y < Parent(nodes, i)
    ensures PathSave(nodes, pr, y, i) == PathSave(nodes, pr, y, i + 1)
    decreases y
  {
    if y != 0 {
      AncestorsSkip(nodes, pr, Parent(nodes, y), i);
    }
  }

  lemma SaveNext(nodes: seq<Node>, pr: Printer, i: nat, q: nat)
    requires IsTree(nodes) && 1 <= i < |nodes| && q == Parent(nodes, i)
    ensures PathSave(nodes, pr, q, i) == pr(i) + [LF] + (SaveFrom(nodes, pr, i, i + 1) + PathSave(nodes, pr, q, i + 1))
  {
    if q != 0 {
      AncestorsSkip(nodes, pr, Parent(nodes, q), i);
    }
    var text, below, next := pr(i) + [LF], SaveFrom(nodes, pr, i, i + 1), SaveFrom(nodes, pr, q, i + 1);
    var above := if q == 0 then [] else PathSave(nodes, pr, Parent(nodes, q), i);
    assert ((text + below) + next) + above == text + (below + (next + above));
  }

  /** Saving visits the nodes in the order in which they were made. */
  lemma {:induction false} SaveIsInOrder(nodes: seq<Node>, pr: Printer, i: nat, c: nat, saved: bytes, lines: bytes)
    requires Shaped(nodes) && 1 <= i <= |nodes| && c == Current(nodes, i - 1)
    requires saved == PathSave(nodes, pr, c, i) && lines == LinesFrom(pr, i, |nodes|)
    ensures saved == lines
    decreases |nodes| - i
  {
    if i == |nodes| {
      NothingLeft(nodes, pr, c);
    } else {
      var next, saved' := SaveOne(nodes, pr, i, c);
      SaveIsInOrder(nodes, pr, i + 1, next, saved', LinesFrom(pr, i + 1, |nodes|));
    }
  }

  lemma SaveOne(nodes: seq<Node>, pr: Printer, i: nat, c: nat) returns (next: nat, saved: bytes)
    requires Shaped(nodes) && 1 <= i < |nodes| && c == Current(nodes, i - 1)
    ensures next == Current(nodes, i) && saved == PathSave(nodes, pr, next, i + 1)
    ensures PathSave(nodes, pr, c, i) == pr(i) + [LF] + saved
  {
    next := Current(nodes, i);
    saved := PathSave(nodes, pr, next, i + 1);
    var q := Parent(nodes, i);
    assert InOrder(nodes, i);
    if !nodes[i].IsComment() {
      Popped(nodes, pr, c, q, i);
    }
    SaveNext(nodes, pr, i, q);
    NewCurrent(nodes, pr, i, q);
  }

  /** Behind node `i`, its children come first, and then those of its ancestors. */
  lemma NewCurrent(nodes: seq<Node>, pr: Printer, i: nat, q: nat)
    requires Shaped(nodes) && 1 <= i < |nodes| && q == Parent(nodes, i)
    ensures PathSave(nodes, pr, Current(nodes, i), i + 1) ==
            SaveFrom(nodes, pr, i, i + 1) + PathSave(nodes, pr, q, i + 1)
  {
    assert InOrder(nodes, i);
    if nodes[i].IsComment() {
      NotOnPath(nodes, q, i);
      OffPath(nodes, pr, i, i + 1);
    }
  }

  lemma {:induction false} NothingLeft(nodes: seq<Node>, pr: Printer, c: nat)
    requires IsTree(nodes) && c < |nodes|
    ensures PathSave(nodes, pr, c, |nodes|) == []
    decreases c
  {
    if c != 0 {
      NothingLeft(nodes, pr, Parent(nodes, c));
    }
  }

  lemma SavedIs(nodes: seq<Node>)
    requires Shaped(nodes)
    ensures Saved(nodes) == LinesFrom(PrinterOf(nodes), 1, |nodes|)
  {
    var pr := PrinterOf(nodes);
    SaveIsInOrder(nodes, pr, 1, 0, PathSave(nodes, pr, 0, 1), LinesFrom(pr, 1, |nodes|));
    assert PathSave(nodes, pr, 0, 1) == SaveFrom(nodes, pr, 0, 1) + [];
  }

  // ---- Loading ----

  datatype Loader = Loader(nodes: seq<Node>, cfg: nat, last: nat)

  const START := Loader([ROOT], 0, 0)

  /** `n` steps towards the root, where it stays. */
  function Up(nodes: seq<Node>, c: nat, n: nat): (r: nat)
    requires IsTree(nodes) && c < |nodes|
    ensures r < |nodes|
    decreases n
  {
    if n == 0 then c else Up(nodes, if c != 0 then Parent(nodes, c) else c, n - 1)
  }

  ghost predicate Ready(l: Loader) {
    IsTree(l.nodes) && l.cfg < |l.nodes|
  }

  /** One line; nothing when it is wrong. */
  function Read(l: Loader, line: Line): (r: Option<Loader>)
    requires Ready(l)
    ensures r.Some? ==> Ready(r.value)
  {
    match line
    case Blank => Some(l)
    case Bad => None
    case Comment(val) =>
      AddChildKeepsTree(l.nodes, l.cfg, [HASH], val);
      Some(l.(nodes := l.nodes + [NewChild(l.nodes, l.cfg, [HASH], val)]))
    case Item(indent, key, val) =>
      if indent > l.last + 1 then None
      else
        var p := if indent <= l.last then Up(l.nodes, l.cfg, l.last - indent + 1) else l.cfg;
        AddChildKeepsTree(l.nodes, p, key, val);
        Some(Loader(l.nodes + [NewChild(l.nodes, p, key, val)], |l.nodes|, indent))
  }

  function ReadAll(l: Loader, lines: seq<bytes>): (r: Option<Loader>)
    requires Ready(l)
    ensures r.Some? ==> Ready(r.value)
    decreases |lines|
  {
    if lines == [] then Some(l)
    else
      var l' := Read(l, Parse(lines[0]));
      if l'.None? then None else ReadAll(l'.value, lines[1..])
  }

  /** The tree of a text, or nothing when a line is wrong. */
  function Loaded(text: bytes): Option<seq<Node>> {
    var r := ReadAll(START, Lines(text));
    if r.None? then None else Some(r.value.nodes)
  }

  // ---- What loading makes ----

  predicate GoodNode(n: Node) {
    if n.IsComment() then n.key == [HASH] && Plain(n.val) else GoodKey(n.key) && GoodValue(n.val)
  }

  /** A tree as loading makes it. */
  ghost predicate Proper(nodes: seq<Node>) {
    Shaped(nodes) && nodes[0] == ROOT && forall i :: 1 <= i < |nodes| ==> GoodNode(nodes[i])
  }

  ghost predicate Sound(l: Loader) {
    Proper(l.nodes) && l.cfg == Current(l.nodes, |l.nodes| - 1)
  }

  lemma {:induction false} UpIsOnPath(nodes: seq<Node>, c: nat, n: nat)
    requires IsTree(nodes) && c < |nodes|
    ensures OnPath(nodes, c, Up(nodes, c, n))
    decreases n
  {
    if n > 0 && c != 0 {
      UpIsOnPath(nodes, Parent(nodes, c), n - 1);
    } else if n > 0 {
      UpIsOnPath(nodes, c, n - 1);
    }
  }

  lemma {:induction false} CurrentExtends(nodes: seq<Node>, nodes': seq<Node>, i: nat)
    requires nodes <= nodes' && i < |nodes|
    ensures Current(nodes', i) == Current(nodes, i)
  {
    if i > 0 {
      CurrentExtends(nodes, nodes', i - 1);
    }
  }

  lemma InOrderExtends(nodes: seq<Node>, nodes': seq<Node>, i: nat)
    requires IsTree(nodes) && IsTree(nodes') && nodes <= nodes' && 1 <= i < |nodes|
    ensures InOrder(nodes', i) == InOrder(nodes, i)
  {
    CurrentExtends(nodes, nodes', i - 1);
    PathExtends(nodes, nodes', Current(nodes, i - 1), Parent(nodes, i));
  }

  lemma AddKeepsProper(nodes: seq<Node>, c: nat, p: nat, n: Node)
    requires Proper(nodes) && c == Current(nodes, |nodes| - 1) && OnPath(nodes, c, p) && p < |nodes|
    requires n == NewChild(nodes, p, n.key, n.val) && GoodNode(n) && (n.IsComment() ==> p == c)
    ensures Proper(nodes + [n])
    ensures Current(nodes + [n], |nodes|) == if n.IsComment() then c else |nodes|
  {
    var nodes' := nodes + [n];
    AddChildKeepsTree(nodes, p, n.key, n.val);
    CurrentExtends(nodes, nodes', |nodes| - 1);
    PathExtends(nodes, nodes', c, p);
    forall i | 1 <= i < |nodes'|
      ensures InOrder(nodes', i)
    {
      if i < |nodes| {
        InOrderExtends(nodes, nodes', i);
      }
    }
  }

  predicate GoodLine(line: Line) {
    && (line.Item? ==> GoodKey(line.key) && GoodValue(line.val))
    && (line.Comment? ==> Plain(line.val))
  }

  lemma ReadKeepsSound(l: Loader, line: Line)
    requires Sound(l) && GoodLine(line)
    ensures
      var r := Read(l, line);
      r.Some? ==> Sound(r.value) && l.nodes <= r.value.nodes
  {
    if line.Comment? {
      AddKeepsProper(l.nodes, l.cfg, l.cfg, NewChild(l.nodes, l.cfg, [HASH], line.val));
    } else if line.Item? && line.indent <= l.last + 1 {
      ItemKeepsSound(l, line.indent, line.key, line.val);
    }
  }

  lemma ItemKeepsSound(l: Loader, indent: nat, key: bytes, val: bytes)
    requires Sound(l) && GoodKey(key) && GoodValue(val) && indent <= l.last + 1
    ensures
      var r := Read(l, Item(indent, key, val));
      r.Some? && Sound(r.value) && l.nodes <= r.value.nodes
  {
    var p := if indent <= l.last then Up(l.nodes, l.cfg, l.last - indent + 1) else l.cfg;
    if indent <= l.last {
      UpIsOnPath(l.nodes, l.cfg, l.last - indent + 1);
    }
    AddKeepsProper(l.nodes, l.cfg, p, NewChild(l.nodes, p, key, val));
  }

  lemma {:induction false} ReadAllKeepsSound(l: Loader, lines: seq<bytes>)
    requires Sound(l) && forall i :: 0 <= i < |lines| ==> Plain(lines[i])
    ensures
      var r := ReadAll(l, lines);
      r.Some? ==> Sound(r.value) && l.nodes <= r.value.nodes
    decreases |lines|
  {
    if lines != [] {
      ParseGives(lines[0]);
      ReadKeepsSound(l, Parse(lines[0]));
      var r := Read(l, Parse(lines[0]));
      if r.Some? {
        ReadAllKeepsSound(r.value, lines[1..]);
      }
    }
  }

  /** Every tree that a text loads to is proper. */
  lemma LoadedIsProper(text: bytes)
    requires Loaded(text).Some?
    ensures Proper(Loaded(text).value)
  {
    forall k | 0 <= k < |Lines(text)|
      ensures Plain(Lines(text)[k])
    {
      LinesArePlain(text, k);
    }
    ReadAllKeepsSound(START, Lines(text));
  }

  // ---- Loading what was saved ----

  /** The loader when it has read the first `i` nodes. */
  ghost function At(nodes: seq<Node>, i: nat): Loader
    requires 1 <= i <= |nodes|
  {
    var c := Current(nodes, i - 1);
    Loader(nodes[..i], c, if nodes[c].depth == 0 then 0 else nodes[c].depth - 1)
  }

  lemma {:induction false} UpReaches(nodes: seq<Node>, c: nat, q: nat, n: nat)
    requires IsTree(nodes) && c < |nodes| && OnPath(nodes, c, q) && q < |nodes| && n == nodes[c].depth - nodes[q].depth
    ensures Up(nodes, c, n) == q
    decreases n
  {
    PathDown(nodes, c, q);
    if c != q {
      UpReaches(nodes, Parent(nodes, c), q, n - 1);
    }
  }

  lemma PrefixIsTree(nodes: seq<Node>, i: nat)
    requires IsTree(nodes) && 1 <= i <= |nodes|
    ensures IsTree(nodes[..i])
  {
    forall k | 1 <= k < i
      ensures Linked(nodes[..i], k)
    {
      assert Linked(nodes, k);
    }
  }

  /** Where an entry with the indentation of node `i` goes: to the parent of that node. */
  lemma FindsParent(nodes: seq<Node>, i: nat, c: nat, q: nat)
    requires
      && Shaped(nodes)
      && 1 <= i < |nodes|
      && c == Current(nodes, i - 1)
      && q == Parent(nodes, i)
      && !nodes[i].IsComment()
    ensures Ready(At(nodes, i))
    ensures
      var l, d := At(nodes, i), nodes[q].depth;
      d <= l.last + 1 && q == if d <= l.last then Up(l.nodes, c, l.last - d + 1) else c
  {
    PrefixIsTree(nodes, i);
    var before := nodes[..i];
    assert InOrder(nodes, i);
    PathExtends(before, nodes, c, q);
    PathDown(before, c, q);
    UpReaches(before, c, q, before[c].depth - before[q].depth);
    PathDownToRoot(before, c);
    if before[c].depth == 0 {
      assert Up(before, 0, 1) == 0 by { assert Up(before, 0, 0) == 0; }
    }
  }

  lemma {:induction false} PathDownToRoot(nodes: seq<Node>, c: nat)
    requires IsTree(nodes) && c < |nodes|
    ensures nodes[c].depth == 0 <==> c == 0
  {
    if c != 0 {
      assert nodes[c].depth == nodes[Parent(nodes, c)].depth + 1;
    }
  }

  /** What the line of a node says. */
  function NodeSays(nodes: seq<Node>, i: nat): Line
    requires IsTree(nodes) && 1 <= i < |nodes|
  {
    if nodes[i].IsComment() then Comment(nodes[i].val)
    else Item(nodes[Parent(nodes, i)].depth, nodes[i].key, nodes[i].val)
  }

  lemma NodeLineSays(nodes: seq<Node>, i: nat)
    requires IsTree(nodes) && 1 <= i < |nodes| && GoodNode(nodes[i])
    ensures Parse(NodeLine(nodes, i)) == NodeSays(nodes, i)
  {
    var n, d := nodes[i], nodes[Parent(nodes, i)].depth;
    if n.IsComment() {
      WrittenCommentReads(d, n.val);
    } else {
      WrittenItemReads(d, n.key, n.val);
    }
  }

  /** The line of node `i` makes node `i` again. */
  lemma ReadsNode(nodes: seq<Node>, i: nat, l: Loader)
    requires Shaped(nodes) && 1 <= i < |nodes| && GoodNode(nodes[i]) && l == At(nodes, i) && Ready(l)
    ensures Read(l, NodeSays(nodes, i)) == Some(At(nodes, i + 1))
  {
    var n, c, q := nodes[i], Current(nodes, i - 1), Parent(nodes, i);
    assert InOrder(nodes, i);
    assert nodes[..i + 1] == nodes[..i] + [n];
    assert n == NewChild(l.nodes, q, n.key, n.val);
    if !n.IsComment() {
      FindsParent(nodes, i, c, q);
      PathDownToRoot(nodes, i);
    }
  }

  lemma ReadAllStep(l: Loader, line: bytes, says: Line, l': Loader, rest: seq<bytes>)
    requires Ready(l) && Parse(line) == says && Read(l, says) == Some(l')
    ensures ReadAll(l, [line] + rest) == ReadAll(l', rest)
  {
    assert ([line] + rest)[1..] == rest;
  }

  /** The line of a node fits the buffer of the loader, or has but one byte too many, which
      is a blank that does not matter. */
  predicate Survives(nodes: seq<Node>, i: nat)
    requires IsTree(nodes) && 1 <= i < |nodes|
  {
    || |NodeLine(nodes, i)| < MAX_LINE - 1
    || (|NodeLine(nodes, i)| == MAX_LINE - 1 && !nodes[i].IsComment() && nodes[i].val == [])
  }

  lemma ReadsPieces(nodes: seq<Node>, i: nat, line: bytes, l: Loader, l': Loader, rest: seq<bytes>)
    requires IsTree(nodes) && 1 <= i < |nodes| && GoodNode(nodes[i]) && Survives(nodes, i) && line == NodeLine(nodes, i)
    requires Ready(l) && Read(l, NodeSays(nodes, i)) == Some(l')
    ensures ReadAll(l, Pieces(line) + rest) == ReadAll(l', rest)
  {
    var says := NodeSays(nodes, i);
    if |line| < MAX_LINE - 1 {
      NodeLineSays(nodes, i);
      ReadAllStep(l, line, says, l', rest);
    } else {
      CutItemReads(nodes[Parent(nodes, i)].depth, nodes[i].key, line);
      var cut := line[..MAX_LINE - 2];
      assert Pieces(line) + rest == [cut] + ([[]] + rest);
      ReadAllStep(l, cut, says, l', [[]] + rest);
      ReadAllStep(l', [], Blank, l', rest);
    }
  }

  /** Line `k` takes the loader from `at(k)` to `at(k + 1)`, whatever follows it. */
  ghost predicate Leads(pr: Printer, at: nat -> Loader, k: nat) {
    && Ready(at(k)) && Ready(at(k + 1))
    && forall rest :: ReadAll(at(k), Pieces(pr(k)) + rest) == ReadAll(at(k + 1), rest)
  }

  lemma {:induction false} ReadsLines(pr: Printer, at: nat -> Loader, i: nat, n: nat, lines: seq<bytes>,
                                      more: seq<bytes>)
    requires i <= n && (forall k: nat :: i <= k < n ==> Leads(pr, at, k)) && Ready(at(i)) && Ready(at(n))
    requires lines == ListFrom(pr, i, n) + more
    ensures ReadAll(at(i), lines) == ReadAll(at(n), more)
    decreases n - i
  {
    if i < n {
      assert Leads(pr, at, i);
      var rest := ListFrom(pr, i + 1, n);
      Sequences.Associate(Pieces(pr(i)), rest, more);
      ReadsLines(pr, at, i + 1, n, rest + more, more);
    } else {
      assert lines == more;
    }
  }

  ghost function Ats(nodes: seq<Node>): nat -> Loader {
    (i: nat) => if 1 <= i <= |nodes| then At(nodes, i) else START
  }

  /** The lines of the nodes up to `n` make these nodes. */
  lemma ReadsNodes(nodes: seq<Node>, n: nat, lines: seq<bytes>, more: seq<bytes>)
    requires Proper(nodes) && 1 <= n <= |nodes| && (forall k :: 1 <= k < n ==> Survives(nodes, k))
    requires lines == ListFrom(PrinterOf(nodes), 1, n) + more
    ensures Ready(At(nodes, n)) && ReadAll(START, lines) == ReadAll(At(nodes, n), more)
  {
    var pr, at := PrinterOf(nodes), Ats(nodes);
    forall k: nat | 1 <= k < n
      ensures Leads(pr, at, k)
    {
      NodeLeads(nodes, k);
    }
    PrefixIsTree(nodes, n);
    assert nodes[..1] == [ROOT] && at(1) == START;
    ReadsLines(pr, at, 1, n, lines, more);
  }

  lemma NodeLeads(nodes: seq<Node>, k: nat)
    requires Proper(nodes) && 1 <= k < |nodes| && Survives(nodes, k)
    ensures Leads(PrinterOf(nodes), Ats(nodes), k)
  {
    PrefixIsTree(nodes, k);
    assert GoodNode(nodes[k]);
    var l, l', line := At(nodes, k), At(nodes, k + 1), NodeLine(nodes, k);
    ReadsNode(nodes, k, l);
    forall rest
      ensures ReadAll(l, Pieces(line) + rest) == ReadAll(l', rest)
    {
      ReadsPieces(nodes, k, line, l, l', rest);
    }
    LeadsIs(PrinterOf(nodes), Ats(nodes), k, l, l', line);
  }

  lemma LeadsIs(pr: Printer, at: nat -> Loader, k: nat, l: Loader, l': Loader, line: bytes)
    requires at(k) == l && at(k + 1) == l' && pr(k) == line && Ready(l) && Ready(l')
    requires forall rest :: ReadAll(l, Pieces(line) + rest) == ReadAll(l', rest)
    ensures Leads(pr, at, k)
  {
  }

  lemma NodeLineIsPlain(nodes: seq<Node>, i: nat)
    requires Proper(nodes) && 1 <= i < |nodes|
    ensures Plain(NodeLine(nodes, i))
  {
    var n, d := nodes[i], nodes[Parent(nodes, i)].depth;
    assert GoodNode(n);
    if n.IsComment() {
      WrittenCommentReads(d, n.val);
    } else {
      WrittenItemIsPlain(d, n.key, n.val);
    }
  }

  predicate AlmostFits(line: bytes) {
    Plain(line) && |line| <= MAX_LINE - 1
  }

  /** How the lines from `i` to `m` are read, in a text that goes on to `n`. */
  lemma {:induction false} LinesOfAll(pr: Printer, i: nat, m: nat, n: nat, text: bytes, rest: bytes, list: seq<bytes>)
    requires i <= m <= n && forall k: nat :: i <= k < m ==> AlmostFits(pr(k))
    requires text == LinesFrom(pr, i, n) && rest == LinesFrom(pr, m, n) && list == ListFrom(pr, i, m)
    ensures Lines(text) == list + Lines(rest) && (Readable(text) <==> Readable(rest))
    decreases m - i
  {
    if i < m {
      assert AlmostFits(pr(i));
      var text', list' := LinesFrom(pr, i + 1, n), ListFrom(pr, i + 1, m);
      LinesOfPieces(pr(i), text');
      LinesOfAll(pr, i + 1, m, n, text', rest, list');
      Sequences.Associate(Pieces(pr(i)), list', Lines(rest));
    } else {
      assert [] + Lines(rest) == Lines(rest);
    }
  }

  /** What loading a saved tree comes to, up to the first line that does not survive. */
  lemma LoadsUpTo(nodes: seq<Node>, m: nat)
    requires Proper(nodes) && 1 <= m <= |nodes| && forall k :: 1 <= k < m ==> Survives(nodes, k)
    ensures
      var rest := LinesFrom(PrinterOf(nodes), m, |nodes|);
      && Ready(At(nodes, m)) && (Readable(Saved(nodes)) <==> Readable(rest))
      && ReadAll(START, Lines(Saved(nodes))) == ReadAll(At(nodes, m), Lines(rest))
  {
    var pr := PrinterOf(nodes);
    SavedIs(nodes);
    forall k: nat | 1 <= k < m
      ensures AlmostFits(pr(k))
    {
      assert Survives(nodes, k);
      NodeLineIsPlain(nodes, k);
    }
    var rest, list := LinesFrom(pr, m, |nodes|), ListFrom(pr, 1, m);
    LinesOfAll(pr, 1, m, |nodes|, Saved(nodes), rest, list);
    ReadsNodes(nodes, m, Lines(Saved(nodes)), Lines(rest));
  }

  /** Loading, saving and loading again gives the same tree, with its keys, values,
      comments, parents and depths, when the saved lines survive. */
  lemma SavedLoadsAgain(nodes: seq<Node>)
    requires Proper(nodes) && forall k :: 1 <= k < |nodes| ==> Survives(nodes, k)
    ensures Loaded(Saved(nodes)) == Some(nodes) && Readable(Saved(nodes))
  {
    LoadsUpTo(nodes, |nodes|);
    assert nodes[..|nodes|] == nodes;
  }

  lemma {:induction false} ReadAllGrows(l: Loader, lines: seq<bytes>)
    requires Ready(l)
    ensures ReadAll(l, lines).Some? ==> l.nodes <= ReadAll(l, lines).value.nodes
    decreases |lines|
  {
    if lines != [] {
      var r := Read(l, Parse(lines[0]));
      if r.Some? {
        ReadAllGrows(r.value, lines[1..]);
      }
    }
  }
}
