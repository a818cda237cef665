/**
 Exactly which loaded configurations come back when they are saved and loaded again: lines
 grow when they are saved, and may then no longer fit the line buffer.
 */
module ConfigLimits {
  import opened Bytes
  import opened ConfigText
  import opened ConfigTree

  // ---- How deep a loaded tree is ----

  /** The deepest that an entry that was read can be: a tab for each level and one byte more
      fit a line. */
  const DEEPEST: nat := MAX_LINE - 2

  predicate DepthOk(n: Node) {
    n.depth <= if n.IsComment() then DEEPEST + 1 else DEEPEST
  }

  ghost predicate Shallow(l: Loader) {
    && Ready(l)
    && (forall i :: 0 <= i < |l.nodes| ==> DepthOk(l.nodes[i]))
    && l.nodes[l.cfg].depth <= DEEPEST && l.nodes[l.cfg].depth <= l.last + 1
  }

  lemma {:induction false} UpDepth(nodes: seq<Node>, c: nat, n: nat)
    requires IsTree(nodes) && c < |nodes|
    ensures nodes[Up(nodes, c, n)].depth == if n <= nodes[c].depth then nodes[c].depth - n else 0
    decreases n
  {
    if n > 0 {
      PathDownToRoot(nodes, c);
      UpDepth(nodes, if c != 0 then Parent(nodes, c) else c, n - 1);
    }
  }

  lemma ItemIsShallow(l: Loader, indent: nat, key: bytes, val: bytes)
    requires Shallow(l) && GoodKey(key) && indent < DEEPEST && indent <= l.last + 1
    ensures
      var r := Read(l, Item(indent, key, val));
      r.Some? && Shallow(r.value)
  {
    if indent <= l.last {
      UpDepth(l.nodes, l.cfg, l.last - indent + 1);
    }
  }

  lemma ReadIsShallow(l: Loader, line: bytes)
    requires Shallow(l) && Plain(line) && |line| <= DEEPEST
    ensures
      var r := Read(l, Parse(line));
      r.Some? ==> Shallow(r.value)
  {
    ParseGives(line);
    var p := Parse(line);
    if p.Item? && p.indent <= l.last + 1 {
      ItemIsShallow(l, p.indent, p.key, p.val);
    }
  }

  lemma {:induction false} ReadAllIsShallow(l: Loader, lines: seq<bytes>)
    requires Shallow(l) && forall i :: 0 <= i < |lines| ==> Plain(lines[i]) && |lines[i]| <= DEEPEST
    ensures ReadAll(l, lines).Some? ==> Shallow(ReadAll(l, lines).value)
    decreases |lines|
  {
    if lines != [] {
      ReadIsShallow(l, lines[0]);
      var r := Read(l, Parse(lines[0]));
      if r.Some? {
        ReadAllIsShallow(r.value, lines[1..]);
      }
    }
  }

  lemma LoadedIsShallow(text: bytes)
    requires Loaded(text).Some?
    ensures forall i :: 0 <= i < |Loaded(text).value| ==> DepthOk(Loaded(text).value[i])
  {
    forall k | 0 <= k < |Lines(text)|
      ensures Plain(Lines(text)[k]) && |Lines(text)[k]| <= DEEPEST
    {
      LinesArePlain(text, k);
      LinesAreShort(text, k);
    }
    ReadAllIsShallow(START, Lines(text));
  }

  // ---- Entries that were cut ----

  /** The first piece of an entry that does not survive is wrong or makes another node. */
  lemma CutMakesOther(nodes: seq<Node>, i: nat, l: Loader)
    requires Proper(nodes) && 1 <= i < |nodes| && !Survives(nodes, i) && !nodes[i].IsComment() && DepthOk(nodes[i])
    requires Ready(l) && l.nodes == nodes[..i]
    ensures
      var r := Read(l, Parse(NodeLine(nodes, i)[..MAX_LINE - 2]));
      r.Some? ==> |r.value.nodes| == i + 1 && r.value.nodes[i] != nodes[i]
  {
    assert GoodNode(nodes[i]);
    CutItem(nodes[Parent(nodes, i)].depth, nodes[i].key, nodes[i].val, MAX_LINE - 2);
  }

  /** When the first line that does not survive is an entry, loading what was saved fails or
      gives another tree. */
  lemma CutTreeDiffers(nodes: seq<Node>, i: nat)
    requires Proper(nodes) && 1 <= i < |nodes| && !nodes[i].IsComment() && DepthOk(nodes[i])
    requires !Survives(nodes, i) && forall k :: 1 <= k < i ==> Survives(nodes, k)
    ensures Loaded(Saved(nodes)) != Some(nodes)
  {
    var pr, n := PrinterOf(nodes), |nodes|;
    LoadsUpTo(nodes, i);
    NodeLineIsPlain(nodes, i);
    var lines := Lines(LinesFrom(pr, i, n));
    LinesOfLongLine(NodeLine(nodes, i), LinesFrom(pr, i + 1, n));
    var l := At(nodes, i);
    CutMakesOther(nodes, i, l);
    var r := Read(l, Parse(lines[0]));
    if r.Some? {
      ReadAllGrows(r.value, lines[1..]);
    }
  }

  // ---- Comments that were cut ----

  /** What a node takes on its line, besides the tabs and the blank behind the colon. */
  function Weight(n: Node): nat {
    |n.key| + |n.val| + if n.IsComment() then 0 else 1
  }

  function Total(nodes: seq<Node>): nat {
    if nodes == [] then 0 else Total(nodes[..|nodes| - 1]) + Weight(nodes[|nodes| - 1])
  }

  lemma TotalSnoc(nodes: seq<Node>, n: Node)
    ensures Total(nodes + [n]) == Total(nodes) + Weight(n)
  {
    assert (nodes + [n])[..|nodes|] == nodes;
  }

  /** A line makes no node that is heavier than what is behind its tabs. */
  lemma ParseWeighs(line: bytes)
    ensures
      var p := Parse(line);
      var ink := |line| - CountTabs(line);
      && (p.Comment? ==> 1 + |p.val| <= ink)
      && (p.Item? ==> |p.key| + |p.val| + 1 <= ink)
  {
    var p := Parse(line);
    if p.Item? {
      var s := line[CountTabs(line)..];
      TrimShortens(s[..KeyLength(s)]);
      TrimShortens(s[KeyLength(s) + 1..]);
    }
  }

  lemma ReadWeighs(l: Loader, line: bytes)
    requires Ready(l) && Plain(line)
    ensures
      var r := Read(l, Parse(line));
      r.Some? ==> Total(r.value.nodes) <= Total(l.nodes) + |line| - CountTabs(line)
  {
    ParseWeighs(line);
    ParseGives(line);
    var r := Read(l, Parse(line));
    if r.Some? && |r.value.nodes| > |l.nodes| {
      TotalSnoc(l.nodes, r.value.nodes[|l.nodes|]);
    }
  }

  lemma ReadAllStepBack(l: Loader, line: bytes, rest: seq<bytes>) returns (l': Loader)
    requires Ready(l) && ReadAll(l, [line] + rest).Some?
    ensures Ready(l') && Read(l, Parse(line)) == Some(l') && ReadAll(l, [line] + rest) == ReadAll(l', rest)
  {
    assert ([line] + rest)[1..] == rest;
    l' := Read(l, Parse(line)).value;
  }

  /** Reading a line of any length adds no more than its length. */
  lemma {:induction false} LineWeighs(l: Loader, line: bytes, rest: bytes) returns (l': Loader)
    requires Ready(l) && Plain(line) && ReadAll(l, Lines(line + [LF] + rest)).Some?
    ensures Ready(l') && ReadAll(l, Lines(line + [LF] + rest)) == ReadAll(l', Lines(rest))
    ensures Total(l'.nodes) <= Total(l.nodes) + |line|
    decreases |line|
  {
    if |line| < MAX_LINE - 1 {
      LinesOfLine(line, rest);
      l' := ReadAllStepBack(l, line, Lines(rest));
      ReadWeighs(l, line);
    } else {
      var first, more := line[..MAX_LINE - 2], line[MAX_LINE - 1..];
      LinesOfLongLine(line, rest);
      var l1 := ReadAllStepBack(l, first, Lines(more + [LF] + rest));
      ReadWeighs(l, first);
      l' := LineWeighs(l1, more, rest);
    }
  }

  lemma {:induction false} CutTabs(line: bytes, m: nat)
    requires CountTabs(line) <= m <= |line|
    ensures CountTabs(line[..m]) == CountTabs(line)
  {
    if line != [] && line[0] == TAB {
      CutTabs(line[1..], m - 1);
      assert line[..m][1..] == line[1..][..m - 1];
    }
  }

  /** Reading a line that is cut adds less than what is behind its tabs. */
  lemma CutLineWeighs(l: Loader, line: bytes, rest: bytes) returns (l': Loader)
    requires Ready(l) && Plain(line) && |line| >= MAX_LINE - 1 && CountTabs(line) <= MAX_LINE - 2
    requires ReadAll(l, Lines(line + [LF] + rest)).Some?
    ensures Ready(l') && ReadAll(l, Lines(line + [LF] + rest)) == ReadAll(l', Lines(rest))
    ensures Total(l'.nodes) < Total(l.nodes) + |line| - CountTabs(line)
  {
    var first, more := line[..MAX_LINE - 2], line[MAX_LINE - 1..];
    LinesOfLongLine(line, rest);
    var l1 := ReadAllStepBack(l, first, Lines(more + [LF] + rest));
    ReadWeighs(l, first);
    CutTabs(line, MAX_LINE - 2);
    l' := LineWeighs(l1, more, rest);
  }

  lemma FirstPieceSays(nodes: seq<Node>, i: nat, line: bytes)
    requires IsTree(nodes) && 1 <= i < |nodes| && GoodNode(nodes[i]) && Survives(nodes, i) && line == NodeLine(nodes, i)
    ensures Parse(Pieces(line)[0]) == NodeSays(nodes, i)
  {
    if |line| < MAX_LINE - 1 {
      NodeLineSays(nodes, i);
    } else {
      CutItemReads(nodes[Parent(nodes, i)].depth, nodes[i].key, line);
    }
  }

  lemma SurvivorReads(nodes: seq<Node>, i: nat, line: bytes, l: Loader, list: seq<bytes>) returns (l': Loader)
    requires IsTree(nodes) && 1 <= i < |nodes| && GoodNode(nodes[i]) && Survives(nodes, i) && line == NodeLine(nodes, i)
    requires Ready(l) && ReadAll(l, Pieces(line) + list).Some?
    ensures Ready(l') && Read(l, NodeSays(nodes, i)) == Some(l') && ReadAll(l, Pieces(line) + list) == ReadAll(l', list)
  {
    FirstPieceSays(nodes, i, line);
    l' := FirstReads(l, Pieces(line), list);
    ReadsPieces(nodes, i, line, l, l', list);
  }

  lemma FirstReads(l: Loader, pieces: seq<bytes>, list: seq<bytes>) returns (l': Loader)
    requires Ready(l) && pieces != [] && ReadAll(l, pieces + list).Some?
    ensures Ready(l') && Read(l, Parse(pieces[0])) == Some(l')
  {
    assert pieces + list == [pieces[0]] + (pieces[1..] + list);
    l' := ReadAllStepBack(l, pieces[0], pieces[1..] + list);
  }

  lemma SaysWeighs(nodes: seq<Node>, i: nat, l: Loader, l': Loader)
    requires IsTree(nodes) && 1 <= i < |nodes| && GoodNode(nodes[i])
    requires Ready(l) && Read(l, NodeSays(nodes, i)) == Some(l')
    ensures Total(l'.nodes) == Total(l.nodes) + Weight(nodes[i])
  {
    TotalSnoc(l.nodes, l'.nodes[|l.nodes|]);
  }

  /** A line that survives adds exactly the weight of its node. */
  lemma SurvivorWeighs(nodes: seq<Node>, i: nat, l: Loader, rest: bytes) returns (l': Loader)
    requires Proper(nodes) && 1 <= i < |nodes| && Survives(nodes, i)
    requires Ready(l) && ReadAll(l, Lines(NodeLine(nodes, i) + [LF] + rest)).Some?
    ensures Ready(l') && ReadAll(l, Lines(NodeLine(nodes, i) + [LF] + rest)) == ReadAll(l', Lines(rest))
    ensures Total(l'.nodes) == Total(l.nodes) + Weight(nodes[i])
  {
    var line := NodeLine(nodes, i);
    assert GoodNode(nodes[i]);
    NodeLineIsPlain(nodes, i);
    LinesOfPieces(line, rest);
    l' := SurvivorReads(nodes, i, line, l, Lines(rest));
    SaysWeighs(nodes, i, l, l');
  }

  lemma NodeLineTabs(nodes: seq<Node>, i: nat)
    requires Proper(nodes) && 1 <= i < |nodes|
    ensures CountTabs(NodeLine(nodes, i)) == nodes[Parent(nodes, i)].depth
    ensures |NodeLine(nodes, i)| - CountTabs(NodeLine(nodes, i)) ==
            Weight(nodes[i]) + if nodes[i].IsComment() then 0 else 1
  {
    var n, d := nodes[i], nodes[Parent(nodes, i)].depth;
    assert GoodNode(n);
    if n.IsComment() {
      CountTabsOf(d, [HASH] + n.val);
    } else {
      var s := n.key + ([COLON, SPACE] + n.val);
      assert s[0] == if n.key == [] then COLON else n.key[0];
      CountTabsOf(d, s);
    }
  }

  /** A comment that does not survive the line buffer. */
  predicate CutComment(nodes: seq<Node>, i: nat)
    requires IsTree(nodes) && 1 <= i < |nodes|
  {
    nodes[i].IsComment() && !Survives(nodes, i)
  }

  /** The line of a node adds no more than the weight of the node, and less when it is a
      comment that was cut. */
  lemma NodeLineWeighs(nodes: seq<Node>, i: nat, l: Loader, line: bytes, rest: bytes) returns (l': Loader)
    requires Proper(nodes) && 1 <= i < |nodes| && DepthOk(nodes[i]) && line == NodeLine(nodes, i)
    requires Ready(l) && ReadAll(l, Lines(line + [LF] + rest)).Some?
    ensures Ready(l') && ReadAll(l, Lines(line + [LF] + rest)) == ReadAll(l', Lines(rest))
    ensures Total(l'.nodes) <= Total(l.nodes) + Weight(nodes[i]) - if CutComment(nodes, i) then 1 else 0
  {
    if Survives(nodes, i) {
      l' := SurvivorWeighs(nodes, i, l, rest);
    } else {
      NodeLineIsPlain(nodes, i);
      NodeLineTabs(nodes, i);
      l' := CutLineWeighs(l, line, rest);
    }
  }

  /** Whatever was read before and whatever follows, line `k` adds at most `w`. */
  ghost predicate AddsAtMost(pr: Printer, k: nat, w: int) {
    forall l, rest {:trigger AddsThere(pr, k, w, l, rest)} :: AddsThere(pr, k, w, l, rest)
  }

  ghost predicate AddsThere(pr: Printer, k: nat, w: int, l: Loader, rest: bytes) {
    Ready(l) && ReadAll(l, Lines(pr(k) + [LF] + rest)).Some? ==>
      exists l' :: Ready(l') && ReadAll(l, Lines(pr(k) + [LF] + rest)) == ReadAll(l', Lines(rest))
                   && Total(l'.nodes) <= Total(l.nodes) + w
  }

  function Sum(w: nat -> int, i: nat, n: nat): int
    requires i <= n
    decreases n - i
  {
    if i == n then 0 else w(i) + Sum(w, i + 1, n)
  }

  lemma {:induction false} LinesAdd(pr: Printer, w: nat -> int, i: nat, n: nat, l: Loader, text: bytes)
    requires i <= n && (forall k: nat :: i <= k < n ==> AddsAtMost(pr, k, w(k))) && text == LinesFrom(pr, i, n)
    requires Ready(l) && ReadAll(l, Lines(text)).Some?
    ensures Total(ReadAll(l, Lines(text)).value.nodes) <= Total(l.nodes) + Sum(w, i, n)
    decreases n - i
  {
    if i < n {
      var rest := LinesFrom(pr, i + 1, n);
      assert AddsAtMost(pr, i, w(i)) && AddsThere(pr, i, w(i), l, rest);
      var l' :|
        && Ready(l')
        && ReadAll(l, Lines(text)) == ReadAll(l', Lines(rest))
        && Total(l'.nodes) <= Total(l.nodes) + w(i);
      LinesAdd(pr, w, i + 1, n, l', rest);
    }
  }

  /** What the line of node `k` adds at most. */
  function Added(nodes: seq<Node>): nat -> int
    requires IsTree(nodes)
  {
    (k: nat) => if 1 <= k < |nodes| then Weight(nodes[k]) - (if CutComment(nodes, k) then 1 else 0) else 0
  }

  lemma NodeAdds(nodes: seq<Node>, k: nat)
    requires Proper(nodes) && 1 <= k < |nodes| && DepthOk(nodes[k])
    ensures AddsAtMost(PrinterOf(nodes), k, Added(nodes)(k))
  {
    var pr, w, line := PrinterOf(nodes), Added(nodes)(k), NodeLine(nodes, k);
    forall l, rest
      ensures AddsThere(pr, k, w, l, rest)
    {
      if Ready(l) && ReadAll(l, Lines(line + [LF] + rest)).Some? {
        var l' := NodeLineWeighs(nodes, k, l, line, rest);
      }
    }
  }

  /** With a comment that was cut, less is added than the nodes weigh. */
  lemma {:induction false} SumIsLess(nodes: seq<Node>, i: nat, k: nat)
    requires IsTree(nodes) && 1 <= i <= |nodes|
    ensures Total(nodes[..i]) + Sum(Added(nodes), i, |nodes|) <= Total(nodes)
    ensures i <= k < |nodes| && CutComment(nodes, k) ==>
      Total(nodes[..i]) + Sum(Added(nodes), i, |nodes|) < Total(nodes)
    decreases |nodes| - i
  {
    if i == |nodes| {
      assert nodes[..i] == nodes;
    } else {
      assert nodes[..i + 1] == nodes[..i] + [nodes[i]];
      TotalSnoc(nodes[..i], nodes[i]);
      SumIsLess(nodes, i + 1, k);
    }
  }

  /** The loaded nodes are then lighter than the saved ones. */
  lemma CutCommentDiffers(nodes: seq<Node>, i: nat)
    requires Proper(nodes) && 1 <= i < |nodes| && CutComment(nodes, i)
    requires forall k :: 0 <= k < |nodes| ==> DepthOk(nodes[k])
    ensures Loaded(Saved(nodes)) != Some(nodes)
  {
    if Loaded(Saved(nodes)).Some? {
      SavedIs(nodes);
      forall k: nat | 1 <= k < |nodes|
        ensures AddsAtMost(PrinterOf(nodes), k, Added(nodes)(k))
      {
        NodeAdds(nodes, k);
      }
      LinesAdd(PrinterOf(nodes), Added(nodes), 1, |nodes|, START, Saved(nodes));
      SumIsLess(nodes, 1, i);
      assert nodes[..1] == [ROOT];
    }
  }

  // ---- The exact condition ----

  lemma {:induction false} FirstNotSurviving(nodes: seq<Node>, n: nat) returns (i: nat)
    requires IsTree(nodes) && 1 <= n <= |nodes| && !(forall k :: 1 <= k < n ==> Survives(nodes, k))
    ensures 1 <= i < n && !Survives(nodes, i) && forall k :: 1 <= k < i ==> Survives(nodes, k)
  {
    if forall k :: 1 <= k < n - 1 ==> Survives(nodes, k) {
      i := n - 1;
    } else {
      i := FirstNotSurviving(nodes, n - 1);
    }
  }

  /** Whatever text a tree was loaded from: saved and loaded again it is the same tree if and
      only if each of its lines survives. */
  lemma SavedLoadsExactlyWhen(text: bytes, nodes: seq<Node>)
    requires Loaded(text) == Some(nodes)
    ensures IsTree(nodes)
    ensures Loaded(Saved(nodes)) == Some(nodes) <==> forall k :: 1 <= k < |nodes| ==> Survives(nodes, k)
  {
    LoadedIsProper(text);
    LoadedIsShallow(text);
    if forall k :: 1 <= k < |nodes| ==> Survives(nodes, k) {
      SavedLoadsAgain(nodes);
    } else {
      var i := FirstNotSurviving(nodes, |nodes|);
      if nodes[i].IsComment() {
        CutCommentDiffers(nodes, i);
      } else {
        CutTreeDiffers(nodes, i);
      }
    }
  }

  // ---- A text that is not restored ----

  /** A key, a separator without a blank, and as long a value as fits the line. */
  function FullLine(val: bytes): bytes {
    [107, EQUALS] + val
  }

  lemma FullLineReads(val: bytes)
    requires GoodValue(val)
    ensures Parse(FullLine(val)) == Item(0, [107], val) && Plain(FullLine(val))
  {
    var line, key: bytes := FullLine(val), [107];
    assert line == key + ([EQUALS] + val);
    KeyLengthOf(key, EQUALS, val);
    assert !IsBlank(line[0]) && line[0..] == line;
    assert line[..1] == key && line[2..] == val;
    TrimAgain(key);
    TrimAgain(val);
  }

  /** The line loads, but saved again it is one byte too long. */
  lemma FullLineIsNotRestored(val: bytes)
    requires GoodValue(val) && |val| == MAX_LINE - 4
    ensures
      var text := FullLine(val) + [LF];
      var nodes := [ROOT, Node(0, 1, [107], val)];
      && Readable(text) && Loaded(text) == Some(nodes)
      && IsTree(nodes) && Loaded(Saved(nodes)) != Some(nodes)
  {
    var line, text := FullLine(val), FullLine(val) + [LF];
    var nodes := [ROOT, Node(0, 1, [107], val)];
    FullLineReads(val);
    assert text == line + [LF] + [];
    LinesOfLine(line, []);
    assert Lines(text) == [line];
    assert Up([ROOT], 0, 1) == 0 by { assert Up([ROOT], 0, 0) == 0; }
    assert nodes == [ROOT] + [NewChild([ROOT], 0, [107], val)];
    ReadAllStep(START, line, Item(0, [107], val), Loader(nodes, 1, 0), []);
    assert [line] + [] == [line];
    SavedLoadsExactlyWhen(text, nodes);
    assert !Survives(nodes, 1);
  }

  /** For instance with a value of the letter a. */
  lemma NotRestored() returns (text: bytes, nodes: seq<Node>)
    ensures Readable(text) && Loaded(text) == Some(nodes) && IsTree(nodes) && Loaded(Saved(nodes)) != Some(nodes)
  {
    var val := seq(MAX_LINE - 4, _ => 97 as byte);
    FullLineIsNotRestored(val);
    text, nodes := FullLine(val) + [LF], [ROOT, Node(0, 1, [107], val)];
  }
}
