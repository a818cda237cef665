/**
 The operations of a configuration as the program performs them, each against its
 specification.
 */
module Config {
  import opened Bytes
  import opened ConfigText
  import opened ConfigTree
  import opened ConfigPaths

  // ---- Reading lines ----

  /** One call of fgets on what is left of the file. */
  method Fgets(text: bytes) returns (n: nat)
    requires text != []
    ensures n == ChunkLength(text, MAX_LINE - 1)
  {
    n := 0;
    while true
      invariant n < |text| && n < MAX_LINE - 1
      invariant ChunkLength(text, MAX_LINE - 1) == n + ChunkLength(text[n..], MAX_LINE - 1 - n)
      decreases |text| - n
    {
      assert text[n..][1..] == text[n + 1..];
      n := n + 1;
      if text[n - 1] == LF || n == |text| || n == MAX_LINE - 1 {
        return;
      }
    }
  }

  method Strspn(s: bytes) returns (n: nat)
    ensures n == CountTabs(s)
  {
    n := 0;
    while n < |s| && s[n] == TAB
      invariant n <= |s| && CountTabs(s) == n + CountTabs(s[n..])
    {
      assert s[n..][1..] == s[n + 1..];
      n := n + 1;
    }
  }

  /** Skips the name of a key. */
  method SkipKey(s: bytes) returns (n: nat)
    ensures n == KeyLength(s)
  {
    n := 0;
    while n < |s| && !IsSeparator(s[n])
      invariant n <= |s| && KeyLength(s) == n + KeyLength(s[n..])
    {
      assert s[n..][1..] == s[n + 1..];
      n := n + 1;
    }
  }

  // ---- The tree ----

  class Config {
    var nodes: seq<Node>

    ghost predicate Valid()
      reads this
    {
      IsTree(nodes)
    }

    constructor ()
      ensures Valid() && nodes == [ROOT]
    {
      nodes := [ROOT];
    }

    method AddChild(p: nat, key: bytes, val: bytes) returns (c: nat)
      requires Valid() && p < |nodes|
      modifies this
      ensures Valid() && nodes == old(nodes) + [NewChild(old(nodes), p, key, val)] && c == |old(nodes)|
    {
      AddChildKeepsTree(nodes, p, key, val);
      c := |nodes|;
      nodes := nodes + [NewChild(nodes, p, key, val)];
    }

    /** The loop that goes up once for each level that the indentation went back. */
    method Pop(start: nat, indent: nat, last: nat) returns (cfg: nat)
      requires Valid() && start < |nodes| && indent <= last
      ensures cfg == Up(nodes, start, last - indent + 1)
    {
      cfg := start;
      for i := indent to last + 1
        invariant cfg < |nodes| && Up(nodes, start, last - indent + 1) == Up(nodes, cfg, last + 1 - i)
      {
        if cfg != 0 {
          ghost var p := Parent(nodes, cfg);
          cfg := nodes[cfg].parent;
        }
      }
    }

    /** One line of load: where the next one continues, or failure. */
    method LoadLine(line: bytes, cfg: nat, last: nat) returns (ok: bool, cfg': nat, last': nat)
      requires Valid() && cfg < |nodes|
      modifies this
      ensures Valid()
      ensures
        var r := Read(Loader(old(nodes), cfg, last), Parse(line));
        ok == r.Some? && (ok ==> r.value == Loader(nodes, cfg', last'))
    {
      ok, cfg', last' := true, cfg, last;
      if AllBlank(line) {
        return;
      }
      var indent := Strspn(line);
      if indent == |line| {
        return false, cfg, last;
      }
      var key := line[indent..];
      if key[0] == HASH {
        var _ := AddChild(cfg, [HASH], key[1..]);
        return;
      }
      ok, cfg', last' := LoadItem(indent, key, cfg, last);
    }

    /** A line that is neither blank nor a comment. */
    method LoadItem(indent: nat, key: bytes, cfg: nat, last: nat) returns (ok: bool, cfg': nat, last': nat)
      requires Valid() && cfg < |nodes| && key != [] && key[0] != HASH
      modifies this
      ensures Valid()
      ensures
        var r := Read(Loader(old(nodes), cfg, last), ParseEntry(indent, key));
        ok == r.Some? && (ok ==> r.value == Loader(nodes, cfg', last'))
    {
      cfg', last' := cfg, last;
      if indent <= last {
        cfg' := Pop(cfg, indent, last);
      } else if indent > last + 1 {
        return false, cfg', last';
      }
      if IsSpace(key[0]) {
        return false, cfg', last';
      }
      var n := SkipKey(key);
      if n == |key| {
        return false, cfg', last';
      }
      var name, val := Trim(key[..n]), Trim(key[n + 1..]);
      assert ParseEntry(indent, key) == Item(indent, name, val);
      cfg' := AddChild(cfg', name, val);
      return true, cfg', indent;
    }

    /** find_child: from the last child back. */
    method FindChildOf(n: nat, key: bytes) returns (r: Option<nat>)
      ensures r == FindChild(nodes, n, key)
    {
      var i := |nodes| - 1;
      while i >= 0
        invariant -1 <= i < |nodes| && FindChild(nodes, n, key) == FindBefore(nodes, n, key, i + 1)
      {
        if nodes[i].parent == n && nodes[i].key == key {
          return Some(i);
        }
        i := i - 1;
      }
      return None;
    }

    /** get. */
    method GetPath(n: nat, key: bytes) returns (r: Option<nat>)
      requires Valid() && n < |nodes|
      ensures r == Get(nodes, n, key)
    {
      r := GetFields(n, Copied(key));
    }

    method GetFields(n: nat, path: bytes) returns (r: Option<nat>)
      requires Valid() && n < |nodes|
      ensures r == Walk(nodes, n, FieldsFrom(path, 0))
    {
      var conf: nat, f: nat, more := n, 0, true;
      ghost var goal := Walk(nodes, n, FieldsFrom(path, 0));
      while true
        invariant Walking(nodes, conf, path, f, goal)
        decreases |path| - f
      {
        r, f, more := Follow(conf, path, f, goal);
        if r.None? || !more {
          return;
        }
        conf := r.value;
      }
    }

    /** One field of a path: the child, and where the next field starts if there is one. */
    method Follow(conf: nat, path: bytes, f: nat, ghost goal: Option<nat>)
      returns (r: Option<nat>, next: nat, more: bool)
      requires Walking(nodes, conf, path, f, goal)
      ensures if r.None? || !more then goal == r else f < next && Walking(nodes, r.value, path, next, goal)
    {
      var fs := NextField(path, f);
      r := FindChildOf(conf, path[f..fs]);
      next, more := fs + 1, fs < |path|;
      WalkStep(nodes, conf, path, f, goal, fs, next, path[f..fs], r);
    }

    /** build_key_path. */
    method BuildKeyPath(n: nat, key: bytes) returns (c: nat)
      requires Valid() && n < |nodes|
      modifies this
      ensures Valid() && (nodes, c) == Build(old(nodes), n, Fields(key))
    {
      c := BuildFields(n, Copied(key));
    }

    method BuildFields(n: nat, path: bytes) returns (c: nat)
      requires Valid() && n < |nodes|
      modifies this
      ensures Valid() && (nodes, c) == Build(old(nodes), n, FieldsFrom(path, 0))
    {
      var f: nat, more := 0, true;
      c := n;
      ghost var goal := Build(nodes, n, FieldsFrom(path, 0));
      while more
        invariant if more then Building(nodes, c, path, f, goal) else Valid() && goal == (nodes, c)
        decreases more, |path| - f
      {
        c, f, more := FollowOrAdd(c, path, f, goal);
      }
    }

    /** One field of a path, which is made when it is missing. */
    method FollowOrAdd(conf: nat, path: bytes, f: nat, ghost goal: (seq<Node>, nat))
      returns (c: nat, next: nat, more: bool)
      requires Building(nodes, conf, path, f, goal)
      modifies this
      ensures if more then f < next && Building(nodes, c, path, next, goal) else Valid() && goal == (nodes, c)
    {
      var fs := NextField(path, f);
      var r := FindChildOf(conf, path[f..fs]);
      next, more := fs + 1, fs < |path|;
      ghost var before := nodes;
      if r.None? {
        c := AddChild(conf, path[f..fs], []);
      } else {
        c := r.value;
      }
      BuildStep(before, conf, path, f, goal, fs, next, path[f..fs], r, nodes, c);
    }

    /** set. */
    method Set(n: nat, key: bytes, val: bytes) returns (c: nat)
      requires Valid() && n < |nodes|
      modifies this
      ensures Valid() && (nodes, c) == SetPath(old(nodes), n, key, val)
    {
      c := BuildKeyPath(n, key);
      ValueKeepsTree(nodes, c, val);
      nodes := nodes[c := nodes[c].(val := val)];
    }

    /** save: the children in order, each followed by its own. */
    method Save(n: nat) returns (out: bytes)
      requires Valid() && n < |nodes|
      ensures out == SaveFrom(nodes, PrinterOf(nodes), n, n + 1)
      decreases |nodes| - n
    {
      ghost var pr := PrinterOf(nodes);
      out := [];
      var i := n + 1;
      while i < |nodes|
        invariant n < i <= |nodes|
        invariant SaveFrom(nodes, pr, n, n + 1) == out + SaveFrom(nodes, pr, n, i)
      {
        if nodes[i].parent == n {
          var below := Save(i);
          SaveStep(nodes, pr, n, i, out, NodeLine(nodes, i), below);
          out := out + NodeLine(nodes, i) + [LF] + below;
        }
        i := i + 1;
      }
    }
  }

  /** From `conf` on, the fields of the path behind `f` are still to be followed. */
  ghost predicate Walking(nodes: seq<Node>, conf: nat, path: bytes, f: nat, goal: Option<nat>) {
    IsTree(nodes) && f <= |path| && conf < |nodes| && goal == Walk(nodes, conf, FieldsFrom(path, f))
  }

  /** The same, for fields that are made when they are missing. */
  ghost predicate Building(nodes: seq<Node>, conf: nat, path: bytes, f: nat, goal: (seq<Node>, nat)) {
    IsTree(nodes) && f <= |path| && conf < |nodes| && goal == Build(nodes, conf, FieldsFrom(path, f))
  }

  /** load: the tree of a text, or null when a line is wrong. */
  method Load(text: bytes) returns (root: Config?)
    requires Readable(text)
    ensures root == null <==> Loaded(text).None?
    ensures root != null ==> fresh(root) && root.Valid() && Loaded(text) == Some(root.nodes)
  {
    root := new Config();
    var cfg: nat, last: nat, pos := 0, 0, 0;
    ghost var goal, rest := ReadAll(START, Lines(text)), text;
    while pos < |text|
      invariant pos <= |text| && rest == text[pos..] && Readable(rest)
      invariant fresh(root) && root.Valid() && cfg < |root.nodes|
      invariant goal == ReadAll(Loader(root.nodes, cfg, last), Lines(rest))
      decreases |text| - pos
    {
      var n := Fgets(text[pos..]);
      var line := LineOf(text[pos..][..n]);
      LinesNext(rest, n, line, Loader(root.nodes, cfg, last));
      var ok;
      ok, cfg, last := root.LoadLine(line, cfg, last);
      if !ok {
        return null;
      }
      assert rest[n..] == text[pos + n..];
      pos, rest := pos + n, rest[n..];
    }
  }

  lemma LinesNext(text: bytes, n: nat, line: bytes, l: Loader)
    requires text != [] && n == ChunkLength(text, MAX_LINE - 1) && line == LineOf(text[..n]) && Ready(l)
    ensures Readable(text) ==> Readable(text[n..])
    ensures
      var r := Read(l, Parse(line));
      ReadAll(l, Lines(text)) == if r.None? then None else ReadAll(r.value, Lines(text[n..]))
  {
    assert Lines(text)[1..] == Lines(text[n..]);
  }

  lemma SaveStep(nodes: seq<Node>, pr: Printer, n: nat, i: nat, out: bytes, line: bytes, below: bytes)
    requires
      && IsTree(nodes)
      && n < i < |nodes|
      && nodes[i].parent == n
      && line == pr(i)
      && below == SaveFrom(nodes, pr, i, i + 1)
    ensures out + SaveFrom(nodes, pr, n, i) == (out + line + [LF] + below) + SaveFrom(nodes, pr, n, i + 1)
  {
  }

  /** Looks for the next divider. */
  method NextField(path: bytes, f: nat) returns (fs: nat)
    requires f <= |path|
    ensures fs == FieldEnd(path, f)
  {
    fs := f;
    while fs < |path| && !IsDivider(path[fs])
      invariant f <= fs <= |path| && FieldEnd(path, f) == FieldEnd(path, fs)
    {
      fs := fs + 1;
    }
  }

  lemma FieldsSplit(path: bytes, f: nat)
    requires f <= |path|
    ensures
      var fs := FieldEnd(path, f);
      FieldsFrom(path, f) == [path[f..fs]] + if fs == |path| then [] else FieldsFrom(path, fs + 1)
  {
  }

  lemma FieldStep(path: bytes, f: nat, fs: nat, next: nat, key: bytes, fields: seq<bytes>) returns (rest: seq<bytes>)
    requires
      && f <= |path|
      && fs == FieldEnd(path, f)
      && next == fs + 1
      && key == path[f..fs]
      && fields == FieldsFrom(path, f)
    ensures rest == (if fs == |path| then [] else FieldsFrom(path, next)) && fields == [key] + rest
    ensures fs < |path| ==> rest != []
  {
    FieldsSplit(path, f);
    rest := if fs == |path| then [] else FieldsFrom(path, fs + 1);
  }

  lemma WalkStep(nodes: seq<Node>, conf: nat, path: bytes, f: nat, goal: Option<nat>, fs: nat, next: nat, key: bytes,
                 r: Option<nat>)
    requires Walking(nodes, conf, path, f, goal) && fs == FieldEnd(path, f) && next == fs + 1 && key == path[f..fs]
    requires r == FindChild(nodes, conf, key)
    ensures if r.None? || fs == |path| then goal == r else Walking(nodes, r.value, path, next, goal)
  {
    var fields := FieldsFrom(path, f);
    var rest := FieldStep(path, f, fs, next, key, fields);
    WalkOne(nodes, conf, fields, key, rest, r);
  }

  lemma WalkOne(nodes: seq<Node>, conf: nat, fields: seq<bytes>, key: bytes, rest: seq<bytes>, r: Option<nat>)
    requires IsTree(nodes) && conf < |nodes| && fields == [key] + rest && r == FindChild(nodes, conf, key)
    ensures r.Some? ==> r.value < |nodes|
    ensures Walk(nodes, conf, fields) == if r.None? || rest == [] then r else Walk(nodes, r.value, rest)
  {
    assert fields[1..] == rest;
  }

  lemma BuildStep(nodes: seq<Node>, conf: nat, path: bytes, f: nat, goal: (seq<Node>, nat), fs: nat, next: nat,
                  key: bytes, r: Option<nat>, nodes': seq<Node>, c: nat)
    requires Building(nodes, conf, path, f, goal) && fs == FieldEnd(path, f) && next == fs + 1 && key == path[f..fs]
    requires r == FindChild(nodes, conf, key)
    requires if r.Some? then nodes' == nodes && c == r.value
             else nodes' == nodes + [NewChild(nodes, conf, key, [])] && c == |nodes|
    ensures if fs == |path| then goal == (nodes', c) else Building(nodes', c, path, next, goal)
  {
    var fields := FieldsFrom(path, f);
    var rest := FieldStep(path, f, fs, next, key, fields);
    BuildOne(nodes, conf, fields, key, rest, r, nodes', c);
  }

  lemma BuildOne(nodes: seq<Node>, conf: nat, fields: seq<bytes>, key: bytes, rest: seq<bytes>,
                 r: Option<nat>, nodes': seq<Node>, c: nat)
    requires IsTree(nodes) && conf < |nodes| && fields == [key] + rest && r == FindChild(nodes, conf, key)
    requires if r.Some? then nodes' == nodes && c == r.value
             else nodes' == nodes + [NewChild(nodes, conf, key, [])] && c == |nodes|
    ensures IsTree(nodes') && c < |nodes'| && Build(nodes, conf, fields) == Build(nodes', c, rest)
  {
    assert fields[1..] == rest;
    AddChildKeepsTree(nodes, conf, key, []);
  }
}
