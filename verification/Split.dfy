/**
 Splitting a string at a separator, and joining strings with one.
 */
module Split {
  import opened Bytes
  import Sds
  import Sequences

  /** The strings of a list with a separator between them. */
  function Join(ts: seq<bytes>, sep: bytes): bytes {
    if ts == [] then [] else if |ts| == 1 then ts[0] else ts[0] + (sep + Join(ts[1..], sep))
  }

  predicate MatchAt(s: bytes, sep: bytes, i: nat) {
    i + |sep| <= |s| && forall p :: 0 <= p < |sep| ==> s[i + p] == sep[p]
  }

  /** The position of the first match from `i` on. */
  function Find(s: bytes, sep: bytes, i: nat): (r: Option<nat>)
    ensures r.Some? ==> i <= r.value && r.value + |sep| <= |s|
    decreases |s| - i
  {
    if i + |sep| > |s| then None
    else if MatchAt(s, sep, i) then Some(i)
    else if i == |s| then None
    else Find(s, sep, i + 1)
  }

  lemma {:induction false} FindMatches(s: bytes, sep: bytes, i: nat)
    requires Find(s, sep, i).Some?
    ensures MatchAt(s, sep, Find(s, sep, i).value)
    decreases |s| - i
  {
    if !MatchAt(s, sep, i) {
      FindMatches(s, sep, i + 1);
    }
  }

  lemma {:induction false} FindIsFirst(s: bytes, sep: bytes, i: nat, k: nat)
    requires i <= k && MatchAt(s, sep, k)
    ensures Find(s, sep, i).Some? && Find(s, sep, i).value <= k
    decreases k - i
  {
    if i < k {
      FindIsFirst(s, sep, i + 1, k);
    }
  }

  /** From `i` on, the separator does not match before `j`. */
  ghost predicate Clear(s: bytes, sep: bytes, i: nat, j: nat) {
    forall k: nat :: i <= k < j ==> !MatchAt(s, sep, k)
  }

  lemma FoundFirst(s: bytes, sep: bytes, i: nat, j: nat)
    requires i <= j && MatchAt(s, sep, j) && Clear(s, sep, i, j)
    ensures Find(s, sep, i) == Some(j)
  {
    FindIsFirst(s, sep, i, j);
    FindMatches(s, sep, i);
  }

  /** Cuts what begins at `start` at the first match, and again behind it. */
  function Cut(s: bytes, sep: bytes, start: nat): (ts: seq<bytes>)
    requires sep != [] && start <= |s|
    ensures ts != []
    decreases |s| - start
  {
    var r := Find(s, sep, start);
    if r.None? then [s[start..]] else [s[start..r.value]] + Cut(s, sep, r.value + |sep|)
  }

  function SplitOn(s: bytes, sep: bytes): seq<bytes>
    requires sep != []
  {
    if s == [] then [] else Cut(s, sep, 0)
  }

  // ---- What splitting promises ----

  /** Joining the parts gives the string back. */
  lemma {:induction false} JoinCut(s: bytes, sep: bytes, start: nat)
    requires sep != [] && start <= |s|
    ensures Join(Cut(s, sep, start), sep) == s[start..]
    decreases |s| - start
  {
    var r := Find(s, sep, start);
    if r.Some? {
      var i, ts := r.value, Cut(s, sep, start);
      JoinCut(s, sep, i + |sep|);
      FindMatches(s, sep, start);
      assert ts[1..] == Cut(s, sep, i + |sep|);
      assert s[i..i + |sep|] == sep;
      assert s[start..] == s[start..i] + (s[i..i + |sep|] + s[i + |sep|..]);
    }
  }

  lemma JoinSplit(s: bytes, sep: bytes)
    requires sep != []
    ensures Join(SplitOn(s, sep), sep) == s
  {
    JoinCut(s, sep, 0);
    assert s[0..] == s;
  }

  lemma MatchInside(s: bytes, start: nat, end: nat, sep: bytes, k: nat)
    requires start <= end <= |s| && MatchAt(s[start..end], sep, k)
    ensures MatchAt(s, sep, start + k)
  {
    assert forall p :: 0 <= p < |sep| ==> s[start + k + p] == s[start..end][k + p] == sep[p];
  }

  /** No part contains the separator. */
  lemma {:induction false} PartsAreClean(s: bytes, sep: bytes, start: nat, n: nat, k: nat)
    requires sep != [] && start <= |s| && n < |Cut(s, sep, start)|
    ensures !MatchAt(Cut(s, sep, start)[n], sep, k)
    decreases |s| - start
  {
    var r := Find(s, sep, start);
    if r.Some? && n > 0 {
      PartsAreClean(s, sep, r.value + |sep|, n - 1, k);
    } else {
      var end := r.GetOr(|s|);
      assert Cut(s, sep, start)[n] == s[start..end];
      if MatchAt(s[start..end], sep, k) {
        MatchInside(s, start, end, sep, k);
        FindIsFirst(s, sep, start, start + k);
      }
    }
  }

  // ---- When splitting undoes joining ----

  /** In each part but the last, with the separator behind it, the separator is found
      behind the part and no earlier; in the last it is not found. */
  predicate Separable(ts: seq<bytes>, sep: bytes) {
    if ts == [] then true
    else if |ts| == 1 then Find(ts[0], sep, 0).None?
    else Find(ts[0] + sep, sep, 0) == Some(|ts[0]|) && Separable(ts[1..], sep)
  }

  lemma MatchShift(a: bytes, b: bytes, sep: bytes, k: nat)
    ensures MatchAt(a + b, sep, |a| + k) <==> MatchAt(b, sep, k)
    ensures k + |sep| <= |a| ==> (MatchAt(a + b, sep, k) <==> MatchAt(a, sep, k))
  {
    if k + |sep| <= |b| && MatchAt(a + b, sep, |a| + k) {
      assert forall p :: 0 <= p < |sep| ==> (a + b)[|a| + k + p] == b[k + p] == sep[p];
    }
  }

  lemma {:induction false} FindShift(a: bytes, b: bytes, sep: bytes, k: nat)
    ensures
      var r := Find(b, sep, k);
      Find(a + b, sep, |a| + k) == if r.Some? then Some(|a| + r.value) else None
    decreases |b| - k
  {
    MatchShift(a, b, sep, k);
    if k < |b| {
      FindShift(a, b, sep, k + 1);
    }
  }

  lemma CutFound(s: bytes, sep: bytes, start: nat, i: nat, first: bytes, next: nat)
    requires sep != [] && start <= |s| && Find(s, sep, start) == Some(i)
    requires first == s[start..i] && next == i + |sep|
    ensures Cut(s, sep, start) == [first] + Cut(s, sep, next)
  {
  }

  lemma {:induction false} CutShift(a: bytes, b: bytes, sep: bytes, k: nat)
    requires sep != [] && k <= |b|
    ensures Cut(a + b, sep, |a| + k) == Cut(b, sep, k)
    decreases |b| - k
  {
    FindShift(a, b, sep, k);
    var r, s := Find(b, sep, k), a + b;
    if r.Some? {
      var i, next := r.value, r.value + |sep|;
      CutShift(a, b, sep, next);
      assert s[|a| + k..|a| + i] == b[k..i];
      CutFound(b, sep, k, i, b[k..i], next);
      CutFound(s, sep, |a| + k, |a| + i, b[k..i], |a| + next);
    } else {
      assert s[|a| + k..] == b[k..];
    }
  }

  /** Where the separator is found at or before its place behind `t`, and what follows
      does not matter. */
  lemma FindBehind(t: bytes, sep: bytes, more: bytes)
    ensures
      var r := Find(t + sep, sep, 0);
      r.Some? && r.value <= |t| && Find(t + (sep + more), sep, 0) == r
  {
    var s, s' := t + sep, t + (sep + more);
    assert s + more == s';
    MatchShift(t, sep, sep, 0);
    FindIsFirst(s, sep, 0, |t|);
    FindMatches(s, sep, 0);
    var i := Find(s, sep, 0).value;
    MatchShift(s, more, sep, i);
    forall k: nat | k < i
      ensures !MatchAt(s', sep, k)
    {
      MatchShift(s, more, sep, k);
      if MatchAt(s, sep, k) {
        FindIsFirst(s, sep, 0, k);
      }
    }
    FoundFirst(s', sep, 0, i);
  }

  /** Cutting a string that begins with `t` and the separator. */
  lemma CutFirst(t: bytes, sep: bytes, more: bytes)
    requires sep != []
    ensures
      var i := Find(t + sep, sep, 0).GetOr(0);
      var ts := Cut(t + (sep + more), sep, 0);
      i <= |t| && ts[0] == t[..i] && (i == |t| ==> ts == [t] + Cut(more, sep, 0))
  {
    FindBehind(t, sep, more);
    var i, s := Find(t + sep, sep, 0).value, t + (sep + more);
    assert s[0..i] == t[..i];
    if i == |t| {
      var a := t + sep;
      assert s == a + more;
      CutWhole(a, more, sep, t);
    }
  }

  /** A string whose first part is cut off behind `a`. */
  lemma CutWhole(a: bytes, more: bytes, sep: bytes, t: bytes)
    requires sep != [] && |a| == |t| + |sep| && a[..|t|] == t && Find(a + more, sep, 0) == Some(|t|)
    ensures Cut(a + more, sep, 0) == [t] + Cut(more, sep, 0)
  {
    var s := a + more;
    assert s[0..|t|] == t;
    CutShift(a, more, sep, 0);
    CutFound(s, sep, 0, |t|, t, |a|);
  }

  lemma {:induction false} CutJoin(ts: seq<bytes>, sep: bytes)
    requires sep != [] && ts != []
    ensures Cut(Join(ts, sep), sep, 0) == ts <==> Separable(ts, sep)
  {
    if |ts| == 1 {
      assert ts[0][0..] == ts[0];
      assert Find(ts[0], sep, 0).Some? ==> |Cut(ts[0], sep, 0)| > 1;
    } else {
      var more := Join(ts[1..], sep);
      CutFirst(ts[0], sep, more);
      FindBehind(ts[0], sep, more);
      CutJoin(ts[1..], sep);
      var i := Find(ts[0] + sep, sep, 0).value;
      if i == |ts[0]| {
        assert ([ts[0]] + Cut(more, sep, 0))[1..] == Cut(more, sep, 0);
        assert ts == [ts[0]] + ts[1..];
      } else {
        assert |ts[0][..i]| != |ts[0]|;
      }
    }
  }

  /** Splitting undoes joining exactly when the parts are separable and are not one
      empty string alone, which is split into nothing. */
  lemma SplitJoin(ts: seq<bytes>, sep: bytes)
    requires sep != []
    ensures SplitOn(Join(ts, sep), sep) == ts <==> Separable(ts, sep) && ts != [[]]
  {
    if ts != [] {
      CutJoin(ts, sep);
      if |ts| > 1 {
        assert |Join(ts, sep)| >= |sep|;
      }
    }
  }

  /** With a separator that overlaps itself, parts without it are not enough. */
  lemma OverlapBreaksSplit()
    ensures
      var sep, ts := [DOT, DOT], [[DOT], []];
      && (forall n: nat, k: nat :: n < |ts| ==> !MatchAt(ts[n], sep, k))
      && SplitOn(Join(ts, sep), sep) != ts
  {
    var sep, ts: seq<bytes> := [DOT, DOT], [[DOT], []];
    assert MatchAt(ts[0] + sep, sep, 0);
    assert Find(ts[0] + sep, sep, 0) == Some(0);
    SplitJoin(ts, sep);
  }

  // ---- The methods ----

  /** sdssplitlen: no result for an empty separator. */
  method SplitLen(s: bytes, sep: bytes) returns (r: Option<seq<bytes>>)
    ensures r == if sep == [] then None else Some(SplitOn(s, sep))
  {
    if |sep| < 1 {
      return None;
    }
    var tokens: seq<bytes> := [];
    if |s| == 0 {
      return Some(tokens);
    }
    var start, j := 0, 0;
    while j < |s| - (|sep| - 1)
      invariant Splitting(s, sep, tokens, start, j)
    {
      if MatchAt(s, sep, j) {
        NextToken(s, sep, tokens, start, j, j + |sep|);
        tokens := tokens + [s[start..j]];
        start := j + |sep|;
        j := j + |sep| - 1;
      } else {
        NoToken(s, sep, tokens, start, j, j + 1);
      }
      j := j + 1;
    }
    LastToken(s, sep, tokens, start, j);
    return Some(tokens + [s[start..]]);
  }

  /** The tokens before `start` are cut off, and no separator is met from there to `j`. */
  ghost predicate Splitting(s: bytes, sep: bytes, tokens: seq<bytes>, start: int, j: int) {
    && sep != [] && 0 <= start <= j && start <= |s| && Clear(s, sep, start, j)
    && Cut(s, sep, 0) == tokens + Cut(s, sep, start)
  }

  lemma NextToken(s: bytes, sep: bytes, tokens: seq<bytes>, start: nat, j: nat, next: nat)
    requires Splitting(s, sep, tokens, start, j) && MatchAt(s, sep, j) && next == j + |sep|
    ensures next <= |s| && Splitting(s, sep, tokens + [s[start..j]], next, next)
  {
    FoundFirst(s, sep, start, j);
    CutFound(s, sep, start, j, s[start..j], next);
    Sequences.Associate(tokens, [s[start..j]], Cut(s, sep, next));
  }

  lemma NoToken(s: bytes, sep: bytes, tokens: seq<bytes>, start: nat, j: nat, next: nat)
    requires Splitting(s, sep, tokens, start, j) && !MatchAt(s, sep, j) && next == j + 1
    ensures Splitting(s, sep, tokens, start, next)
  {
  }

  lemma LastToken(s: bytes, sep: bytes, tokens: seq<bytes>, start: nat, j: nat)
    requires Splitting(s, sep, tokens, start, j) && j > |s| - |sep|
    ensures Cut(s, sep, 0) == tokens + [s[start..]]
  {
    if Find(s, sep, start).Some? {
      FindMatches(s, sep, start);
    }
  }

  lemma {:induction false} JoinSnoc(ts: seq<bytes>, t: bytes, sep: bytes)
    requires ts != []
    ensures Join(ts + [t], sep) == Join(ts, sep) + sep + t
  {
    if |ts| > 1 {
      JoinSnoc(ts[1..], t, sep);
      assert (ts + [t])[1..] == ts[1..] + [t];
    } else {
      assert (ts + [t])[1..] == [t];
    }
  }

  /** sdsjoinsds. */
  method JoinSds(argv: seq<bytes>, sep: bytes) returns (join: Sds.Sds)
    ensures fresh(join) && join.Valid() && join.Contents() == Join(argv, sep)
  {
    join := new Sds.Sds([]);
    var j := 0;
    while j < |argv|
      invariant 0 <= j <= |argv| && fresh(join) && fresh(join.buf) && join.Valid()
      invariant join.Contents() == Join(argv[..j], sep) + if 0 < j < |argv| then sep else []
    {
      assert argv[..j + 1] == argv[..j] + [argv[j]];
      if j > 0 {
        JoinSnoc(argv[..j], argv[j], sep);
      }
      join.CatLen(argv[j]);
      if j != |argv| - 1 {
        join.CatLen(sep);
      }
      j := j + 1;
    }
    assert argv[..|argv|] == argv;
  }
}
