/**
 * The lexical path fixes of http.c: norm_path squashes empty, "." and ".."
 * segments in place, and ensure_dirslash appends the slash a directory
 * request needs. Either one reports through *redirect that the path changed.
 */
module HttpPath {
  import opened Util
  import opened Http

  /** A normalised path and whether *redirect was set on the way. */
  datatype Normalized = Normalized(path: string, redirect: bool)

  /** What the squashing loop has kept so far: it starts at the root and ends right after a '/'. */
  predicate Kept(done: string)
  {
    |done| >= 1 && done[0] == '/' && done[|done| - 1] == '/'
  }

  /** strchr(rest + i, '/'), or the end of rest when there is none. */
  function NextSlash(s: string, i: nat): (q: nat)
    requires i <= |s|
    ensures i <= q <= |s| && (q < |s| ==> s[q] == '/')
    ensures forall j :: i <= j < q ==> s[j] != '/'
    decreases |s| - i
  {
    if i == |s| || s[i] == '/' then i else NextSlash(s, i + 1)
  }

  /** The walk back from just before the last kept '/' to the '/' before it (or to the root). */
  function LastSlash(s: string, j: nat): (i: nat)
    requires j < |s|
    ensures i <= j && (i == 0 || s[i] == '/')
    ensures forall k :: i < k <= j ==> s[k] != '/'
  {
    if j == 0 || s[j] == '/' then j else LastSlash(s, j - 1)
  }

  /** ".." drops the last kept segment; at the root it drops nothing. */
  function PopSeg(done: string): (d: string)
    requires Kept(done)
    ensures Kept(d) && d <= done
    ensures |done| > 1 ==> |d| < |done|
  {
    if |done| == 1 then done else done[..LastSlash(done, |done| - 2) + 1]
  }

  /** One pass of the squashing loop: either the path is final, or the loop goes on with what is kept and what is left. */
  datatype NormStep = Finish(out: Normalized) | Continue(done: string, rest: string, red: bool)

  /**
   * The segment at the head of rest (non-empty): an empty or "." segment
   * is squashed, ".." also drops the last kept segment, any other segment
   * is kept. A squash sets the redirect flag; a squash of the final
   * segment ends the path right where the segment started.
   */
  function NormStepOf(done: string, rest: string, red: bool): (s: NormStep)
    requires Kept(done) && rest != ""
    ensures s.Finish? ==> |s.out.path| <= |done| + |rest|
    ensures s.Finish? ==> s.out.redirect == (red || |s.out.path| < |done| + |rest|)
    ensures s.Finish? ==> |s.out.path| < |done| + |rest| || s.out.path == done + rest
    ensures s.Continue? ==> Kept(s.done) && |s.rest| < |rest| && |s.done| + |s.rest| <= |done| + |rest|
    ensures s.Continue? ==> s.red == (red || |s.done| + |s.rest| < |done| + |rest|)
    ensures s.Continue? ==> |s.done| + |s.rest| < |done| + |rest| || s.done + s.rest == done + rest
  {
    var q := NextSlash(rest, 0);
    var seg := rest[..q];
    if seg == "" || seg == "." then
      if q == |rest| then Finish(Normalized(done, true)) else Continue(done, rest[q + 1..], true)
    else if seg == ".." then
      var d := PopSeg(done);
      if q == |rest| then Finish(Normalized(d, true)) else Continue(d, rest[q + 1..], true)
    else if q == |rest| then Finish(Normalized(done + rest, red))
    else
      assert done + seg + "/" + rest[q + 1..] == done + rest by {
        assert rest == seg + "/" + rest[q + 1..];
      }
      Continue(done + seg + "/", rest[q + 1..], red)
  }

  /** The squashing loop from a kept prefix and the rest of the path. */
  function NormFrom(done: string, rest: string, red: bool): (r: Normalized)
    requires Kept(done)
    ensures |r.path| <= |done| + |rest|
    ensures r.redirect == (red || |r.path| < |done| + |rest|)
    ensures |r.path| < |done| + |rest| || r.path == done + rest
    decreases |rest|
  {
    if rest == "" then Normalized(done, red)
    else match NormStepOf(done, rest, red)
      case Finish(o) => o
      case Continue(d, t, f) => NormFrom(d, t, f)
  }

  /** norm_path: 500 (None) unless the path starts with '/'; otherwise the squashed path. */
  function NormPath(uri: string): (r: Option<Normalized>)
    ensures r.None? <==> uri == "" || uri[0] != '/'
    ensures r.Some? ==> |r.value.path| <= |uri|
    ensures r.Some? ==> (r.value.redirect <==> r.value.path != uri)
  {
    if uri == "" || uri[0] != '/' then None
    else
      assert uri == "/" + uri[1..];
      Some(NormFrom("/", uri[1..], false))
  }

  // ---------------------------------------------------------------------
  // What a squashed path looks like

  /** A segment kept as it is: non-empty, neither "." nor "..", no '/'. */
  predicate Plain(seg: string)
  {
    seg != "" && seg != "." && seg != ".." && '/' !in seg
  }

  /** The segments of rest: none is "." or "..", and only the final one may be empty. */
  predicate CleanRest(rest: string)
    decreases |rest|
  {
    rest == "" ||
    var q := NextSlash(rest, 0);
    var seg := rest[..q];
    seg != "." && seg != ".." && (q < |rest| ==> seg != "" && CleanRest(rest[q + 1..]))
  }

  /** A normalised path: a root and clean segments after it. */
  predicate Clean(path: string)
  {
    |path| >= 1 && path[0] == '/' && CleanRest(path[1..])
  }

  /** The first slash of a + "/" + b, when a has none, is at |a|. */
  lemma SlashAfter(a: string, b: string)
    requires '/' !in a
    ensures NextSlash(a + "/" + b, 0) == |a|
    ensures (a + "/" + b)[..|a|] == a && (a + "/" + b)[|a| + 1..] == b
  {
    var s := a + "/" + b;
    assert s[|a|] == '/';
    assert forall j :: 0 <= j < |a| ==> s[j] == a[j];
    NextSlashIs(s, |a|);
  }

  lemma NextSlashIs(s: string, q: nat)
    requires q <= |s| && (q < |s| ==> s[q] == '/')
    requires forall j :: 0 <= j < q ==> s[j] != '/'
    ensures NextSlash(s, 0) == q
  {
    NextSlashFrom(s, 0, q);
  }

  lemma {:induction false} NextSlashFrom(s: string, i: nat, q: nat)
    requires i <= q <= |s| && (q < |s| ==> s[q] == '/')
    requires forall j :: i <= j < q ==> s[j] != '/'
    ensures NextSlash(s, i) == q
    decreases q - i
  {
    if i < q {
      NextSlashFrom(s, i + 1, q);
    }
  }

  /** A clean text followed by a plain segment stays clean, with or without a slash after it. */
  lemma {:induction false} AppendPlain(x: string, seg: string)
    requires CleanRest(x) && (x == "" || x[|x| - 1] == '/') && Plain(seg)
    ensures CleanRest(x + seg) && CleanRest(x + seg + "/")
    decreases |x|
  {
    if x == "" {
      assert x + seg == seg;
      NextSlashIs(seg, |seg|);
      assert x + seg + "/" == seg + "/" + "";
      SlashAfter(seg, "");
    } else {
      var q := NextSlash(x, 0);
      var a := x[..q];
      var b := x[q + 1..];
      assert x[|x| - 1] == '/';
      assert x == a + "/" + b;
      assert b == "" || b[|b| - 1] == '/';
      AppendPlain(b, seg);
      assert x + seg == a + "/" + (b + seg);
      assert x + seg + "/" == a + "/" + (b + seg + "/");
      SlashAfter(a, b + seg);
      SlashAfter(a, b + seg + "/");
    }
  }

  /** A clean text cut right after one of its slashes stays clean. */
  lemma {:induction false} CutClean(x: string, k: nat)
    requires CleanRest(x) && 0 < k <= |x| && x[k - 1] == '/'
    ensures CleanRest(x[..k])
    decreases |x|
  {
    var q := NextSlash(x, 0);
    var a := x[..q];
    var b := x[q + 1..];
    assert q < k;
    assert x == a + "/" + b;
    assert x[..k] == a + "/" + b[..k - q - 1];
    SlashAfter(a, b[..k - q - 1]);
    if k - q - 1 > 0 {
      CutClean(b, k - q - 1);
    }
  }

  /** A clean text whose final segment is not empty stays clean with a slash after it. */
  lemma {:induction false} AppendSlash(x: string)
    requires CleanRest(x) && x != "" && x[|x| - 1] != '/'
    ensures CleanRest(x + "/")
    decreases |x|
  {
    var q := NextSlash(x, 0);
    var a := x[..q];
    if q == |x| {
      assert x == a;
      SlashAfter(a, "");
      assert x + "/" == a + "/" + "";
    } else {
      var b := x[q + 1..];
      assert x == a + "/" + b;
      AppendSlash(b);
      assert x + "/" == a + "/" + (b + "/");
      SlashAfter(a, b + "/");
    }
  }

  /** What is kept is clean, so dropping its last segment keeps it clean. */
  lemma PopSegClean(done: string)
    requires Kept(done) && CleanRest(done[1..])
    ensures CleanRest(PopSeg(done)[1..])
  {
    var d := PopSeg(done);
    if |d| > 1 {
      assert d[1..] == done[1..][..|d| - 1];
      CutClean(done[1..], |d| - 1);
    }
  }

  /** One pass of the squashing loop keeps what is kept clean. */
  lemma StepClean(done: string, rest: string, red: bool)
    requires Kept(done) && CleanRest(done[1..]) && rest != ""
    ensures NormStepOf(done, rest, red).Finish? ==> Clean(NormStepOf(done, rest, red).out.path)
    ensures NormStepOf(done, rest, red).Continue? ==> CleanRest(NormStepOf(done, rest, red).done[1..])
  {
    var q := NextSlash(rest, 0);
    var seg := rest[..q];
    if seg == ".." {
      PopSegClean(done);
    } else if seg != "" && seg != "." {
      KeepClean(done, seg);
      assert rest == seg || q < |rest|;
    }
  }

  /** Keeping a plain segment, as the final one or followed by its slash, keeps what is kept clean. */
  lemma KeepClean(done: string, seg: string)
    requires Kept(done) && CleanRest(done[1..]) && Plain(seg)
    ensures CleanRest((done + seg)[1..]) && CleanRest((done + seg + "/")[1..])
  {
    AppendPlain(done[1..], seg);
    assert (done + seg)[1..] == done[1..] + seg;
    assert (done + seg + "/")[1..] == done[1..] + seg + "/";
  }

  /** The squashing loop started from a clean kept prefix ends in a clean path. */
  lemma {:induction false} NormFromClean(done: string, rest: string, red: bool)
    requires Kept(done) && CleanRest(done[1..])
    ensures Clean(NormFrom(done, rest, red).path)
    decreases |rest|
  {
    if rest != "" {
      StepClean(done, rest, red);
      match NormStepOf(done, rest, red)
      case Finish(_) =>
      case Continue(d, t, f) => NormFromClean(d, t, f);
    }
  }

  /** Over clean segments the squashing loop keeps everything and sets no flag. */
  lemma {:induction false} NormFromFixed(done: string, rest: string, red: bool)
    requires Kept(done) && CleanRest(rest)
    ensures NormFrom(done, rest, red) == Normalized(done + rest, red)
    decreases |rest|
  {
    if rest != "" {
      var q := NextSlash(rest, 0);
      if q < |rest| {
        NormFromFixed(done + rest[..q] + "/", rest[q + 1..], red);
      }
    }
  }

  /** A normalised path has no empty, "." or ".." segment left, except a final empty one (a trailing slash). */
  lemma NormPathClean(uri: string)
    requires NormPath(uri).Some?
    ensures Clean(NormPath(uri).value.path)
  {
    NormFromClean("/", uri[1..], false);
  }

  /** A clean path is left as it is, without a redirect. */
  lemma NormPathFixed(uri: string)
    requires Clean(uri)
    ensures NormPath(uri) == Some(Normalized(uri, false))
  {
    NormFromFixed("/", uri[1..], false);
    assert "/" + uri[1..] == uri;
  }

  /** Normalising twice is normalising once: the second pass changes nothing and asks for no redirect. */
  lemma NormPathIdempotent(uri: string)
    requires NormPath(uri).Some?
    ensures NormPath(NormPath(uri).value.path) == Some(Normalized(NormPath(uri).value.path, false))
  {
    NormPathClean(uri);
    NormPathFixed(NormPath(uri).value.path);
  }

  // ---------------------------------------------------------------------
  // norm_path: the squashing loop on the array

  /** No NUL byte: the whole text is the C string. */
  predicate NulFree(s: string)
  {
    forall k :: 0 <= k < |s| ==> s[k] != '\0'
  }

  /** The segment from p to q is squashed: it is empty, "." or "..". */
  predicate Squashed(cur: string, p: nat, q: nat)
    requires p <= q <= |cur|
  {
    q == p || (q - p == 1 && cur[p] == '.') || (q - p == 2 && cur[p] == '.' && cur[p + 1] == '.')
  }

  /** Where a squash starts: the previous kept segment for ".." away from the root, the squashed segment otherwise. */
  function SquashAt(cur: string, p: nat, q: nat): (p': nat)
    requires 1 <= p <= |cur| && Kept(cur[..p])
    ensures 1 <= p' <= p && Kept(cur[..p'])
    ensures q - p == 2 && p != 1 ==> cur[..p'] == PopSeg(cur[..p])
  {
    if q - p == 2 && p != 1 then
      var d := PopSeg(cur[..p]);
      assert cur[..|d|] == d;
      |d|
    else p
  }

  /**
   * The current string after one pass, as the array code leaves it: a
   * squashed final segment cuts the string at SquashAt, a squashed inner
   * one has what follows its '/' moved down there, a kept segment changes
   * nothing.
   */
  function PassText(cur: string, p: nat, q: nat): (t: string)
    requires 1 <= p <= q <= |cur| && Kept(cur[..p])
    ensures |t| <= |cur|
    ensures NulFree(cur) ==> NulFree(t)
  {
    if !Squashed(cur, p, q) then cur
    else if q == |cur| then cur[..SquashAt(cur, p, q)]
    else cur[..SquashAt(cur, p, q)] + cur[q + 1..]
  }

  /** What one pass of the loop leaves: the final path, or the whole current string and where the next segment starts. */
  datatype Pass = Ended(out: Normalized) | Moved(cur: string, p: nat, red: bool)

  /**
   * One pass of the loop over the current string cur (the path without its
   * NUL) with the next segment at p: the segment ends at q; the pass ends
   * the loop when that segment is the final one, and sets the flag when it
   * squashes.
   */
  function SquashPass(cur: string, p: nat, red: bool): (r: Pass)
    requires 1 <= p < |cur| && Kept(cur[..p])
    ensures r.Moved? ==> 1 <= r.p <= |r.cur| < |cur| + 1 && Kept(r.cur[..r.p]) && |r.cur| - r.p < |cur| - p
    ensures r.Moved? && NulFree(cur) ==> NulFree(r.cur)
  {
    var q := p + NextSlash(cur[p..], 0);
    var sq := Squashed(cur, p, q);
    var t := PassText(cur, p, q);
    if q == |cur| then Ended(Normalized(t, red || sq))
    else if sq then
      var p' := SquashAt(cur, p, q);
      assert t[..p'] == cur[..p'];
      Moved(t, p', true)
    else
      assert cur[q] == '/' && cur[..q + 1] == cur[..p] + cur[p..q] + "/";
      Moved(t, q + 1, red)
  }

  /** The array pass and the squashing step agree: same final path, or the same kept prefix and rest. */
  lemma PassAgrees(cur: string, p: nat, red: bool)
    requires 1 <= p < |cur| && Kept(cur[..p])
    ensures match SquashPass(cur, p, red)
      case Ended(o) => NormStepOf(cur[..p], cur[p..], red) == Finish(o)
      case Moved(c, p', f) => NormStepOf(cur[..p], cur[p..], red) == Continue(c[..p'], c[p'..], f)
  {
    var rest := cur[p..];
    var q := NextSlash(rest, 0);
    assert cur == cur[..p] + rest;
    if q < |rest| {
      assert cur[p + q + 1..] == rest[q + 1..];
    }
    assert q == 0 <==> rest[..q] == "";
    assert q == 1 && cur[p] == '.' <==> rest[..q] == ".";
    assert q == 2 && cur[p] == '.' && cur[p + 1] == '.' <==> rest[..q] == "..";
  }

  /** The loop from a pass on: the squashed path depends only on the kept prefix and the rest. */
  lemma PassFollows(cur: string, p: nat, red: bool)
    requires 1 <= p < |cur| && Kept(cur[..p])
    ensures match SquashPass(cur, p, red)
      case Ended(o) => NormFrom(cur[..p], cur[p..], red) == o
      case Moved(c, p', f) => NormFrom(cur[..p], cur[p..], red) == NormFrom(c[..p'], c[p'..], f)
  {
    PassAgrees(cur, p, red);
  }

  /** strchr(a + p, '/'), falling back to strchr(a + p, '\0'): the end of the segment at p of the string cur held in a. */
  method SegmentEnd(a: array<char>, ghost cur: string, p: nat) returns (q: nat)
    requires |cur| < a.Length && a[..|cur|] == cur && a[|cur|] == '\0' && NulFree(cur) && p <= |cur|
    ensures q == p + NextSlash(cur[p..], 0)
  {
    q := p;
    while a[q] != '/' && a[q] != '\0'
      invariant p <= q <= |cur|
      invariant forall j :: p <= j < q ==> cur[j] != '/'
      decreases |cur| - q
    {
      assert q < |cur| ==> a[q] == cur[q];
      q := q + 1;
    }
    assert q < |cur| ==> a[q] == cur[q];
    NextSlashIs(cur[p..], q - p);
  }

  /** The ".." walk: from two bytes before p back to a '/' or the root, then one step forward. */
  method WalkBack(s: seq<char>, p: nat) returns (p': nat)
    requires 2 <= p <= |s| && Kept(s[..p])
    ensures p' == |PopSeg(s[..p])|
  {
    ghost var done := s[..p];
    var j := p - 2;
    while j > 0 && s[j] != '/'
      invariant 0 <= j <= p - 2
      invariant LastSlash(done, j) == LastSlash(done, p - 2)
    {
      j := j - 1;
    }
    p' := j + 1;
  }

  /** memmove(a + dst, a + src, cnt) for dst <= src: the bytes from src move down to dst, the others stay. */
  method MoveDown(a: array<char>, dst: nat, src: nat, cnt: nat)
    requires dst <= src && src + cnt <= a.Length
    modifies a
    ensures a[..dst] == old(a[..dst])
    ensures a[dst..dst + cnt] == old(a[src..src + cnt])
    ensures a[dst + cnt..] == old(a[dst + cnt..])
  {
    forall k | 0 <= k < cnt {
      a[dst + k] := a[src + k];
    }
  }

  /** After the memmove of a squash: the kept prefix, then what followed the segment, then the NUL. */
  lemma MovedDown(before: seq<char>, after: seq<char>, cur: string, p: nat, q: nat)
    requires |before| == |after| && p <= q < |cur| < |before| && before[..|cur|] == cur && before[|cur|] == '\0'
    requires after[..p] == before[..p]
    requires after[p..p + |cur| - q] == before[q + 1..|cur| + 1]
    ensures after[..p + |cur| - q - 1] == cur[..p] + cur[q + 1..]
    ensures after[p + |cur| - q - 1] == '\0'
  {
    var n := p + |cur| - q - 1;
    forall k | 0 <= k < n
      ensures after[..n][k] == (cur[..p] + cur[q + 1..])[k]
    {
      if k < p {
        assert after[k] == after[..p][k];
      } else {
        assert after[k] == after[p..p + |cur| - q][k - p];
      }
    }
    assert after[n] == after[p..p + |cur| - q][n - p];
  }

  /**
   * The squash of the segment from p to q (empty, "." or ".."): for ".."
   * away from the root, walk back to the previous kept segment; then cut
   * the string there when the segment is the final one, or move what
   * follows its '/' down there.
   */
  method Squash(a: array<char>, ghost cur: string, p: nat, q: nat, len: nat) returns (p': nat, len': nat)
    requires len + 1 < a.Length && |cur| == len + 1 && a[..len + 1] == cur && a[len + 1] == '\0'
    requires 1 <= p <= q <= |cur| && p < |cur| && Kept(cur[..p]) && Squashed(cur, p, q)
    modifies a
    ensures p' == SquashAt(cur, p, q)
    ensures var t := PassText(cur, p, q);
      |t| < a.Length && a[..|t|] == t && a[|t|] == '\0' && (q < |cur| ==> len' + 1 == |t|)
  {
    p' := p;
    if q - p == 2 && p != 1 {
      p' := WalkBack(a[..], p);
      assert a[..][..p] == cur[..p];
    }
    assert p' == SquashAt(cur, p, q);
    if q == len + 1 {
      a[p'] := '\0';
      len' := p';
      assert a[..p'] == cur[..p'];
    } else {
      ghost var before := a[..];
      MoveDown(a, p', q + 1, len - (q + 1) + 2);
      len' := len - ((q + 1) - p');
      MovedDown(before, a[..], cur, p', q);
    }
  }

  /**
   * The loop body once the segment end q is known, for a non-empty rest:
   * squash an empty, "." or ".." segment, or step past any other segment.
   * cur is the current path, a[..len + 1].
   */
  method NormSegment(a: array<char>, ghost cur: string, p: nat, q: nat, len: nat, redirect: bool)
    returns (p': nat, len': nat, redirect': bool, last: bool)
    requires len + 1 < a.Length && |cur| == len + 1 && a[..len + 1] == cur && a[len + 1] == '\0'
    requires 1 <= p <= q <= |cur| && p < |cur| && Kept(cur[..p])
    modifies a
    ensures last <==> q == |cur|
    ensures redirect' == (redirect || Squashed(cur, p, q))
    ensures !last ==> p' == if Squashed(cur, p, q) then SquashAt(cur, p, q) else q + 1
    ensures var t := PassText(cur, p, q);
      |t| < a.Length && a[..|t|] == t && a[|t|] == '\0' && (!last ==> len' + 1 == |t|)
  {
    last := q == len + 1;
    assert a[p] == cur[p] && (q - p == 2 ==> a[p + 1] == cur[p + 1]);
    if p == q || (q - p == 1 && a[p] == '.') || (q - p == 2 && a[p] == '.' && a[p + 1] == '.') {
      p', len' := Squash(a, cur, p, q, len);
      redirect' := true;
    } else {
      p', len', redirect' := q + 1, len, redirect;
    }
  }

  /** A pass over the final segment, which ends at q, ends the loop with the text of this pass. */
  lemma PassEnds(cur: string, p: nat, q: nat, red: bool)
    requires 1 <= p < |cur| && Kept(cur[..p]) && q == p + NextSlash(cur[p..], 0) && q == |cur|
    ensures SquashPass(cur, p, red) == Ended(Normalized(PassText(cur, p, q), red || Squashed(cur, p, q)))
  {
  }

  /** A pass over an inner segment, which ends at the '/' at q, moves on to SquashAt or to q + 1. */
  lemma PassMoves(cur: string, p: nat, q: nat, red: bool)
    requires 1 <= p < |cur| && Kept(cur[..p]) && q == p + NextSlash(cur[p..], 0) && q < |cur|
    ensures SquashPass(cur, p, red) ==
      Moved(PassText(cur, p, q), if Squashed(cur, p, q) then SquashAt(cur, p, q) else q + 1, red || Squashed(cur, p, q))
  {
    if Squashed(cur, p, q) {
      assert SquashPass(cur, p, red) == Moved(PassText(cur, p, q), SquashAt(cur, p, q), true);
    }
  }

  /** The loop state: a holds cur and its NUL, p starts the next segment, and the loop from here reaches goal. */
  ghost predicate Walking(a: seq<char>, cur: string, p: nat, len: nat, redirect: bool, goal: Normalized)
  {
    1 <= p <= |cur| && |cur| == len + 1 < |a| && a[..len + 1] == cur && a[len + 1] == '\0' &&
    NulFree(cur) && Kept(cur[..p]) && NormFrom(cur[..p], cur[p..], redirect) == goal
  }

  /** The loop has ended: a holds the squashed path and its NUL. */
  ghost predicate Finished(a: seq<char>, redirect: bool, goal: Normalized)
  {
    |goal.path| < |a| && a[..|goal.path|] == goal.path && a[|goal.path|] == '\0' &&
    NulFree(goal.path) && redirect == goal.redirect
  }

  /** One pass of the loop keeps the loop state, or ends it. */
  method NormPass(a: array<char>, ghost cur: string, ghost goal: Normalized, p: nat, len: nat, redirect: bool)
    returns (p': nat, len': nat, redirect': bool, last: bool, ghost cur': string)
    requires Walking(a[..], cur, p, len, redirect, goal)
    modifies a
    ensures !last ==> Walking(a[..], cur', p', len', redirect', goal) && |cur'| - p' < |cur| - p
    ensures last ==> Finished(a[..], redirect', goal)
  {
    var q := SegmentEnd(a, cur, p);
    assert p < |cur| ==> a[p] == cur[p];
    if a[p] == '\0' {
      assert cur[..p] == cur && cur[p..] == "";
      p', len', redirect', last, cur' := p, len, redirect, true, cur;
    } else {
      p', len', redirect', last := NormSegment(a, cur, p, q, len, redirect);
      SegmentKeepsWalking(a[..], cur, goal, p, q, len, redirect, p', len', redirect', last);
      cur' := if last then cur else PassText(cur, p, q);
    }
  }

  /** What NormSegment leaves behind is the next loop state, or the end of the loop. */
  lemma SegmentKeepsWalking(a: seq<char>, cur: string, goal: Normalized, p: nat, q: nat, len: nat, redirect: bool,
                            p': nat, len': nat, redirect': bool, last: bool)
    requires 1 <= p < |cur| && |cur| == len + 1 && NulFree(cur) && Kept(cur[..p])
    requires NormFrom(cur[..p], cur[p..], redirect) == goal
    requires q == p + NextSlash(cur[p..], 0)
    requires last <==> q == |cur|
    requires redirect' == (redirect || Squashed(cur, p, q))
    requires !last ==> p' == if Squashed(cur, p, q) then SquashAt(cur, p, q) else q + 1
    requires var t := PassText(cur, p, q);
      |t| < |a| && a[..|t|] == t && a[|t|] == '\0' && (!last ==> len' + 1 == |t|)
    ensures !last ==> Walking(a, PassText(cur, p, q), p', len', redirect', goal) && |PassText(cur, p, q)| - p' < |cur| - p
    ensures last ==> Finished(a, redirect', goal)
  {
    var t := PassText(cur, p, q);
    if last {
      SegmentFinishes(cur, goal, p, q, redirect);
      FinishedOf(a, redirect', goal);
    } else {
      SegmentMoves(cur, goal, p, q, redirect, p');
      WalkingOf(a, t, p', len', redirect', goal);
    }
  }

  lemma WalkingOf(a: seq<char>, t: string, p: nat, len: nat, redirect: bool, goal: Normalized)
    requires 1 <= p <= |t| && |t| == len + 1 < |a| && a[..|t|] == t && a[|t|] == '\0'
    requires NulFree(t) && Kept(t[..p]) && NormFrom(t[..p], t[p..], redirect) == goal
    ensures Walking(a, t, p, len, redirect, goal)
  {
  }

  lemma FinishedOf(a: seq<char>, redirect: bool, goal: Normalized)
    requires |goal.path| < |a| && a[..|goal.path|] == goal.path && a[|goal.path|] == '\0'
    requires NulFree(goal.path) && redirect == goal.redirect
    ensures Finished(a, redirect, goal)
  {
  }

  /** The final segment: the loop's result is the text of this pass. */
  lemma SegmentFinishes(cur: string, goal: Normalized, p: nat, q: nat, redirect: bool)
    requires 1 <= p < |cur| && NulFree(cur) && Kept(cur[..p]) && q == |cur|
    requires q == p + NextSlash(cur[p..], 0)
    requires NormFrom(cur[..p], cur[p..], redirect) == goal
    ensures goal == Normalized(PassText(cur, p, q), redirect || Squashed(cur, p, q)) && NulFree(goal.path)
  {
    PassEnds(cur, p, q, redirect);
    PassFollows(cur, p, redirect);
  }

  /** A segment with more after it: the loop goes on from the text of this pass at p'. */
  lemma SegmentMoves(cur: string, goal: Normalized, p: nat, q: nat, redirect: bool, p': nat)
    requires 1 <= p < |cur| && NulFree(cur) && Kept(cur[..p])
    requires q == p + NextSlash(cur[p..], 0) && q < |cur|
    requires NormFrom(cur[..p], cur[p..], redirect) == goal
    requires p' == if Squashed(cur, p, q) then SquashAt(cur, p, q) else q + 1
    ensures var t := PassText(cur, p, q);
      1 <= p' <= |t| && Kept(t[..p']) && NulFree(t) && |t| - p' < |cur| - p &&
      NormFrom(t[..p'], t[p'..], redirect || Squashed(cur, p, q)) == goal
  {
    PassMoves(cur, p, q, redirect);
    PassFollows(cur, p, redirect);
  }

  /**
   * norm_path on the C string held in a: 500 when it does not start with
   * '/'; otherwise the squashed path is left in a, and redirect says
   * whether *redirect was set.
   */
  method NormPathInPlace(a: array<char>) returns (status: int, redirect: bool)
    requires '\0' in a[..]
    modifies a
    ensures status == 0 || status == STATUS_INTERNAL_SERVER_ERROR
    ensures status == STATUS_INTERNAL_SERVER_ERROR <==> NormPath(old(CString(a[..]))).None?
    ensures status == 0 ==> NormPath(old(CString(a[..]))) == Some(Normalized(CString(a[..]), redirect))
    ensures status != 0 ==> a[..] == old(a[..]) && !redirect
  {
    ghost var uri := CString(a[..]);
    if a[0] != '/' {
      return STATUS_INTERNAL_SERVER_ERROR, false;
    }
    var p := 1;
    var len := CStrLen(a[1..]);
    assert a[..][1..] == a[1..];
    ghost var cur := a[..len + 1];
    assert cur == uri && cur[..1] == "/";
    ghost var goal := NormFrom("/", uri[1..], false);
    var last := false;
    redirect := false;
    while !last
      invariant !last ==> Walking(a[..], cur, p, len, redirect, goal)
      invariant last ==> Finished(a[..], redirect, goal)
      decreases if last then 0 else |cur| + 1 - p
    {
      p, len, redirect, last, cur := NormPass(a, cur, goal, p, len, redirect);
    }
    CStringOfTerminated(a[..], goal.path);
    return 0, redirect;
  }

  // ---------------------------------------------------------------------
  // ensure_dirslash

  /**
   * ensure_dirslash on a path held in a PATH_MAX array: 500 (None) when
   * the path and a slash would not fit with the NUL; otherwise a slash is
   * appended unless the path is empty or already ends with one.
   */
  function DirSlash(uri: string): (r: Option<Normalized>)
    ensures r.None? <==> |uri| + 2 > PATH_MAX
    ensures r.Some? ==> r.value.path == uri || r.value.path == uri + "/"
    ensures r.Some? ==> (r.value.redirect <==> r.value.path != uri)
    ensures r.Some? && uri != "" ==> r.value.path[|r.value.path| - 1] == '/'
  {
    if |uri| + 2 > PATH_MAX then None
    else if |uri| > 0 && uri[|uri| - 1] != '/' then Some(Normalized(uri + "/", true))
    else Some(Normalized(uri, false))
  }

  /** ensure_dirslash on the PATH_MAX array holding the path: the slash and a new NUL go right after the old string. */
  method EnsureDirSlash(a: array<char>) returns (status: int, redirect: bool)
    requires a.Length == PATH_MAX && '\0' in a[..]
    modifies a
    ensures status == 0 || status == STATUS_INTERNAL_SERVER_ERROR
    ensures status == STATUS_INTERNAL_SERVER_ERROR <==> DirSlash(old(CString(a[..]))).None?
    ensures status == 0 ==> DirSlash(old(CString(a[..]))) == Some(Normalized(CString(a[..]), redirect))
    ensures status != 0 ==> a[..] == old(a[..]) && !redirect
  {
    ghost var uri := CString(a[..]);
    var len := CStrLen(a[..]);
    if len + 1 + 1 > PATH_MAX {
      return STATUS_INTERNAL_SERVER_ERROR, false;
    }
    redirect := false;
    if len > 0 && a[len - 1] != '/' {
      assert a[len - 1] == uri[len - 1];
      a[len] := '/';
      a[len + 1] := '\0';
      assert a[..len + 1] == uri + "/";
      CStringOfTerminated(a[..], uri + "/");
      redirect := true;
    } else {
      assert len > 0 ==> a[len - 1] == uri[len - 1];
    }
    return 0, redirect;
  }

  /** A second ensure_dirslash changes nothing when the first one succeeded and the slashed path still fits. */
  lemma DirSlashIdempotent(uri: string)
    requires DirSlash(uri).Some? && |DirSlash(uri).value.path| + 2 <= PATH_MAX
    ensures DirSlash(DirSlash(uri).value.path) == Some(Normalized(DirSlash(uri).value.path, false))
  {
  }

  /** The slash ensure_dirslash adds keeps a normalised path normalised. */
  lemma DirSlashClean(uri: string)
    requires Clean(uri) && DirSlash(uri).Some?
    ensures Clean(DirSlash(uri).value.path)
  {
    if uri[|uri| - 1] != '/' {
      AppendSlash(uri[1..]);
      assert (uri + "/")[1..] == uri[1..] + "/";
    }
  }

  // ---------------------------------------------------------------------
  // Examples

  /** ".." removes the segment before it. */
  lemma ExampleDotDot()
    ensures NormPath("/a/../b") == Some(Normalized("/b", true))
  {
    assert "/a/../b"[1..] == "a/../b";
    assert NextSlash("a/../b", 0) == 1;
    assert "a/../b"[..1] == "a" && "a/../b"[2..] == "../b";
    assert NormStepOf("/", "a/../b", false) == Continue("/a/", "../b", false);
    assert NextSlash("../b", 0) == 2;
    assert "../b"[..2] == ".." && "../b"[3..] == "b";
    assert PopSeg("/a/") == "/";
    assert NormStepOf("/a/", "../b", false) == Continue("/", "b", true);
    assert NextSlash("b", 0) == 1;
    assert NormStepOf("/", "b", true) == Finish(Normalized("/b", true));
  }

  /** A ".." at the top stays at the root. */
  lemma ExampleAboveRoot()
    ensures NormPath("/..") == Some(Normalized("/", true))
  {
    assert "/.."[1..] == "..";
    assert NextSlash("..", 0) == 2;
    assert ".."[..2] == "..";
    assert NormStepOf("/", "..", false) == Finish(Normalized("/", true));
  }

  /** Empty and "." segments go and the trailing slash stays. */
  lemma ExampleEmptyAndDot()
    ensures NormPath("/a//./") == Some(Normalized("/a/", true))
  {
    assert "/a//./"[1..] == "a//./";
    assert NextSlash("a//./", 0) == 1;
    assert "a//./"[..1] == "a" && "a//./"[2..] == "/./";
    assert NormStepOf("/", "a//./", false) == Continue("/a/", "/./", false);
    assert NextSlash("/./", 0) == 0;
    assert "/./"[1..] == "./";
    assert NormStepOf("/a/", "/./", false) == Continue("/a/", "./", true);
    assert NextSlash("./", 0) == 1;
    assert "./"[..1] == "." && "./"[2..] == "";
    assert NormStepOf("/a/", "./", true) == Continue("/a/", "", true);
  }
}
