/**
 Nesting of `make_tree`'s output at the level of single tags, for a
 well-formed thread: a post's container stays open from its `<div>` until
 each of its descendants has been opened, and the `</div>` that closes it
 comes after the `</div>` that closes each descendant's container.
 */
module ForumContainment {
  import opened Basics
  import opened ForumTree
  import opened ForumNesting

  /** The state in which post `i`'s `<div>` is emitted. */
  function Before(posts: seq<Post>, current: Option<Post>, i: nat): Renderer
    requires i < |posts|
  {
    CloseBefore(Run(Start(), posts[..i], current), posts[i].left)
  }

  /** The output up to and including post `i`'s `<div>`. */
  function UpToOpen(posts: seq<Post>, current: Option<Post>, i: nat): seq<Token>
    requires i < |posts|
  {
    Before(posts, current, i).out + [Open(posts[i], IsCurrent(posts[i], current))]
  }

  /** The tag at `q` is the `</div>` that closes the container opened at `p`:
      the first point after `p` where the number of open containers falls
      back to what it was before `p`. */
  ghost predicate ClosesAt(ts: seq<Token>, p: nat, q: nat) {
    && p < q < |ts| && ts[q] == Close
    && Height(ts[..q + 1]) == Height(ts[..p])
    && forall n :: p < n <= q ==> Height(ts[..n]) > Height(ts[..p])
  }

  // ---- Heights along the output ----------------------------------------------

  lemma {:induction false} CloseRunHeight(ts: seq<Token>, n: nat)
    ensures Height(ts + Closing(n)) == Height(ts) - n
  {
    if n == 0 {
      assert ts + Closing(0) == ts;
    } else {
      CloseRunHeight(ts, n - 1);
      assert ts + Closing(n) == (ts + Closing(n - 1)) + [Close];
      AppendToken(ts + Closing(n - 1), Close, None);
    }
  }

  /** A run of closing tags followed by one opening tag: while the lowest
      point stays above `floor`, so does every prefix ending in the run. */
  lemma SegmentHeights(x: seq<Token>, n: nat, t: Token, floor: int)
    requires t.Open? && Height(x) - n > floor
    ensures forall m :: |x| < m <= |x| + n + 1 ==> Height((x + Closing(n) + [t])[..m]) > floor
  {
    var y := x + Closing(n) + [t];
    forall m | |x| < m <= |x| + n + 1
      ensures Height(y[..m]) > floor
    {
      if m <= |x| + n {
        assert y[..m] == x + Closing(m - |x|);
        CloseRunHeight(x, m - |x|);
      } else {
        assert y[..m] == (x + Closing(n)) + [t];
        CloseRunHeight(x, n);
        AppendToken(x + Closing(n), t, None);
      }
    }
  }

  /** Between two consecutive `<div>`s of posts the output only closes
      containers. */
  lemma NextOpen(posts: seq<Post>, current: Option<Post>, j: nat)
    requires j + 1 < |posts|
    ensures exists n: nat ::
              UpToOpen(posts, current, j + 1)
              == UpToOpen(posts, current, j) + Closing(n) + [Open(posts[j + 1], IsCurrent(posts[j + 1], current))]
  {
    assert posts[..j + 1] == posts[..j] + [posts[j]];
    RunSnoc(Start(), posts[..j], posts[j], current);
    var s := Run(Start(), posts[..j + 1], current);
    var x := UpToOpen(posts, current, j);
    var e: nat := if HasChildren(posts[j]) then 0 else 1;
    assert s.out == x + Closing(e) by {
      if e == 1 {
        assert Closing(1) == [Close];
      } else {
        assert x + Closing(0) == x;
      }
    }
    var b := Before(posts, current, j + 1);
    var c := |s.levels| - |b.levels|;
    assert b.out == s.out + Closing(c);
    assert Closing(e) + Closing(c) == Closing(e + c);
    assert b.out == x + Closing(e + c);
  }

  // ---- Ancestors in a well-formed thread -------------------------------------

  /** When every ancestor of `a` is one of `b`, `b` has at least as many, and
      strictly more when some post is an ancestor of `b` only. */
  lemma {:induction false} FewerAncestors(ps: seq<Post>, a: Post, b: Post, x: nat)
    requires forall k :: 0 <= k < |ps| && Ancestor(ps[k], a) ==> Ancestor(ps[k], b)
    ensures |AncestorRights(ps, a)| <= |AncestorRights(ps, b)|
    ensures x < |ps| && !Ancestor(ps[x], a) && Ancestor(ps[x], b) ==> |AncestorRights(ps, a)| < |AncestorRights(ps, b)|
  {
    if ps != [] {
      var init := ps[..|ps| - 1];
      forall k | 0 <= k < |init| && Ancestor(init[k], a)
        ensures Ancestor(init[k], b)
      {
        assert init[k] == ps[k];
      }
      FewerAncestors(init, a, b, x);
      if x < |init| {
        assert init[x] == ps[x];
      }
    }
  }

  /** Every post listed between a post and one of its descendants is a
      descendant too. */
  lemma DescendantsBetween(posts: seq<Post>, i: nat, m: nat, k: nat)
    requires WellFormed(posts) && i < m <= k < |posts| && Ancestor(posts[i], posts[k])
    ensures Ancestor(posts[i], posts[m])
  {
    if m < k {
      assert posts[m].left < posts[k].left;
    }
  }

  /** A descendant's `<div>` is emitted with more containers open than its
      ancestor's. */
  lemma DeeperThanAncestor(posts: seq<Post>, current: Option<Post>, i: nat, j: nat)
    requires WellFormed(posts) && i < j < |posts| && Ancestor(posts[i], posts[j])
    ensures Height(Before(posts, current, j).out) > Height(Before(posts, current, i).out)
  {
    OpensInsideAncestors(posts, current, i);
    OpensInsideAncestors(posts, current, j);
    forall k | 0 <= k < |posts| && Ancestor(posts[k], posts[i])
      ensures Ancestor(posts[k], posts[j])
    {
    }
    FewerAncestors(posts, posts[i], posts[j], i);
  }

  // ---- An ancestor's container stays open --------------------------------------

  /** Extending an output whose prefixes past `lo` all stay above `floor` by
      a run of closing tags and one opening tag keeps that property, as long
      as the run's lowest point stays above `floor`. */
  lemma ExtendAbove(x: seq<Token>, lo: nat, n: nat, t: Token, floor: int)
    requires lo <= |x|
    requires forall m :: lo < m <= |x| ==> Height(x[..m]) > floor
    requires t.Open? && Height(x) - n > floor
    ensures forall m :: lo < m <= |x| + n + 1 ==> Height((x + Closing(n) + [t])[..m]) > floor
  {
    var y := x + Closing(n) + [t];
    SegmentHeights(x, n, t, floor);
    forall m | lo < m <= |x| + n + 1
      ensures Height(y[..m]) > floor
    {
      if m <= |x| {
        assert y[..m] == x[..m];
      }
    }
  }

  /** From post `i`'s `<div>` up to the `<div>` of its descendant `j`, every
      prefix of the output has more containers open than just before `i`'s
      `<div>`. */
  lemma {:induction false} StaysOpen(posts: seq<Post>, current: Option<Post>, i: nat, j: nat)
    requires WellFormed(posts) && i <= j < |posts|
    requires i == j || Ancestor(posts[i], posts[j])
    ensures var b := Before(posts, current, i).out;
      var y := UpToOpen(posts, current, j);
      forall m :: |b| < m <= |y| ==> Height(y[..m]) > Height(b)
    decreases j - i
  {
    var b := Before(posts, current, i).out;
    var y := UpToOpen(posts, current, j);
    var t := Open(posts[j], IsCurrent(posts[j], current));
    if j == i {
      forall m | |b| < m <= |y|
        ensures Height(y[..m]) > Height(b)
      {
        assert y[..m] == b + [t];
        AppendToken(b, t, current);
      }
    } else {
      var k := j - 1;
      if k > i {
        DescendantsBetween(posts, i, k, j);
      }
      StaysOpen(posts, current, i, k);
      var x := UpToOpen(posts, current, k);
      NextOpen(posts, current, k);
      var n: nat :| y == x + Closing(n) + [t];
      assert Before(posts, current, j).out == x + Closing(n) by {
        assert y[..|y| - 1] == x + Closing(n);
      }
      if k > i {
        OpenedEarlier(posts, current, i, k);
      }
      CloseRunHeight(x, n);
      DeeperThanAncestor(posts, current, i, j);
      ExtendAbove(x, |b|, n, t, Height(b));
    }
  }

  /** Post `i`'s `<div>` comes before the state in which a later post is
      emitted. */
  lemma OpenedEarlier(posts: seq<Post>, current: Option<Post>, i: nat, k: nat)
    requires i < k < |posts|
    ensures UpToOpen(posts, current, i) <= Before(posts, current, k).out
  {
    var st := Run(Start(), posts[..i], current);
    assert posts[..k] == posts[..i] + ([posts[i]] + posts[i + 1..k]);
    RunAppend(Start(), posts[..i], [posts[i]] + posts[i + 1..k], current);
    assert Run(st, [posts[i]] + posts[i + 1..k], current)
        == Run(Step(st, posts[i], current), posts[i + 1..k], current);
  }

  // ---- Matching closing tags -----------------------------------------------------

  /** Each tag changes the number of open containers by one. */
  lemma HeightStep(ts: seq<Token>, m: nat)
    requires 0 < m <= |ts|
    ensures ts[m - 1].Close? ==> Height(ts[..m]) == Height(ts[..m - 1]) - 1
    ensures !ts[m - 1].Close? ==> Height(ts[..m]) == Height(ts[..m - 1]) + 1
  {
    assert ts[..m] == ts[..m - 1] + [ts[m - 1]];
    AppendToken(ts[..m - 1], ts[m - 1], None);
  }

  /** An opening tag at `p` whose count never returns to its level before
      `m` is matched at or after `m - 1`, once the whole output ends at or
      below that level. */
  lemma {:induction false} MatchingCloseExists(ts: seq<Token>, p: nat, m: nat)
    requires p < m <= |ts|
    requires Height(ts[..p + 1]) == Height(ts[..p]) + 1
    requires forall n :: p < n < m ==> Height(ts[..n]) > Height(ts[..p])
    requires Height(ts[..|ts|]) <= Height(ts[..p])
    ensures exists q :: ClosesAt(ts, p, q)
    decreases |ts| - m
  {
    if Height(ts[..m]) > Height(ts[..p]) {
      MatchingCloseExists(ts, p, m + 1);
    } else {
      HeightStep(ts, m);
      assert ClosesAt(ts, p, m - 1);
    }
  }

  /** Two containers where the second opens while the first is open: the
      second is closed first. */
  lemma NestedCloses(ts: seq<Token>, pi: nat, pk: nat, qi: nat, qk: nat)
    requires pi < pk < |ts|
    requires forall n :: pi < n <= pk + 1 ==> Height(ts[..n]) > Height(ts[..pi])
    requires Height(ts[..pk]) > Height(ts[..pi])
    requires ClosesAt(ts, pi, qi) && ClosesAt(ts, pk, qk)
    ensures pk < qk < qi
  {
  }

  /** Where the two `<div>`s sit in the whole output, and the open count
      between them. */
  lemma OpensInOutput(posts: seq<Post>, current: Option<Post>, i: nat, k: nat)
    requires WellFormed(posts) && i < k < |posts| && Ancestor(posts[i], posts[k])
    ensures var out := Render(posts, current);
      var bi := Before(posts, current, i).out;
      var bk := Before(posts, current, k).out;
      && |bi| < |bk| < |out|
      && out[|bi|] == Open(posts[i], IsCurrent(posts[i], current))
      && out[|bk|] == Open(posts[k], IsCurrent(posts[k], current))
      && out[..|bi|] == bi && out[..|bk|] == bk
      && (forall n :: |bi| < n <= |bk| + 1 ==> Height(out[..n]) > Height(bi))
      && Height(bk) > Height(bi)
  {
    var out := Render(posts, current);
    var bi := Before(posts, current, i).out;
    var bk := Before(posts, current, k).out;
    var yk := UpToOpen(posts, current, k);
    EmittedBeforeRest(posts, current, i);
    EmittedBeforeRest(posts, current, k);
    OpenedEarlier(posts, current, i, k);
    assert out[..|bi|] == bi && out[..|bk|] == bk;
    StaysOpen(posts, current, i, k);
    forall n | |bi| < n <= |yk|
      ensures Height(out[..n]) > Height(bi)
    {
      assert out[..n] == yk[..n];
    }
    DeeperThanAncestor(posts, current, i, k);
  }

  /** Whatever the intervals, every post's `<div>` is matched by a `</div>`
      somewhere in the output. */
  lemma EveryOpenIsClosed(posts: seq<Post>, current: Option<Post>, i: nat)
    requires i < |posts|
    ensures var out := Render(posts, current);
      var bi := Before(posts, current, i).out;
      && |bi| < |out| && out[|bi|] == Open(posts[i], IsCurrent(posts[i], current))
      && exists q :: ClosesAt(out, |bi|, q)
  {
    var out := Render(posts, current);
    var bi := Before(posts, current, i).out;
    var t := Open(posts[i], IsCurrent(posts[i], current));
    EmittedBeforeRest(posts, current, i);
    assert out[..|bi|] == bi && out[..|bi| + 1] == bi + [t];
    AppendToken(bi, t, current);
    RenderBalanced(posts, current);
    assert out[0] == OpenWrapper;
    assert |bi| > 0 && Height(out[..|bi|]) >= 1;
    assert out[..|out|] == out;
    MatchingCloseExists(out, |bi|, |bi| + 1);
  }

  /** Correct nesting, tag by tag: for a well-formed thread and a post `k`
      below post `i`, both `<div>`s are matched by a `</div>` in the output,
      and `k`'s pair lies strictly inside `i`'s. */
  lemma AncestorEnclosesDescendant(posts: seq<Post>, current: Option<Post>, i: nat, k: nat)
    requires WellFormed(posts) && i < k < |posts| && Ancestor(posts[i], posts[k])
    ensures var out := Render(posts, current);
      var pi := |Before(posts, current, i).out|;
      var pk := |Before(posts, current, k).out|;
      && pi < pk < |out|
      && out[pi] == Open(posts[i], IsCurrent(posts[i], current))
      && out[pk] == Open(posts[k], IsCurrent(posts[k], current))
      && (exists q :: ClosesAt(out, pi, q))
      && (exists q :: ClosesAt(out, pk, q))
      && forall qi, qk :: ClosesAt(out, pi, qi) && ClosesAt(out, pk, qk) ==> pi < pk < qk < qi
  {
    var out := Render(posts, current);
    var pi := |Before(posts, current, i).out|;
    var pk := |Before(posts, current, k).out|;
    OpensInOutput(posts, current, i, k);
    EveryOpenIsClosed(posts, current, i);
    EveryOpenIsClosed(posts, current, k);
    forall qi, qk | ClosesAt(out, pi, qi) && ClosesAt(out, pk, qk)
      ensures pi < pk < qk < qi
    {
      NestedCloses(out, pi, pk, qi, qk);
    }
  }
}
