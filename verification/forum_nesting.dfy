/**
 What `make_tree` guarantees when the thread is a well-formed nested set
 sorted by `left`: when a post is emitted, the stack of pending boundaries
 holds, outermost first, the right boundaries of exactly that post's
 ancestors, and the number of containers open around it is one (the wrapper)
 plus the number of its ancestors.
 */
module ForumNesting {
  import opened Basics
  import opened ForumTree

  /** `a`'s interval strictly contains `p`'s. */
  predicate Ancestor(a: Post, p: Post) {
    a.left < p.left && p.right < a.right
  }

  /** A nested set listed by ascending `left`: every interval is proper, and
      of two posts the earlier either contains the later or ends before it. */
  ghost predicate WellFormed(posts: seq<Post>) {
    && (forall i :: 0 <= i < |posts| ==> posts[i].left < posts[i].right)
    && (forall i, j :: 0 <= i < j < |posts| ==> posts[i].left < posts[j].left)
    && (forall i, j :: 0 <= i < j < |posts| ==> Ancestor(posts[i], posts[j]) || posts[i].right < posts[j].left)
  }

  /** The right boundaries of `p`'s ancestors among `ps`, in the order of `ps`. */
  function AncestorRights(ps: seq<Post>, p: Post): seq<int> {
    if ps == [] then []
    else AncestorRights(ps[..|ps| - 1], p) + (if Ancestor(ps[|ps| - 1], p) then [ps[|ps| - 1].right] else [])
  }

  /** The elements of `s` that are at least `bound`, in order. */
  function KeepFrom(s: seq<int>, bound: int): seq<int> {
    if s == [] then []
    else KeepFrom(s[..|s| - 1], bound) + (if s[|s| - 1] >= bound then [s[|s| - 1]] else [])
  }

  /** Strictly decreasing from bottom to top. */
  ghost predicate Descending(s: seq<int>) {
    forall i, j :: 0 <= i < j < |s| ==> s[i] > s[j]
  }

  /** The stack right after post `last` has been handled. */
  function StackAfter(ps: seq<Post>, last: Post): seq<int> {
    AncestorRights(ps, last) + (if HasChildren(last) then [last.right] else [])
  }

  // ---- Facts about the helpers -----------------------------------------------

  lemma WellFormedPrefix(posts: seq<Post>, n: nat)
    requires WellFormed(posts) && n <= |posts|
    ensures WellFormed(posts[..n])
  {
    var ps := posts[..n];
    forall i, j | 0 <= i < j < |ps|
      ensures Ancestor(ps[i], ps[j]) || ps[i].right < ps[j].left
    {
      assert ps[i] == posts[i] && ps[j] == posts[j];
    }
  }

  lemma {:induction false} KeepAll(s: seq<int>, bound: int)
    requires forall i :: 0 <= i < |s| ==> s[i] >= bound
    ensures KeepFrom(s, bound) == s
  {
    if s != [] {
      KeepAll(s[..|s| - 1], bound);
      assert s[..|s| - 1] + [s[|s| - 1]] == s;
    }
  }

  /** On a descending stack `make_tree`'s `while levels[-1] < post.left` loop
      keeps exactly the boundaries at or above `left`. */
  lemma {:induction false} CloseBeforeKeeps(st: Renderer, left: int)
    requires Descending(st.levels)
    ensures CloseBefore(st, left).levels == KeepFrom(st.levels, left)
    decreases |st.levels|
  {
    var l := st.levels;
    if l != [] && l[|l| - 1] < left {
      var init := l[..|l| - 1];
      var st' := Renderer(init, st.depth - 1, st.out + [Close]);
      assert CloseBefore(st, left) == CloseBefore(st', left);
      assert KeepFrom(l, left) == KeepFrom(init, left) + [];
      CloseBeforeKeeps(st', left);
    } else if l != [] {
      KeepAll(l, left);
    }
  }

  lemma {:induction false} RightsAbove(ps: seq<Post>, p: Post, b: int)
    requires forall k :: 0 <= k < |ps| && Ancestor(ps[k], p) ==> ps[k].right > b
    ensures forall i :: 0 <= i < |AncestorRights(ps, p)| ==> AncestorRights(ps, p)[i] > b
  {
    if ps != [] {
      var init := ps[..|ps| - 1];
      forall k | 0 <= k < |init| && Ancestor(init[k], p)
        ensures init[k].right > b
      {
        assert init[k] == ps[k];
      }
      RightsAbove(init, p, b);
    }
  }

  lemma DescendingSnoc(s: seq<int>, x: int)
    requires Descending(s)
    requires forall i :: 0 <= i < |s| ==> s[i] > x
    ensures Descending(s + [x])
  {
  }

  /** Ancestors of one post are nested in each other, so their boundaries
      strictly decrease. */
  lemma {:induction false} AncestorRightsDescending(ps: seq<Post>, p: Post)
    requires WellFormed(ps) && p.left < p.right
    ensures Descending(AncestorRights(ps, p))
  {
    if ps != [] {
      var init := ps[..|ps| - 1];
      var q := ps[|ps| - 1];
      WellFormedPrefix(ps, |ps| - 1);
      AncestorRightsDescending(init, p);
      if Ancestor(q, p) {
        forall k | 0 <= k < |init| && Ancestor(init[k], p)
          ensures init[k].right > q.right
        {
          assert init[k] == ps[k];
        }
        RightsAbove(init, p, q.right);
        DescendingSnoc(AncestorRights(init, p), q.right);
      }
    }
  }

  /** Filtering the ancestors of `last` by `>= p.left` gives the ancestors
      of `p` whenever the two tests agree on every post. */
  lemma {:induction false} KeepFromAncestors(qs: seq<Post>, last: Post, p: Post)
    requires forall k :: 0 <= k < |qs| ==> (Ancestor(qs[k], last) && qs[k].right >= p.left <==> Ancestor(qs[k], p))
    ensures KeepFrom(AncestorRights(qs, last), p.left) == AncestorRights(qs, p)
  {
    if qs != [] {
      var init := qs[..|qs| - 1];
      var q := qs[|qs| - 1];
      forall k | 0 <= k < |init|
        ensures Ancestor(init[k], last) && init[k].right >= p.left <==> Ancestor(init[k], p)
      {
        assert init[k] == qs[k];
      }
      KeepFromAncestors(init, last, p);
      var a := AncestorRights(init, last);
      var tail := if Ancestor(q, last) then [q.right] else [];
      assert AncestorRights(qs, last) == a + tail;
      assert Ancestor(q, last) && q.right >= p.left <==> Ancestor(q, p);
      if Ancestor(q, last) {
        assert (a + [q.right])[..|a|] == a;
        assert KeepFrom(a + [q.right], p.left) == KeepFrom(a, p.left) + (if q.right >= p.left then [q.right] else []);
      } else {
        assert a + tail == a;
      }
    }
  }

  lemma {:induction false} LaterNotAncestors(ps: seq<Post>, n: nat, p: Post)
    requires n <= |ps|
    requires forall k :: n <= k < |ps| ==> !Ancestor(ps[k], p)
    ensures AncestorRights(ps, p) == AncestorRights(ps[..n], p)
  {
    if |ps| > n {
      var init := ps[..|ps| - 1];
      forall k | n <= k < |init|
        ensures !Ancestor(init[k], p)
      {
        assert init[k] == ps[k];
      }
      LaterNotAncestors(init, n, p);
      assert init[..n] == ps[..n];
    } else {
      assert ps[..n] == ps;
    }
  }

  lemma {:induction false} RunSnoc(st: Renderer, ps: seq<Post>, p: Post, current: Option<Post>)
    ensures Run(st, ps + [p], current) == Step(Run(st, ps, current), p, current)
    decreases |ps|
  {
    if ps == [] {
      assert [] + [p] == [p];
      assert [p][1..] == [];
    } else {
      assert (ps + [p])[1..] == ps[1..] + [p];
      RunSnoc(Step(st, ps[0], current), ps[1..], p, current);
    }
  }

  lemma {:induction false} RunAppend(st: Renderer, a: seq<Post>, b: seq<Post>, current: Option<Post>)
    ensures Run(st, a + b, current) == Run(Run(st, a, current), b, current)
    decreases |a|
  {
    if a == [] {
      assert [] + b == b;
    } else {
      assert (a + b)[1..] == a[1..] + b;
      RunAppend(Step(st, a[0], current), a[1..], b, current);
    }
  }

  // ---- The stack tracks the ancestors ----------------------------------------

  /** The stack after post `i - 1` strictly decreases, the last post included. */
  lemma StackAfterDescending(posts: seq<Post>, i: nat)
    requires WellFormed(posts) && 0 < i <= |posts|
    ensures Descending(StackAfter(posts[..i - 1], posts[i - 1]))
  {
    var init := posts[..i - 1];
    var last := posts[i - 1];
    WellFormedPrefix(posts, i - 1);
    AncestorRightsDescending(init, last);
    RightsAbove(init, last, last.right);
    if HasChildren(last) {
      DescendingSnoc(AncestorRights(init, last), last.right);
    } else {
      assert StackAfter(init, last) == AncestorRights(init, last);
    }
  }

  /** The boundaries the closing loop keeps for post `i` are those of `i`'s
      ancestors: an ancestor of post `i - 1` (or `i - 1` itself) that ends at
      or after `i`'s left boundary contains post `i`, and every ancestor of
      `i` contains `i - 1` too. */
  lemma KeptAreAncestors(posts: seq<Post>, i: nat)
    requires WellFormed(posts) && 0 < i < |posts|
    ensures KeepFrom(StackAfter(posts[..i - 1], posts[i - 1]), posts[i].left) == AncestorRights(posts[..i], posts[i])
  {
    var init := posts[..i - 1];
    var last := posts[i - 1];
    var p := posts[i];
    forall k | 0 <= k < |init|
      ensures Ancestor(init[k], last) && init[k].right >= p.left <==> Ancestor(init[k], p)
    {
      assert init[k] == posts[k];
      assert Ancestor(posts[k], last) || posts[k].right < last.left;
      assert Ancestor(posts[k], p) || posts[k].right < p.left;
    }
    KeepFromAncestors(init, last, p);
    var anc := AncestorRights(init, last);
    assert Ancestor(last, p) || last.right < p.left;
    assert HasChildren(last) && last.right >= p.left <==> Ancestor(last, p);
    assert posts[..i] == init + [last];
    assert (init + [last])[..|init|] == init;
    assert AncestorRights(posts[..i], p) == AncestorRights(init, p) + (if Ancestor(last, p) then [last.right] else []);
    if HasChildren(last) {
      assert (anc + [last.right])[..|anc|] == anc;
    } else {
      assert anc + [] == anc;
    }
  }

  /** After the closing loop for post `i`, the stack holds the right
      boundaries of `i`'s ancestors, outermost first. */
  lemma {:induction false} StackBeforePost(posts: seq<Post>, current: Option<Post>, i: nat)
    requires WellFormed(posts) && i < |posts|
    ensures CloseBefore(Run(Start(), posts[..i], current), posts[i].left).levels == AncestorRights(posts[..i], posts[i])
    decreases i, 0
  {
    var st := Run(Start(), posts[..i], current);
    if i == 0 {
      assert posts[..0] == [];
    } else {
      StackAfterPost(posts, current, i - 1);
      assert posts[..i - 1 + 1] == posts[..i];
      StackAfterDescending(posts, i);
      CloseBeforeKeeps(st, posts[i].left);
      KeptAreAncestors(posts, i);
    }
  }

  /** After post `i` has been handled, the stack holds its ancestors'
      boundaries and, when it has room for descendants, its own. */
  lemma {:induction false} StackAfterPost(posts: seq<Post>, current: Option<Post>, i: nat)
    requires WellFormed(posts) && i < |posts|
    ensures Run(Start(), posts[..i + 1], current).levels == StackAfter(posts[..i], posts[i])
    decreases i, 1
  {
    StackBeforePost(posts, current, i);
    assert posts[..i + 1] == posts[..i] + [posts[i]];
    RunSnoc(Start(), posts[..i], posts[i], current);
    StepStack(Run(Start(), posts[..i], current), posts[i], current);
  }

  /** The renderer's own stack `levels` strictly decreases after every post
      of a well-formed thread, the last one included. */
  lemma LevelsDescending(posts: seq<Post>, current: Option<Post>, i: nat)
    requires WellFormed(posts) && 0 < i <= |posts|
    ensures Descending(Run(Start(), posts[..i], current).levels)
  {
    StackAfterPost(posts, current, i - 1);
    StackAfterDescending(posts, i);
    assert posts[..i - 1 + 1] == posts[..i];
  }

  /** Whatever the intervals, the tokens emitted up to and including post
      `i`'s opening are a prefix of the final output. */
  lemma EmittedBeforeRest(posts: seq<Post>, current: Option<Post>, i: nat)
    requires i < |posts|
    ensures var before := CloseBefore(Run(Start(), posts[..i], current), posts[i].left);
      before.out + [Open(posts[i], IsCurrent(posts[i], current))] <= Render(posts, current)
  {
    var p := posts[i];
    var st := Run(Start(), posts[..i], current);
    var before := CloseBefore(st, p.left);
    var next := Step(st, p, current);
    assert next.out[..|before.out| + 1] == before.out + [Open(p, IsCurrent(p, current))];
    assert posts == posts[..i] + ([p] + posts[i + 1..]);
    RunAppend(Start(), posts[..i], [p] + posts[i + 1..], current);
    assert Run(st, [p] + posts[i + 1..], current) == Run(next, posts[i + 1..], current);
  }

  /** Nesting depth: for a well-formed nested set, in the state in which the
      output emits post `i`, the stack holds the right boundaries of exactly
      `i`'s ancestors in the whole thread, outermost first (strictly
      decreasing), and the containers open at that point number one more than
      the stack, the wrapper being the extra one. */
  lemma OpensInsideAncestors(posts: seq<Post>, current: Option<Post>, i: nat)
    requires WellFormed(posts) && i < |posts|
    ensures var before := CloseBefore(Run(Start(), posts[..i], current), posts[i].left);
      && before.levels == AncestorRights(posts, posts[i])
      && Descending(before.levels)
      && Height(before.out) == 1 + |before.levels|
      && before.out + [Open(posts[i], IsCurrent(posts[i], current))] <= Render(posts, current)
  {
    var p := posts[i];
    var st := Run(Start(), posts[..i], current);
    StackBeforePost(posts, current, i);
    LaterNotAncestors(posts, i, p);
    WellFormedPrefix(posts, i);
    AncestorRightsDescending(posts[..i], p);
    StartConsistent(current);
    RunConsistent(Start(), posts[..i], current);
    CloseBeforeConsistent(st, p.left, current);
    EmittedBeforeRest(posts, current, i);
  }
}
