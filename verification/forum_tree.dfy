/**
 The forum's `make_tree` template tag: it walks a thread's posts, which carry
 nested-set `left`/`right` boundaries, and emits nested containers.

 The markup is abstracted to a token sequence: `OpenWrapper` is the outer
 `<div class="post-tree">`, `Open(post, isCurrent)` is a post's `<div>` with its
 line, and `Close` is a `</div>`. The renderer is a fold over the posts that
 carries the stack `levels` of pending right boundaries and the counter `depth`.
 */
module ForumTree {
  import opened Basics

  /** A forum post as the renderer sees it. */
  datatype Post = Post(pk: int, left: int, right: int, subject: string, username: string, boardSlug: string)

  /** One piece of emitted markup. */
  datatype Token = OpenWrapper | Open(post: Post, isCurrent: bool) | Close

  /** What a post's opening line shows: the focus post gets an arrow icon and a
      plain title, every other post a link addressed by board slug and pk. */
  datatype Line =
    | Marked(title: string, user: string)
    | Linked(board: string, pk: int, title: string, user: string)

  /** The renderer's state between two posts. */
  datatype Renderer = Renderer(levels: seq<int>, depth: int, out: seq<Token>)

  /** A post whose interval leaves room for descendants stays open. */
  predicate HasChildren(p: Post) {
    p.right - p.left > 1
  }

  /** `post == current_post` under Django's model equality: same primary key;
      nothing equals a missing focus post. */
  predicate IsCurrent(p: Post, current: Option<Post>) {
    current.Some? && current.value.pk == p.pk
  }

  function LineOf(t: Token): (l: Line)
    requires t.Open?
    ensures l.title == t.post.subject && l.user == t.post.username
    ensures l.Marked? <==> t.isCurrent
    ensures l.Linked? ==> l.board == t.post.boardSlug && l.pk == t.post.pk
  {
    if t.isCurrent then Marked(t.post.subject, t.post.username)
    else Linked(t.post.boardSlug, t.post.pk, t.post.subject, t.post.username)
  }

  /** `n` closing tags. */
  function Closing(n: nat): (ts: seq<Token>)
    ensures |ts| == n && forall i :: 0 <= i < n ==> ts[i] == Close
  {
    seq(n, _ => Close)
  }

  // ---- Counting tokens -------------------------------------------------------

  /** Number of outer wrappers emitted in `ts`. */
  function Wrappers(ts: seq<Token>): nat {
    if ts == [] then 0 else Wrappers(ts[..|ts| - 1]) + (if ts[|ts| - 1].OpenWrapper? then 1 else 0)
  }

  /** The posts emitted in `ts`, in order of emission. */
  function Opened(ts: seq<Token>): seq<Post> {
    if ts == [] then [] else Opened(ts[..|ts| - 1]) + (if ts[|ts| - 1].Open? then [ts[|ts| - 1].post] else [])
  }

  /** Number of closing tags in `ts`. */
  function Closes(ts: seq<Token>): nat {
    if ts == [] then 0 else Closes(ts[..|ts| - 1]) + (if ts[|ts| - 1].Close? then 1 else 0)
  }

  /** Containers still open after emitting `ts`. */
  function Height(ts: seq<Token>): int {
    Wrappers(ts) + |Opened(ts)| - Closes(ts)
  }

  /** Every non-empty prefix of `ts` leaves the wrapper open. */
  ghost predicate WrapperStaysOpen(ts: seq<Token>) {
    forall k :: 0 < k <= |ts| ==> Height(ts[..k]) >= 1
  }

  /** Exactly the focus post is marked among the posts opened in `ts`. */
  ghost predicate MarksFocus(ts: seq<Token>, current: Option<Post>) {
    forall i :: 0 <= i < |ts| && ts[i].Open? ==> ts[i].isCurrent == IsCurrent(ts[i].post, current)
  }

  /** Emitting one more token, as long as it does not close the wrapper. */
  lemma AppendToken(ts: seq<Token>, t: Token, current: Option<Post>)
    ensures Wrappers(ts + [t]) == Wrappers(ts) + (if t.OpenWrapper? then 1 else 0)
    ensures Opened(ts + [t]) == Opened(ts) + (if t.Open? then [t.post] else [])
    ensures Closes(ts + [t]) == Closes(ts) + (if t.Close? then 1 else 0)
    ensures WrapperStaysOpen(ts) && Height(ts + [t]) >= 1 ==> WrapperStaysOpen(ts + [t])
    ensures MarksFocus(ts, current) && (t.Open? ==> t.isCurrent == IsCurrent(t.post, current))
        ==> MarksFocus(ts + [t], current)
  {
    var ts' := ts + [t];
    assert ts'[..|ts|] == ts;
    assert ts'[..|ts'|] == ts';
    if WrapperStaysOpen(ts) && Height(ts') >= 1 {
      forall k | 0 < k <= |ts'|
        ensures Height(ts'[..k]) >= 1
      {
        if k <= |ts| {
          assert ts'[..k] == ts[..k];
        }
      }
    }
  }

  /** Appending `n` closing tags to a sequence that has more than `n` open
      containers never closes the wrapper and removes exactly `n` of them. */
  lemma {:induction false} AppendCloses(ts: seq<Token>, n: nat, current: Option<Post>)
    requires WrapperStaysOpen(ts) && Height(ts) > n
    ensures WrapperStaysOpen(ts + Closing(n))
    ensures MarksFocus(ts, current) ==> MarksFocus(ts + Closing(n), current)
    ensures Wrappers(ts + Closing(n)) == Wrappers(ts)
    ensures Opened(ts + Closing(n)) == Opened(ts)
    ensures Closes(ts + Closing(n)) == Closes(ts) + n
  {
    if n == 0 {
      assert ts + Closing(0) == ts;
    } else {
      var prev := ts + Closing(n - 1);
      AppendCloses(ts, n - 1, current);
      assert ts + Closing(n) == prev + [Close];
      AppendToken(prev, Close, current);
    }
  }

  // ---- The renderer ----------------------------------------------------------

  function Start(): Renderer {
    Renderer([], 0, [OpenWrapper])
  }

  /** The closing loop before a post: pop and close every stacked boundary
      strictly below `left`, from the top; an empty stack ends the loop, as
      `make_tree`'s `except IndexError: pass` does. */
  function CloseBefore(st: Renderer, left: int): (r: Renderer)
    ensures |r.levels| <= |st.levels| && r.levels == st.levels[..|r.levels|]
    ensures r.levels == [] || r.levels[|r.levels| - 1] >= left
    ensures forall i :: |r.levels| <= i < |st.levels| ==> st.levels[i] < left
    ensures r.depth == st.depth - (|st.levels| - |r.levels|)
    ensures r.out == st.out + Closing(|st.levels| - |r.levels|)
    decreases |st.levels|
  {
    if st.levels != [] && st.levels[|st.levels| - 1] < left then
      var r := CloseBefore(Renderer(st.levels[..|st.levels| - 1], st.depth - 1, st.out + [Close]), left);
      assert st.out + [Close] + Closing(|st.levels| - 1 - |r.levels|) == st.out + Closing(|st.levels| - |r.levels|);
      r
    else
      assert st.out + Closing(0) == st.out;
      st
  }

  /** One iteration of the loop over the posts. */
  function Step(st: Renderer, post: Post, current: Option<Post>): Renderer {
    var s := CloseBefore(st, post.left);
    var emitted := s.out + [Open(post, IsCurrent(post, current))];
    if HasChildren(post) then Renderer(s.levels + [post.right], |s.levels| + 1, emitted)
    else Renderer(s.levels, s.depth, emitted + [Close])
  }

  /** The loop over `posts`, started from `st`. */
  function Run(st: Renderer, posts: seq<Post>, current: Option<Post>): (r: Renderer)
    ensures st.out <= r.out
    decreases |posts|
  {
    if posts == [] then st else Run(Step(st, posts[0], current), posts[1..], current)
  }

  /** The tail of the tag: `depth` closes (none if it is not positive, as
      Python's string repetition), then the wrapper's close. */
  function Finish(st: Renderer): seq<Token> {
    st.out + Closing(if st.depth > 0 then st.depth else 0) + [Close]
  }

  /** `make_tree(posts, current_post)` as a token sequence. */
  function Render(posts: seq<Post>, current: Option<Post>): (ts: seq<Token>)
    ensures posts == [] ==> ts == [OpenWrapper, Close]
  {
    Finish(Run(Start(), posts, current))
  }

  // ---- Invariants that hold for every input ----------------------------------

  /** What the loop keeps true, whatever the intervals are. */
  ghost predicate Consistent(st: Renderer, current: Option<Post>) {
    && st.depth == |st.levels|
    && |st.out| > 0 && st.out[0] == OpenWrapper && Wrappers(st.out) == 1
    && Height(st.out) == 1 + |st.levels|
    && WrapperStaysOpen(st.out)
    && MarksFocus(st.out, current)
  }

  lemma StartConsistent(current: Option<Post>)
    ensures Consistent(Start(), current)
    ensures Opened(Start().out) == []
  {
    assert [OpenWrapper] == [] + [OpenWrapper];
    AppendToken([], OpenWrapper, current);
  }

  /** The closing loop keeps `depth == |levels|` and closes only containers it
      has on its stack. */
  lemma CloseBeforeConsistent(st: Renderer, left: int, current: Option<Post>)
    requires Consistent(st, current)
    ensures Consistent(CloseBefore(st, left), current)
    ensures Opened(CloseBefore(st, left).out) == Opened(st.out)
  {
    var r := CloseBefore(st, left);
    AppendCloses(st.out, |st.levels| - |r.levels|, current);
  }

  /** One post: it is opened exactly once and `depth == |levels|` still
      holds; a post with room for descendants pushes its right boundary and
      stays open, any other post is closed at once and leaves the stack as the
      closing loop left it. */
  lemma StepConsistent(st: Renderer, post: Post, current: Option<Post>)
    requires Consistent(st, current)
    ensures Consistent(Step(st, post, current), current)
    ensures Opened(Step(st, post, current).out) == Opened(st.out) + [post]
  {
    var s := CloseBefore(st, post.left);
    CloseBeforeConsistent(st, post.left, current);
    var tok := Open(post, IsCurrent(post, current));
    var emitted := s.out + [tok];
    AppendToken(s.out, tok, current);
    if !HasChildren(post) {
      AppendToken(emitted, Close, current);
    }
  }

  /** Whatever the state: a post with room for descendants pushes its right
      boundary and is left open; any other post is closed at once and the
      stack stays as the closing loop left it. */
  lemma StepStack(st: Renderer, post: Post, current: Option<Post>)
    ensures var s := CloseBefore(st, post.left);
      var r := Step(st, post, current);
      if HasChildren(post) then
        r.levels == s.levels + [post.right] && r.depth == |r.levels|
        && r.out == s.out + [Open(post, IsCurrent(post, current))]
      else
        r.levels == s.levels && r.depth == s.depth
        && r.out == s.out + [Open(post, IsCurrent(post, current)), Close]
  {
  }

  lemma {:induction false} RunConsistent(st: Renderer, posts: seq<Post>, current: Option<Post>)
    requires Consistent(st, current)
    ensures Consistent(Run(st, posts, current), current)
    decreases |posts|
  {
    if posts != [] {
      var next := Step(st, posts[0], current);
      StepConsistent(st, posts[0], current);
      RunConsistent(next, posts[1..], current);
      assert Run(st, posts, current) == Run(next, posts[1..], current);
    }
  }

  lemma SnocThenAppend<T>(a: seq<T>, s: seq<T>)
    requires s != []
    ensures (a + [s[0]]) + s[1..] == a + s
  {
    assert [s[0]] + s[1..] == s;
  }

  /** The loop opens the posts it is given, in order, once each. */
  lemma {:induction false} RunOpens(st: Renderer, posts: seq<Post>, current: Option<Post>)
    requires Consistent(st, current)
    ensures Opened(Run(st, posts, current).out) == Opened(st.out) + posts
    decreases |posts|
  {
    if posts != [] {
      var next := Step(st, posts[0], current);
      StepConsistent(st, posts[0], current);
      RunOpens(next, posts[1..], current);
      assert Run(st, posts, current) == Run(next, posts[1..], current);
      SnocThenAppend(Opened(st.out), posts);
    }
  }

  /** The tail closes every container still open, the wrapper last. */
  lemma FinishBalanced(st: Renderer, current: Option<Post>)
    requires Consistent(st, current)
    ensures var ts := Finish(st);
      && |ts| >= 2 && ts[0] == OpenWrapper && ts[|ts| - 1] == Close
      && Wrappers(ts) == 1
      && Opened(ts) == Opened(st.out)
      && Closes(ts) == Closes(st.out) + |st.levels| + 1
      && Height(ts) == 0
      && (forall k :: 0 < k < |ts| ==> Height(ts[..k]) >= 1)
      && MarksFocus(ts, current)
  {
    var body := st.out + Closing(st.depth);
    AppendCloses(st.out, st.depth, current);
    AppendToken(body, Close, current);
    var ts := body + [Close];
    assert ts == Finish(st);
    forall k | 0 < k < |ts|
      ensures Height(ts[..k]) >= 1
    {
      assert ts[..k] == body[..k];
    }
  }

  /** For every input, malformed intervals included: the output opens the
      wrapper once, first; opens every post exactly once and in input order,
      marking exactly the focus post; closes `|posts| + 1` containers; and
      is balanced, the wrapper being the last container closed. */
  lemma RenderBalanced(posts: seq<Post>, current: Option<Post>)
    ensures var ts := Render(posts, current);
      && |ts| >= 2 && ts[0] == OpenWrapper && ts[|ts| - 1] == Close
      && Wrappers(ts) == 1
      && Opened(ts) == posts
      && Closes(ts) == |posts| + 1
      && Height(ts) == 0
      && (forall k :: 0 < k < |ts| ==> Height(ts[..k]) >= 1)
      && MarksFocus(ts, current)
  {
    StartConsistent(current);
    RunConsistent(Start(), posts, current);
    RunOpens(Start(), posts, current);
    FinishBalanced(Run(Start(), posts, current), current);
  }

  /** A single childless post: one open/close pair inside the wrapper. */
  lemma SingleLeaf(p: Post)
    requires p.right - p.left == 1
    ensures Render([p], None) == [OpenWrapper, Open(p, false), Close, Close]
  {
    var s1 := Step(Start(), p, None);
    assert s1 == Renderer([], 0, [OpenWrapper, Open(p, false), Close]);
    assert Run(Start(), [p], None) == Run(s1, [], None);
  }

  /** A parent with two children: the parent's container is closed only after
      both children have been emitted and closed. */
  lemma ParentWithTwoChildren(a: Post, b: Post, c: Post)
    requires a.left == 1 && a.right == 6
    requires b.left == 2 && b.right == 3
    requires c.left == 4 && c.right == 5
    ensures Render([a, b, c], None)
         == [OpenWrapper, Open(a, false), Open(b, false), Close, Open(c, false), Close, Close, Close]
  {
    var s1 := Step(Start(), a, None);
    assert s1 == Renderer([6], 1, [OpenWrapper, Open(a, false)]);
    var s2 := Step(s1, b, None);
    assert CloseBefore(s1, 2) == s1;
    assert s2 == Renderer([6], 1, [OpenWrapper, Open(a, false), Open(b, false), Close]);
    var s3 := Step(s2, c, None);
    assert CloseBefore(s2, 4) == s2;
    assert s3 == Renderer([6], 1, [OpenWrapper, Open(a, false), Open(b, false), Close, Open(c, false), Close]);
    assert [a, b, c][1..] == [b, c] && [b, c][1..] == [c];
    assert Run(s3, [], None) == s3;
    assert Run(s2, [c], None) == s3;
    assert Run(s1, [b, c], None) == s3;
    assert Run(Start(), [a, b, c], None) == s3;
  }

  // ---- The imperative tag ------------------------------------------------------

  /** `make_tree`'s `while levels[-1] < post.left` loop inside its
      `try`/`except IndexError`, on the mutable stack. */
  method CloseLoop(levels0: seq<int>, depth0: int, html0: seq<Token>, left: int)
    returns (levels: seq<int>, depth: int, html: seq<Token>)
    ensures Renderer(levels, depth, html) == CloseBefore(Renderer(levels0, depth0, html0), left)
  {
    levels, depth, html := levels0, depth0, html0;
    while levels != [] && levels[|levels| - 1] < left
      invariant CloseBefore(Renderer(levels, depth, html), left) == CloseBefore(Renderer(levels0, depth0, html0), left)
      decreases |levels|
    {
      html := html + [Close];
      levels := levels[..|levels| - 1];
      depth := depth - 1;
    }
  }

  /** `make_tree` with its `for` and `while` loops and its mutable stack. */
  method MakeTree(posts: seq<Post>, current: Option<Post>) returns (html: seq<Token>)
    ensures html == Render(posts, current)
  {
    var levels: seq<int> := [];
    var depth := 0;
    html := [OpenWrapper];
    var i := 0;
    while i < |posts|
      invariant 0 <= i <= |posts|
      invariant Run(Renderer(levels, depth, html), posts[i..], current) == Run(Start(), posts, current)
    {
      var post := posts[i];
      ghost var before := Renderer(levels, depth, html);
      levels, depth, html := CloseLoop(levels, depth, html, post.left);
      StepStack(before, post, current);
      html := html + [Open(post, IsCurrent(post, current))];
      if post.right - post.left > 1 {
        levels := levels + [post.right];
        depth := |levels|;
      } else {
        html := html + [Close];
      }
      assert Renderer(levels, depth, html) == Step(before, post, current);
      assert posts[i..][1..] == posts[i + 1..];
      i := i + 1;
    }
    html := html + Closing(if depth > 0 then depth else 0) + [Close];
  }
}
