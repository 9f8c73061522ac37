/** The look-ahead of Solver.FindNextLetters (WordGrid/Solver.cs): which child letters of a column
    prefix can lead, through the tree, to the deepest preset letter of that column. */
module Exploring {
  import opened Common
  import opened Lex
  import opened Tries

  /** The largest element of a non-empty set of integers. */
  ghost function MaxOf(s: set<int>): (m: int)
    requires s != {}
    ensures m in s && forall k :: k in s ==> k <= m
    decreases |s|
  {
    assert (forall x :: x !in s) ==> s == {};
    var x: int :| x in s;
    if s == {x} then x
    else
      var r := MaxOf(s - {x});
      assert forall k :: k in s ==> k == x || k in s - {x};
      if x < r then r else x
  }

  /** `constraints?.Keys.DefaultIfEmpty(-1).Max() ?? -1`: the deepest preset position, or -1 when
      there are no constraints or none is preset. */
  ghost function MaxKey(constraints: Option<map<int, char>>): (m: int)
    ensures constraints.None? || constraints.value == map[] ==> m == -1
    ensures constraints.Some? && constraints.value != map[] ==>
      m in constraints.value && forall k :: k in constraints.value ==> k <= m
  {
    if constraints.None? || constraints.value == map[] then -1 else MaxOf(constraints.value.Keys)
  }

  /** `m` is the deepest key of `K`. */
  ghost predicate Deepest(K: map<int, char>, m: int) {
    m in K && forall k :: k in K ==> k <= m
  }

  // ---------------------------------------------------------------------------------------------
  // One search per candidate letter, as a recursive function of a frame.

  /** A frame of the search holds queue `q` of letters at `node`, whose characters so far fill the
      column down to depth `d`. When depth `d` is preset to a letter still in the queue, that
      letter is taken (and success is reported once `d` reaches the deepest preset `m`);
      otherwise the queue's head is taken. The child found under the taken letter gets a frame of
      its own when it has children, after which the head of this queue is dequeued; otherwise
      this frame is popped. The result says whether success is reported before this frame is
      popped. */
  function Explore(K: map<int, char>, m: int, node: Prefix, q: seq<char>, d: int): bool
    decreases node, |q|
  {
    var hit := d in K && K[d] in q;
    if hit && d >= m then true
    else if !hit && q == [] then false
    else
      var i := IndexOfKey(node.next, if hit then K[d] else q[0]);
      if i >= 0 && |node.next[i].child.next| > 0 then
        var child := node.next[i].child;
        Explore(K, m, child, ChildChars(child), d + 1) || Explore(K, m, node, q[1..], d)
      else false
  }

  /** The loop iterations a frame takes until it reports success or is popped. */
  function ExploreCost(K: map<int, char>, m: int, node: Prefix, q: seq<char>, d: int): nat
    decreases node, |q|
  {
    var hit := d in K && K[d] in q;
    if hit && d >= m then 1
    else if !hit && q == [] then 1
    else
      var i := IndexOfKey(node.next, if hit then K[d] else q[0]);
      if i >= 0 && |node.next[i].child.next| > 0 then
        var child := node.next[i].child;
        1 + ExploreCost(K, m, child, ChildChars(child), d + 1) + ExploreCost(K, m, node, q[1..], d)
      else 1
  }

  // ---------------------------------------------------------------------------------------------
  // The explicit stack of queues and the stack of nodes.

  /** What popping a frame does to the frame below it: the head of its queue, if any, is
      dequeued. */
  function DropHead(S: seq<seq<char>>): (r: seq<seq<char>>)
    ensures |r| == |S|
  {
    if |S| > 0 && |S[|S| - 1]| > 0 then S[|S| - 1 := S[|S| - 1][1..]] else S
  }

  /** Whether the frames on the stack will report success: frame `k` holds queue `S[k]` at node
      `N[k]` and depth `d0 + k`; the top frame runs first, then the frames below it, with the head
      of the queue under it dequeued. */
  function Frames(K: map<int, char>, m: int, S: seq<seq<char>>, N: seq<Prefix>, d0: int): bool
    requires |S| == |N|
    decreases |S|
  {
    if |S| == 0 then false
    else
      var t := |S| - 1;
      Explore(K, m, N[t], S[t], d0 + t) || Frames(K, m, DropHead(S[..t]), N[..t], d0)
  }

  /** The loop iterations the stack still needs. */
  function Measure(K: map<int, char>, m: int, S: seq<seq<char>>, N: seq<Prefix>, d0: int): nat
    requires |S| == |N|
    decreases |S|
  {
    if |S| == 0 then 0
    else
      var t := |S| - 1;
      ExploreCost(K, m, N[t], S[t], d0 + t) + Measure(K, m, DropHead(S[..t]), N[..t], d0)
  }

  /** The top frame finds its depth preset to a letter in its queue at or below the deepest
      preset: the whole search succeeds. */
  lemma FramesHit(K: map<int, char>, m: int, S: seq<seq<char>>, N: seq<Prefix>, d0: int)
    requires |S| == |N| && |S| > 0
    requires var t := |S| - 1; d0 + t in K && K[d0 + t] in S[t] && d0 + t >= m
    ensures Frames(K, m, S, N, d0)
  {
  }

  /** The top frame opens a frame for the child found under the letter it takes. */
  lemma FramesPush(K: map<int, char>, m: int, S: seq<seq<char>>, N: seq<Prefix>, d0: int,
                    hit: bool, letter: char, child: Prefix)
    requires |S| == |N| && |S| > 0
    requires hit == (d0 + |S| - 1 in K && K[d0 + |S| - 1] in S[|S| - 1]) && !(hit && d0 + |S| - 1 >= m)
    requires hit ==> letter == K[d0 + |S| - 1]
    requires !hit ==> S[|S| - 1] != [] && letter == S[|S| - 1][0]
    requires TryGetValue(N[|S| - 1], letter) == Some(child) && |child.next| > 0
    ensures Frames(K, m, S + [ChildChars(child)], N + [child], d0) == Frames(K, m, S, N, d0)
    ensures Measure(K, m, S + [ChildChars(child)], N + [child], d0) < Measure(K, m, S, N, d0)
  {
    var t := |S| - 1;
    ExploreDescends(K, m, N[t], S[t], d0 + t, d0 + |S|, hit, letter, child);
    PushKeeps(K, m, S, N, d0, child);
    PushShrinks(K, m, S, N, d0, child);
  }

  /** The result part of FramesPush, given the unfolding of the top frame. */
  lemma PushKeeps(K: map<int, char>, m: int, S: seq<seq<char>>, N: seq<Prefix>, d0: int, child: Prefix)
    requires |S| == |N| && |S| > 0 && S[|S| - 1] != []
    requires var t := |S| - 1;
      Explore(K, m, N[t], S[t], d0 + t)
      == (Explore(K, m, child, ChildChars(child), d0 + |S|) || Explore(K, m, N[t], S[t][1..], d0 + t))
    ensures Frames(K, m, S + [ChildChars(child)], N + [child], d0) == Frames(K, m, S, N, d0)
  {
    FramesTop(K, m, S, N, d0);
    FramesDequeued(K, m, S, N, d0);
    FramesOnTop(K, m, S, N, d0, child);
  }

  /** The measure part of FramesPush, given the unfolding of the top frame. */
  lemma PushShrinks(K: map<int, char>, m: int, S: seq<seq<char>>, N: seq<Prefix>, d0: int, child: Prefix)
    requires |S| == |N| && |S| > 0 && S[|S| - 1] != []
    requires var t := |S| - 1;
      ExploreCost(K, m, N[t], S[t], d0 + t)
      == 1 + ExploreCost(K, m, child, ChildChars(child), d0 + |S|) + ExploreCost(K, m, N[t], S[t][1..], d0 + t)
    ensures Measure(K, m, S + [ChildChars(child)], N + [child], d0) < Measure(K, m, S, N, d0)
  {
    FramesTop(K, m, S, N, d0);
    FramesDequeued(K, m, S, N, d0);
    FramesOnTop(K, m, S, N, d0, child);
  }

  /** A frame whose taken letter leads to a child with children: that child's search, then the
      rest of this queue. */
  lemma ExploreDescends(K: map<int, char>, m: int, node: Prefix, q: seq<char>, d: int, d1: int,
                         hit: bool, letter: char, child: Prefix)
    requires d1 == d + 1
    requires hit == (d in K && K[d] in q) && !(hit && d >= m)
    requires hit ==> letter == K[d]
    requires !hit ==> q != [] && letter == q[0]
    requires TryGetValue(node, letter) == Some(child) && |child.next| > 0
    ensures q != []
    ensures Explore(K, m, node, q, d) == (Explore(K, m, child, ChildChars(child), d1) || Explore(K, m, node, q[1..], d))
    ensures ExploreCost(K, m, node, q, d)
         == 1 + ExploreCost(K, m, child, ChildChars(child), d1) + ExploreCost(K, m, node, q[1..], d)
  {
    var i := IndexOfKey(node.next, letter);
    assert node.next[i].child == child;
  }

  /** One unfolding of the stack's result and measure. */
  lemma FramesTop(K: map<int, char>, m: int, S: seq<seq<char>>, N: seq<Prefix>, d0: int)
    requires |S| == |N| && |S| > 0
    ensures var t := |S| - 1;
      && Frames(K, m, S, N, d0) == (Explore(K, m, N[t], S[t], d0 + t) || Frames(K, m, DropHead(S[..t]), N[..t], d0))
      && Measure(K, m, S, N, d0) == ExploreCost(K, m, N[t], S[t], d0 + t) + Measure(K, m, DropHead(S[..t]), N[..t], d0)
  {
  }

  /** Dequeuing the head of the top frame's queue leaves the frames below it as they were. */
  lemma FramesDequeued(K: map<int, char>, m: int, S: seq<seq<char>>, N: seq<Prefix>, d0: int)
    requires |S| == |N| && |S| > 0 && S[|S| - 1] != []
    ensures var t := |S| - 1;
      && Frames(K, m, DropHead(S), N, d0) == (Explore(K, m, N[t], S[t][1..], d0 + t) || Frames(K, m, DropHead(S[..t]), N[..t], d0))
      && Measure(K, m, DropHead(S), N, d0) == ExploreCost(K, m, N[t], S[t][1..], d0 + t) + Measure(K, m, DropHead(S[..t]), N[..t], d0)
  {
    var t := |S| - 1;
    assert DropHead(S)[..t] == S[..t];
  }

  /** A frame pushed for `child` runs before the frames below it, whose top then dequeues. */
  lemma FramesOnTop(K: map<int, char>, m: int, S: seq<seq<char>>, N: seq<Prefix>, d0: int, child: Prefix)
    requires |S| == |N| && |S| > 0
    ensures Frames(K, m, S + [ChildChars(child)], N + [child], d0)
         == (Explore(K, m, child, ChildChars(child), d0 + |S|) || Frames(K, m, DropHead(S), N, d0))
    ensures Measure(K, m, S + [ChildChars(child)], N + [child], d0)
         == ExploreCost(K, m, child, ChildChars(child), d0 + |S|) + Measure(K, m, DropHead(S), N, d0)
  {
    var S', N' := S + [ChildChars(child)], N + [child];
    assert S'[|S|] == ChildChars(child) && N'[|S|] == child;
    assert S'[..|S|] == S;
    assert N'[..|S|] == N;
  }

  /** The top frame takes a letter that leads nowhere, or has nothing left to take: it is
      popped. */
  lemma FramesPop(K: map<int, char>, m: int, S: seq<seq<char>>, N: seq<Prefix>, d0: int)
    requires |S| == |N| && |S| > 0
    requires var t := |S| - 1; var q, d := S[t], d0 + t;
      var hit := d in K && K[d] in q;
      var next := if hit then TryGetValue(N[t], K[d]) else if q != [] then TryGetValue(N[t], q[0]) else None;
      && !(hit && d >= m) && !(next.Some? && |next.value.next| > 0)
    ensures var t := |S| - 1;
      Frames(K, m, DropHead(S[..t]), N[..t], d0) == Frames(K, m, S, N, d0)
    ensures var t := |S| - 1;
      Measure(K, m, DropHead(S[..t]), N[..t], d0) < Measure(K, m, S, N, d0)
  {
  }

  /** The invariant of the search for one letter `c` at `node` and depth `d`: the stacks agree in
      length, and the frames on them report success exactly when the letter's own search does. */
  ghost predicate Searching(K: map<int, char>, m: int, node: Prefix, c: char, d: int, S: seq<seq<char>>, N: seq<Prefix>) {
    |S| == |N| && Frames(K, m, S, N, d) == Explore(K, m, node, [c], d)
  }

  lemma SearchStart(K: map<int, char>, m: int, node: Prefix, c: char, d: int)
    ensures Searching(K, m, node, c, d, [[c]], [node])
  {
    var S, N := [[c]], [node];
    assert S[..0] == [] && N[..0] == [];
  }

  lemma SearchHit(K: map<int, char>, m: int, node: Prefix, c: char, d: int, S: seq<seq<char>>, N: seq<Prefix>)
    requires Searching(K, m, node, c, d, S, N) && |S| > 0
    requires var t := |S| - 1; d + t in K && K[d + t] in S[t] && d + t >= m
    ensures Explore(K, m, node, [c], d)
  {
    FramesHit(K, m, S, N, d);
  }

  lemma SearchDone(K: map<int, char>, m: int, node: Prefix, c: char, d: int)
    requires Searching(K, m, node, c, d, [], [])
    ensures !Explore(K, m, node, [c], d)
  {
  }

  /** The top frame takes `letter` (the preset letter on a hit, else the queue's head), and the
      child under it has children: a frame is pushed for that child. */
  lemma SearchPush(K: map<int, char>, m: int, node: Prefix, c: char, d: int, S: seq<seq<char>>, N: seq<Prefix>,
                   hit: bool, letter: char, child: Prefix)
    requires Searching(K, m, node, c, d, S, N) && |S| > 0
    requires hit == (d + |S| - 1 in K && K[d + |S| - 1] in S[|S| - 1]) && !(hit && d + |S| - 1 >= m)
    requires hit ==> letter == K[d + |S| - 1]
    requires !hit ==> S[|S| - 1] != [] && letter == S[|S| - 1][0]
    requires TryGetValue(N[|S| - 1], letter) == Some(child) && |child.next| > 0
    ensures Searching(K, m, node, c, d, S + [ChildChars(child)], N + [child])
    ensures Measure(K, m, S + [ChildChars(child)], N + [child], d) < Measure(K, m, S, N, d)
  {
    FramesPush(K, m, S, N, d, hit, letter, child);
  }

  /** The top frame takes nothing, or a letter whose child is missing or has no children: it is
      popped. */
  lemma SearchPop(K: map<int, char>, m: int, node: Prefix, c: char, d: int, S: seq<seq<char>>, N: seq<Prefix>,
                  hit: bool, next: Option<Prefix>)
    requires Searching(K, m, node, c, d, S, N) && |S| > 0
    requires hit == (d + |S| - 1 in K && K[d + |S| - 1] in S[|S| - 1]) && !(hit && d + |S| - 1 >= m)
    requires hit ==> next == TryGetValue(N[|S| - 1], K[d + |S| - 1])
    requires !hit ==> next == if S[|S| - 1] != [] then TryGetValue(N[|S| - 1], S[|S| - 1][0]) else None
    requires !(next.Some? && |next.value.next| > 0)
    ensures var t := |S| - 1;
      && Searching(K, m, node, c, d, DropHead(S[..t]), N[..t])
      && Measure(K, m, DropHead(S[..t]), N[..t], d) < Measure(K, m, S, N, d)
  {
    FramesPop(K, m, S, N, d);
  }

  // ---------------------------------------------------------------------------------------------
  // The result.

  /** The letters of `cs` whose own search from `node` at depth `d` succeeds, in order. */
  function Keep(K: map<int, char>, m: int, node: Prefix, cs: seq<char>, d: int): seq<char>
    decreases |cs|
  {
    if cs == [] then []
    else
      var last := cs[|cs| - 1];
      Keep(K, m, node, cs[..|cs| - 1], d) + (if Explore(K, m, node, [last], d) then [last] else [])
  }

  /** The reference definition of FindNextLetters: nothing when `prefix` cannot be spelled; all
      child letters of the prefix node when there are no constraints or no preset position lies at
      or beyond the prefix's length; otherwise the child letters whose search succeeds. */
  ghost function NextLetters(root: Prefix, prefix: string, constraints: Option<map<int, char>>): seq<char> {
    match Find(root, prefix)
    case None => []
    case Some(pn) =>
      var m := MaxKey(constraints);
      if constraints.None? || m < |prefix| then ChildChars(pn)
      else Keep(constraints.value, m, pn, ChildChars(pn), |prefix|)
  }

  /** Keeping letters keeps their order. */
  lemma {:induction false} KeepSubset(K: map<int, char>, m: int, node: Prefix, cs: seq<char>, d: int)
    requires CharsAscending(cs)
    ensures var r := Keep(K, m, node, cs, d);
      CharsAscending(r) && forall x :: x in r ==> x in cs && Explore(K, m, node, [x], d)
    decreases |cs|
  {
    if cs != [] {
      var front, last := cs[..|cs| - 1], cs[|cs| - 1];
      KeepSubset(K, m, node, front, d);
      var r0 := Keep(K, m, node, front, d);
      assert forall x :: x in r0 ==> x < last by {
        forall x | x in r0 ensures x < last {
          var i :| 0 <= i < |front| && front[i] == x;
          assert cs[i] == x;
        }
      }
      var r := Keep(K, m, node, cs, d);
      forall i, j | 0 <= i < j < |r| ensures r[i] < r[j] {
        assert r[i] == r0[i];
        if j < |r0| { assert r[j] == r0[j]; } else { assert r[i] in r0; }
      }
    }
  }

  /** Spelling `p` then `y` reaches what spelling `y` from the node of `p` reaches. */
  lemma {:induction false} FindConcat(n: Prefix, p: string, y: string)
    requires Find(n, p).Some?
    ensures Find(n, p + y) == Find(Find(n, p).value, y)
    decreases |p|
  {
    if p == [] {
      assert p + y == y;
    } else {
      assert (p + y)[0] == p[0] && (p + y)[1..] == p[1..] + y;
      FindConcat(TryGetValue(n, p[0]).value, p[1..], y);
    }
  }

  /** A continuation `y` of the current frame: it begins with a letter of queue `q`, can be
      spelled from `node`, and ends at depth `m` on the letter preset there. */
  ghost predicate Continues(K: map<int, char>, m: int, node: Prefix, q: seq<char>, d: int, y: string) {
    && |y| == m + 1 - d && |y| > 0 && y[0] in q && Find(node, y).Some?
    && m in K && y[|y| - 1] == K[m]
  }

  /** The preset letter at the deepest position is in the queue: it alone is a continuation. */
  lemma WitnessHere(K: map<int, char>, m: int, node: Prefix, q: seq<char>)
    requires Valid(node) && Keyed(node) && Deepest(K, m) && K[m] in q
    requires forall x :: x in q ==> x in ChildChars(node)
    ensures Continues(K, m, node, q, m, [K[m]])
  {
    ChildCharsOrder(node);
    assert Find(node, [K[m]]) == Find(TryGetValue(node, K[m]).value, []);
  }

  /** A continuation from the child found under `ch`, with `ch` in front. */
  lemma WitnessThrough(K: map<int, char>, m: int, node: Prefix, q: seq<char>, d: int, ch: char, child: Prefix, y': string)
    requires ch in q && TryGetValue(node, ch) == Some(child)
    requires Continues(K, m, child, ChildChars(child), d + 1, y')
    ensures Continues(K, m, node, q, d, [ch] + y')
  {
    var y := [ch] + y';
    assert y[1..] == y';
  }

  /** A continuation of the rest of the queue continues the whole queue. */
  lemma WitnessLater(K: map<int, char>, m: int, node: Prefix, q: seq<char>, d: int, y: string)
    requires q != [] && Continues(K, m, node, q[1..], d, y)
    ensures Continues(K, m, node, q, d, y)
  {
    var j :| 0 <= j < |q| - 1 && q[1..][j] == y[0];
    assert q[j + 1] == y[0];
  }

  /** A frame that succeeds without being at the deepest preset takes a letter of its queue with
      a child, and succeeds through that child or through the rest of its queue. */
  lemma ExploreStep(K: map<int, char>, m: int, node: Prefix, q: seq<char>, d: int) returns (ch: char, child: Prefix, down: bool)
    requires Valid(node) && Keyed(node)
    requires forall x :: x in q ==> x in ChildChars(node)
    requires !(d in K && K[d] in q && d >= m) && Explore(K, m, node, q, d)
    ensures q != [] && ch in q && TryGetValue(node, ch) == Some(child) && Valid(child) && Keyed(child)
    ensures child < node
    ensures down ==> Explore(K, m, child, ChildChars(child), d + 1)
    ensures !down ==> Explore(K, m, node, q[1..], d)
    ensures forall x :: x in q[1..] ==> x in ChildChars(node)
  {
    var hit := d in K && K[d] in q;
    ch := if hit then K[d] else q[0];
    var i := IndexOfKey(node.next, ch);
    child := node.next[i].child;
    assert node.next[i] in node.next;
    down := Explore(K, m, child, ChildChars(child), d + 1);
    assert TryGetValue(node, ch) == Some(child);
  }

  /** A frame succeeds only when some continuation reaches the deepest preset position with the
      preset letter available at the node there; `y` is such a continuation. */
  lemma {:induction false} ExploreWitness(K: map<int, char>, m: int, node: Prefix, q: seq<char>, d: int) returns (y: string)
    requires Valid(node) && Keyed(node) && Deepest(K, m)
    requires forall x :: x in q ==> x in ChildChars(node)
    requires Explore(K, m, node, q, d)
    ensures Continues(K, m, node, q, d, y)
    decreases node, |q|, 2
  {
    if d in K && K[d] in q && d >= m {
      assert d == m;
      WitnessHere(K, m, node, q);
      y := [K[m]];
    } else {
      y := DeeperWitness(K, m, node, q, d);
    }
  }

  /** The continuation of a frame that succeeds below its own depth. */
  lemma {:induction false} DeeperWitness(K: map<int, char>, m: int, node: Prefix, q: seq<char>, d: int) returns (y: string)
    requires Valid(node) && Keyed(node) && Deepest(K, m)
    requires forall x :: x in q ==> x in ChildChars(node)
    requires !(d in K && K[d] in q && d >= m) && Explore(K, m, node, q, d)
    ensures Continues(K, m, node, q, d, y)
    decreases node, |q|, 1
  {
    var ch, child, down := ExploreStep(K, m, node, q, d);
    if down {
      y := ChildWitness(K, m, node, q, d, ch, child);
    } else {
      y := ExploreWitness(K, m, node, q[1..], d);
      WitnessLater(K, m, node, q, d, y);
    }
  }

  /** The continuation through the child found under `ch`. */
  lemma {:induction false} ChildWitness(K: map<int, char>, m: int, node: Prefix, q: seq<char>, d: int, ch: char, child: Prefix) returns (y: string)
    requires Valid(child) && Keyed(child) && Deepest(K, m) && child < node
    requires ch in q && TryGetValue(node, ch) == Some(child)
    requires Explore(K, m, child, ChildChars(child), d + 1)
    ensures Continues(K, m, node, q, d, y)
    decreases node, |q|, 0
  {
    var y' := ExploreWitness(K, m, child, ChildChars(child), d + 1);
    WitnessThrough(K, m, node, q, d, ch, child, y');
    y := [ch] + y';
  }

  /** What FindNextLetters returns: nothing for a prefix the tree cannot spell; the prefix node's
      child letters when no preset lies at or beyond the prefix; in every case an ascending,
      duplicate-free selection of those child letters, each of which continues the prefix in the
      tree. */
  lemma NextLettersChildren(root: Prefix, prefix: string, constraints: Option<map<int, char>>)
    requires Valid(root) && Keyed(root)
    ensures var r := NextLetters(root, prefix, constraints);
      && (Find(root, prefix).None? ==> r == [])
      && (Find(root, prefix).Some? && (constraints.None? || MaxKey(constraints) < |prefix|) ==>
            r == ChildChars(Find(root, prefix).value))
      && CharsAscending(r)
      && (forall x :: x in r ==> Find(root, prefix).Some? && x in ChildChars(Find(root, prefix).value))
      && (forall x :: x in r ==> Find(root, prefix + [x]).Some?)
  {
    var r := NextLetters(root, prefix, constraints);
    match Find(root, prefix)
    case None =>
    case Some(pn) =>
      FindFacts(root, prefix);
      ChildCharsOrder(pn);
      if constraints.Some? && MaxKey(constraints) >= |prefix| {
        KeepSubset(constraints.value, MaxKey(constraints), pn, ChildChars(pn), |prefix|);
      }
      forall x | x in r ensures Find(root, prefix + [x]).Some? {
        FindConcat(root, prefix, [x]);
        assert Find(pn, [x]) == Find(TryGetValue(pn, x).value, []);
      }
  }

  /** Under a preset at or beyond the prefix, every letter returned begins a continuation of the
      prefix that the tree spells and that puts the deepest preset letter at its position. */
  lemma NextLettersReach(root: Prefix, prefix: string, constraints: Option<map<int, char>>, x: char)
    requires Valid(root) && Keyed(root)
    requires x in NextLetters(root, prefix, constraints)
    requires constraints.Some? && MaxKey(constraints) >= |prefix|
    ensures var m := MaxKey(constraints);
      exists y :: && |prefix + y| == m + 1 && y != [] && y[0] == x
                  && Find(root, prefix + y).Some? && (prefix + y)[m] == constraints.value[m]
  {
    var K, m := constraints.value, MaxKey(constraints);
    var pn := KeptExplores(root, prefix, constraints, x);
    assert forall c :: c in [x] ==> c in ChildChars(pn);
    var y := ExploreWitness(K, m, pn, [x], |prefix|);
    ContinuationReaches(root, prefix, pn, K, m, x, y);
    assert |prefix + y| == m + 1 && y != [] && y[0] == x
           && Find(root, prefix + y).Some? && (prefix + y)[m] == constraints.value[m];
  }

  /** A kept letter starts a successful search from the node of the prefix. */
  lemma KeptExplores(root: Prefix, prefix: string, constraints: Option<map<int, char>>, x: char)
    returns (pn: Prefix)
    requires Valid(root) && Keyed(root)
    requires x in NextLetters(root, prefix, constraints)
    requires constraints.Some? && MaxKey(constraints) >= |prefix|
    ensures Find(root, prefix) == Some(pn) && Valid(pn) && Keyed(pn) && x in ChildChars(pn)
    ensures Deepest(constraints.value, MaxKey(constraints))
    ensures Explore(constraints.value, MaxKey(constraints), pn, [x], |prefix|)
  {
    pn := Find(root, prefix).value;
    FindFacts(root, prefix);
    ChildCharsOrder(pn);
    KeepSubset(constraints.value, MaxKey(constraints), pn, ChildChars(pn), |prefix|);
  }

  /** A continuation from the node of `prefix` extends `prefix` to a spelled string. */
  lemma ContinuationReaches(root: Prefix, prefix: string, pn: Prefix, K: map<int, char>, m: int,
                            x: char, y: string)
    requires Find(root, prefix) == Some(pn) && Continues(K, m, pn, [x], |prefix|, y)
    ensures |prefix + y| == m + 1 && y != [] && y[0] == x
    ensures Find(root, prefix + y).Some? && (prefix + y)[m] == K[m]
  {
    FindConcat(root, prefix, y);
    assert (prefix + y)[m] == y[|y| - 1];
  }

  /** Supplying no constraints is the same as supplying an empty map. */
  lemma NoConstraintsAlike(root: Prefix, prefix: string)
    ensures NextLetters(root, prefix, None) == NextLetters(root, prefix, Some(map[]))
  {
  }
}
