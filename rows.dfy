/** The row search of Solver.FindRowSolutions (WordGrid/Solver.cs): the letters each column
    allows in the row being solved, and the depth-first walk of the tree over those letters. */
module RowSearch {
  import opened Common
  import opened Lex
  import opened Tries
  import opened Boards
  import opened Exploring
  import opened Dictionary

  /** `first.Intersect(second)`: the distinct letters of `first` that occur in `second`, in the
      order of their first occurrence in `first`. */
  function Intersect(first: seq<char>, second: seq<char>): (r: seq<char>)
    ensures forall x :: x in r <==> x in first && x in second
    decreases |first|
  {
    if first == [] then []
    else
      var front, last := first[..|first| - 1], first[|first| - 1];
      assert forall x :: x in first <==> x in front || x == last;
      var r0 := Intersect(front, second);
      if last in second && last !in front then r0 + [last] else r0
  }

  /** Intersecting keeps the order of the first sequence. */
  lemma {:induction false} IntersectAscending(first: seq<char>, second: seq<char>)
    requires CharsAscending(first)
    ensures CharsAscending(Intersect(first, second))
    decreases |first|
  {
    if first != [] {
      var front, last := first[..|first| - 1], first[|first| - 1];
      IntersectAscending(front, second);
      var r0 := Intersect(front, second);
      var r := Intersect(first, second);
      assert forall x :: x in r0 ==> x < last by {
        forall x | x in r0 ensures x < last {
          var i :| 0 <= i < |front| && front[i] == x;
          assert first[i] == x;
        }
      }
      forall i, j | 0 <= i < j < |r| ensures r[i] < r[j] {
        assert r[i] == r0[i];
        if j < |r0| { assert r[j] == r0[j]; } else { assert r[i] in r0; }
      }
    }
  }

  /** Every row of `rows` has `size` letters. */
  predicate RowsOf(rows: seq<string>, size: nat) {
    forall k :: 0 <= k < |rows| ==> |rows[k]| == size
  }

  /** The prefix of column `i` formed by the rows so far (the Select/Take expression of line 177,
      with the row index equal to the number of rows). */
  function ColumnPrefix(rows: seq<string>, i: nat): (p: string)
    requires forall k :: 0 <= k < |rows| ==> i < |rows[k]|
    ensures |p| == |rows| && forall k :: 0 <= k < |rows| ==> p[k] == rows[k][i]
  {
    seq(|rows|, k requires 0 <= k < |rows| => rows[k][i])
  }

  lemma ColumnPrefixSnoc(rows: seq<string>, w: string, i: nat)
    requires forall k :: 0 <= k < |rows| ==> i < |rows[k]|
    requires i < |w|
    ensures ColumnPrefix(rows + [w], i) == ColumnPrefix(rows, i) + [w[i]]
  {
  }

  // ---------------------------------------------------------------------------------------------
  // Step 1: the letters each column allows.

  /** Lines 176-190 for column `i`: a column preset in this row allows exactly its preset letter;
      any other column allows the next letters of its prefix under that column's presets, and an
      empty set of those ends the search (None). As written (`checked` false) the preset letter is
      taken unchecked; the corrected rule (`checked` true) also ends the search when the preset
      letter does not continue the column's prefix in the tree. */
  ghost function ColumnLetters(root: Prefix, rowK: map<int, char>, colK: map<int, char>, prefix: string, i: nat, checked: bool): Option<seq<char>> {
    if i in rowK then
      if checked && Find(root, prefix + [rowK[i]]).None? then None else Some([rowK[i]])
    else
      var letters := NextLetters(root, prefix, Some(colK));
      if letters == [] then None else Some(letters)
  }

  /** The letter lists in column order, or None as soon as one column ends the search. */
  function Gate(cols: seq<Option<seq<char>>>): (r: Option<seq<seq<char>>>)
    ensures r.Some? ==> |r.value| == |cols|
    decreases |cols|
  {
    if cols == [] then Some([])
    else
      match Gate(cols[..|cols| - 1])
      case None => None
      case Some(front) =>
        match cols[|cols| - 1]
        case None => None
        case Some(ls) => Some(front + [ls])
  }

  /** The search goes on exactly when no column ends it, and then column `i` allows the letters
      its own rule gives. */
  lemma {:induction false} GateColumns(cols: seq<Option<seq<char>>>)
    ensures Gate(cols).None? <==> exists i :: 0 <= i < |cols| && cols[i].None?
    ensures Gate(cols).Some? ==> forall i :: 0 <= i < |cols| ==> cols[i] == Some(Gate(cols).value[i])
    decreases |cols|
  {
    if cols != [] {
      var front := cols[..|cols| - 1];
      GateColumns(front);
      assert forall i :: 0 <= i < |front| ==> front[i] == cols[i];
      if Gate(front).Some? && cols[|cols| - 1].Some? {
        assert forall i :: 0 <= i < |front| ==> Gate(cols).value[i] == Gate(front).value[i];
      }
    }
  }

  /** One more column that allows letters extends the gated lists by its letters. */
  lemma GateStep(cols: seq<Option<seq<char>>>, i: nat)
    requires i < |cols| && Gate(cols[..i]).Some? && cols[i].Some?
    ensures Gate(cols[..i + 1]) == Some(Gate(cols[..i]).value + [cols[i].value])
  {
    assert cols[..i + 1][..i] == cols[..i];
  }

  /** The rule of each column of the row after `rows`. */
  ghost function ColumnRules(root: Prefix, size: nat, rowK: map<int, char>, colK: seq<map<int, char>>, rows: seq<string>, checked: bool): (r: seq<Option<seq<char>>>)
    requires size == |colK| && RowsOf(rows, size)
    ensures |r| == size
    ensures forall i :: 0 <= i < size ==> r[i] == ColumnLetters(root, rowK, colK[i], ColumnPrefix(rows, i), i, checked)
  {
    seq(size, i requires 0 <= i < size => ColumnLetters(root, rowK, colK[i], ColumnPrefix(rows, i), i, checked))
  }

  // ---------------------------------------------------------------------------------------------
  // Step 2: the walk over the tree.

  /** What a frame of the walk yields: queue `q` of letters at `node`, with the builder holding
      `b`. Each dequeued letter the node has a child for is appended; at full length the word is
      yielded unless it is one of `rows`, and otherwise a frame is opened for the child with the
      letters the next column allows that the child can continue with. */
  function RowEnum(size: nat, NL: seq<seq<char>>, rows: seq<string>, node: Prefix, q: seq<char>, b: string): seq<string>
    requires |NL| == size && |b| < size
    decreases node, 1, |q|
  {
    if q == [] then []
    else RowPart(size, NL, rows, node, q[0], b) + RowEnum(size, NL, rows, node, q[1..], b)
  }

  /** What dequeuing letter `c` at `node` yields. */
  function RowPart(size: nat, NL: seq<seq<char>>, rows: seq<string>, node: Prefix, c: char, b: string): seq<string>
    requires |NL| == size && |b| < size
    decreases node, 0, 0
  {
    var i := IndexOfKey(node.next, c);
    if i < 0 then []
    else if |b| + 1 == size then (if b + [c] in rows then [] else [b + [c]])
    else
      var child := node.next[i].child;
      RowEnum(size, NL, rows, child, Intersect(NL[|b| + 1], ChildChars(child)), b + [c])
  }

  /** The loop iterations a frame needs: one per dequeue plus one for its pop. */
  function RowCost(size: nat, NL: seq<seq<char>>, node: Prefix, q: seq<char>, b: string): nat
    requires |NL| == size && |b| < size
    decreases node, 1, |q|
  {
    if q == [] then 1
    else PartCost(size, NL, node, q[0], b) + RowCost(size, NL, node, q[1..], b)
  }

  function PartCost(size: nat, NL: seq<seq<char>>, node: Prefix, c: char, b: string): nat
    requires |NL| == size && |b| < size
    decreases node, 0, 0
  {
    var i := IndexOfKey(node.next, c);
    if i < 0 || |b| + 1 == size then 1
    else
      var child := node.next[i].child;
      1 + RowCost(size, NL, child, Intersect(NL[|b| + 1], ChildChars(child)), b + [c])
  }

  /** What the frames of the explicit stack will still yield, top frame first; frame `k` sees the
      first `k` letters of the builder. */
  function RowPending(size: nat, NL: seq<seq<char>>, rows: seq<string>, S: seq<seq<char>>, N: seq<Prefix>, b: string): seq<string>
    requires |NL| == size && |S| == |N| && (|S| > 0 ==> |b| == |S| - 1 < size)
    decreases |S|
  {
    if |S| == 0 then []
    else
      var t := |S| - 1;
      RowEnum(size, NL, rows, N[t], S[t], b)
      + RowPending(size, NL, rows, S[..t], N[..t], if b == [] then [] else b[..|b| - 1])
  }

  function RowSum(size: nat, NL: seq<seq<char>>, S: seq<seq<char>>, N: seq<Prefix>, b: string): nat
    requires |NL| == size && |S| == |N| && (|S| > 0 ==> |b| == |S| - 1 < size)
    decreases |S|
  {
    if |S| == 0 then 0
    else
      var t := |S| - 1;
      RowCost(size, NL, N[t], S[t], b) + RowSum(size, NL, S[..t], N[..t], if b == [] then [] else b[..|b| - 1])
  }

  /** Replacing the top queue only changes what the top frame yields and costs. */
  lemma RowSetTop(size: nat, NL: seq<seq<char>>, rows: seq<string>, S: seq<seq<char>>, N: seq<Prefix>, b: string, q: seq<char>)
    requires |NL| == size && |S| == |N| && |S| > 0 && |b| == |S| - 1 < size
    ensures var t := |S| - 1; var b' := if b == [] then [] else b[..|b| - 1];
      && RowPending(size, NL, rows, S[t := q], N, b)
           == RowEnum(size, NL, rows, N[t], q, b) + RowPending(size, NL, rows, S[..t], N[..t], b')
      && RowSum(size, NL, S[t := q], N, b) == RowCost(size, NL, N[t], q, b) + RowSum(size, NL, S[..t], N[..t], b')
  {
    assert S[|S| - 1 := q][..|S| - 1] == S[..|S| - 1];
  }

  /** Dequeuing a letter that yields at once, or that the node has no child for. */
  lemma RowDequeue(size: nat, NL: seq<seq<char>>, rows: seq<string>, S: seq<seq<char>>, N: seq<Prefix>, b: string)
    requires |NL| == size && |S| == |N| && |S| > 0 && |b| == |S| - 1 < size
    requires var t := |S| - 1; S[t] != [] && (TryGetValue(N[t], S[t][0]).None? || |b| + 1 == size)
    ensures var t := |S| - 1; var q := S[t];
      && RowPending(size, NL, rows, S, N, b)
           == RowPart(size, NL, rows, N[t], q[0], b) + RowPending(size, NL, rows, S[t := q[1..]], N, b)
      && RowSum(size, NL, S[t := q[1..]], N, b) < RowSum(size, NL, S, N, b)
      && RowPart(size, NL, rows, N[t], q[0], b)
           == if TryGetValue(N[t], q[0]).None? || b + [q[0]] in rows then [] else [b + [q[0]]]
  {
    var t := |S| - 1;
    var q := S[t];
    RowSetTop(size, NL, rows, S, N, b, q[1..]);
    assert RowEnum(size, NL, rows, N[t], q, b)
        == RowPart(size, NL, rows, N[t], q[0], b) + RowEnum(size, NL, rows, N[t], q[1..], b);
    assert RowCost(size, NL, N[t], q, b) == PartCost(size, NL, N[t], q[0], b) + RowCost(size, NL, N[t], q[1..], b);
  }

  /** Dequeuing a letter with a child below full length opens a frame for that child. */
  lemma RowPush(size: nat, NL: seq<seq<char>>, rows: seq<string>, S: seq<seq<char>>, N: seq<Prefix>, b: string, m: Prefix)
    requires |NL| == size && |S| == |N| && |S| > 0 && |b| == |S| - 1 && |b| + 1 < size
    requires var t := |S| - 1; S[t] != [] && TryGetValue(N[t], S[t][0]) == Some(m)
    ensures var t := |S| - 1; var q := S[t];
      var S' := S[t := q[1..]] + [Intersect(NL[|b| + 1], ChildChars(m))];
      && RowPending(size, NL, rows, S, N, b) == RowPending(size, NL, rows, S', N + [m], b + [q[0]])
      && RowSum(size, NL, S', N + [m], b + [q[0]]) < RowSum(size, NL, S, N, b)
  {
    var t := |S| - 1;
    var q := S[t];
    var mid := S[t := q[1..]];
    var top := Intersect(NL[|b| + 1], ChildChars(m));
    var b' := b + [q[0]];
    var bb := if b == [] then [] else b[..|b| - 1];
    var below := RowPending(size, NL, rows, S[..t], N[..t], bb);
    var part := RowEnum(size, NL, rows, m, top, b');
    var rest := RowEnum(size, NL, rows, N[t], q[1..], b);
    RowTop(size, NL, rows, S, N, b);
    RowChild(size, NL, rows, N[t], q[0], b, m);
    assert RowPending(size, NL, rows, S, N, b) == (part + rest) + below;
    RowSetTop(size, NL, rows, S, N, b, q[1..]);
    RowOnTop(size, NL, rows, mid, N, b, top, m, q[0]);
    assert RowPending(size, NL, rows, mid + [top], N + [m], b') == part + (rest + below);
    ConcatAssoc(part, rest, below);
  }

  /** One unfolding of what a non-empty stack yields and costs. */
  lemma RowTop(size: nat, NL: seq<seq<char>>, rows: seq<string>, S: seq<seq<char>>, N: seq<Prefix>, b: string)
    requires |NL| == size && |S| == |N| && |S| > 0 && |b| == |S| - 1 < size
    ensures var t := |S| - 1; var b' := if b == [] then [] else b[..|b| - 1];
      && RowPending(size, NL, rows, S, N, b)
           == RowEnum(size, NL, rows, N[t], S[t], b) + RowPending(size, NL, rows, S[..t], N[..t], b')
      && RowSum(size, NL, S, N, b) == RowCost(size, NL, N[t], S[t], b) + RowSum(size, NL, S[..t], N[..t], b')
  {
  }

  /** Dequeuing a letter with a child, below the last column, yields what the child's frame yields. */
  lemma RowChild(size: nat, NL: seq<seq<char>>, rows: seq<string>, node: Prefix, c: char, b: string, m: Prefix)
    requires |NL| == size && |b| + 1 < size && TryGetValue(node, c) == Some(m)
    ensures var top := Intersect(NL[|b| + 1], ChildChars(m));
      && RowPart(size, NL, rows, node, c, b) == RowEnum(size, NL, rows, m, top, b + [c])
      && PartCost(size, NL, node, c, b) == 1 + RowCost(size, NL, m, top, b + [c])
  {
    var i := IndexOfKey(node.next, c);
    assert node.next[i].child == m;
  }

  /** A frame pushed on top of a stack yields before everything below it. */
  lemma RowOnTop(size: nat, NL: seq<seq<char>>, rows: seq<string>, S: seq<seq<char>>, N: seq<Prefix>, b: string,
                 top: seq<char>, m: Prefix, c: char)
    requires |NL| == size && |S| == |N| && |S| > 0 && |b| == |S| - 1 && |b| + 1 < size
    ensures
      && RowPending(size, NL, rows, S + [top], N + [m], b + [c])
           == RowEnum(size, NL, rows, m, top, b + [c]) + RowPending(size, NL, rows, S, N, b)
      && RowSum(size, NL, S + [top], N + [m], b + [c])
           == RowCost(size, NL, m, top, b + [c]) + RowSum(size, NL, S, N, b)
  {
    assert (S + [top])[..|S|] == S && (N + [m])[..|S|] == N && (b + [c])[..|b|] == b;
  }

  /** Popping a frame whose queue is empty. */
  lemma RowPop(size: nat, NL: seq<seq<char>>, rows: seq<string>, S: seq<seq<char>>, N: seq<Prefix>, b: string)
    requires |NL| == size && |S| == |N| && |S| > 0 && |b| == |S| - 1 < size && S[|S| - 1] == []
    ensures var t := |S| - 1; var b' := if |b| > 0 then b[..|b| - 1] else b;
      && RowPending(size, NL, rows, S, N, b) == RowPending(size, NL, rows, S[..t], N[..t], b')
      && RowSum(size, NL, S[..t], N[..t], b') < RowSum(size, NL, S, N, b)
  {
  }

  /** The invariant of the walk of lines 199-234: stack `S` of queues, nodes `N` spelled by
      builder `b`, and what was found so far followed by what the stack still yields is the
      whole enumeration from the root. */
  ghost predicate Walk(root: Prefix, size: nat, NL: seq<seq<char>>, rows: seq<string>, found: seq<string>,
                       S: seq<seq<char>>, N: seq<Prefix>, b: string) {
    && size >= 1 && |NL| == size && |S| == |N|
    && (|S| > 0 ==> |b| == |S| - 1 < size) && (|S| == 0 ==> b == [])
    && Spelled(root, N, b)
    && found + RowPending(size, NL, rows, S, N, b) == RowEnum(size, NL, rows, root, NL[0], [])
  }

  lemma WalkStart(root: Prefix, size: nat, NL: seq<seq<char>>, rows: seq<string>)
    requires |NL| == size >= 1
    ensures Walk(root, size, NL, rows, [], [NL[0]], [root], [])
  {
    var S, N: seq<Prefix> := [NL[0]], [root];
    assert S[..0] == [] && N[..0] == [];
    assert RowPending(size, NL, rows, S, N, []) == RowEnum(size, NL, rows, root, NL[0], []);
    var e: string := [];
    assert Spelled(root, N, e) by { assert e[..0] == e; }
  }

  lemma WalkDone(root: Prefix, size: nat, NL: seq<seq<char>>, rows: seq<string>, found: seq<string>, b: string)
    requires Walk(root, size, NL, rows, found, [], [], b)
    ensures found == RowEnum(size, NL, rows, root, NL[0], [])
  {
    assert found + [] == found;
  }

  /** Dequeuing a letter that has no node, or that ends the row. */
  lemma WalkDequeue(root: Prefix, size: nat, NL: seq<seq<char>>, rows: seq<string>, found: seq<string>,
                    S: seq<seq<char>>, N: seq<Prefix>, b: string)
    requires Walk(root, size, NL, rows, found, S, N, b) && S != []
    requires var t := |S| - 1; S[t] != [] && (TryGetValue(N[t], S[t][0]).None? || |b| + 1 == size)
    ensures var t := |S| - 1; var c := S[t][0];
      var found' := found + (if TryGetValue(N[t], c).None? || b + [c] in rows then [] else [b + [c]]);
      && Walk(root, size, NL, rows, found', S[t := S[t][1..]], N, b)
      && RowSum(size, NL, S[t := S[t][1..]], N, b) < RowSum(size, NL, S, N, b)
  {
    var t := |S| - 1;
    var c := S[t][0];
    RowDequeue(size, NL, rows, S, N, b);
    var part := RowPart(size, NL, rows, N[t], c, b);
    var rest := RowPending(size, NL, rows, S[t := S[t][1..]], N, b);
    ConcatAssoc(found, part, rest);
  }

  /** Descending into the child under a letter. */
  lemma WalkPush(root: Prefix, size: nat, NL: seq<seq<char>>, rows: seq<string>, found: seq<string>,
                 S: seq<seq<char>>, N: seq<Prefix>, b: string, m: Prefix)
    requires Walk(root, size, NL, rows, found, S, N, b) && S != [] && |b| + 1 < size
    requires var t := |S| - 1; S[t] != [] && TryGetValue(N[t], S[t][0]) == Some(m)
    ensures var t := |S| - 1; var c := S[t][0];
      var S' := S[t := S[t][1..]] + [Intersect(NL[|b| + 1], ChildChars(m))];
      && Find(root, b + [c]) == Some(m)
      && Walk(root, size, NL, rows, found, S', N + [m], b + [c])
      && RowSum(size, NL, S', N + [m], b + [c]) < RowSum(size, NL, S, N, b)
  {
    var t := |S| - 1;
    var c := S[t][0];
    RowPush(size, NL, rows, S, N, b, m);
    SpelledPush(root, N, b, c, m);
    assert (b + [c])[..|N|] == b + [c];
  }

  /** Popping a frame whose queue is empty. */
  lemma WalkPop(root: Prefix, size: nat, NL: seq<seq<char>>, rows: seq<string>, found: seq<string>,
                S: seq<seq<char>>, N: seq<Prefix>, b: string)
    requires Walk(root, size, NL, rows, found, S, N, b) && S != [] && S[|S| - 1] == []
    ensures var t := |S| - 1; var b' := if |b| > 0 then b[..|b| - 1] else b;
      && Walk(root, size, NL, rows, found, S[..t], N[..t], b')
      && RowSum(size, NL, S[..t], N[..t], b') < RowSum(size, NL, S, N, b)
  {
    RowPop(size, NL, rows, S, N, b);
    SpelledPop(root, N, b);
  }

  // ---------------------------------------------------------------------------------------------
  // The reference definition and what it yields.

  /** The reference definition of FindRowSolutions for the row after `rows`, on a board with
      contents `s`: nothing when some column ends the search, otherwise the walk from the root
      over column 0's letters. */
  ghost function RowSolutions(root: Prefix, size: nat, s: Contents, rows: seq<string>, checked: bool): seq<string>
    requires size >= 1 && Shape(s, size) && |rows| < size && RowsOf(rows, size)
  {
    match Gate(ColumnRules(root, size, s.rows[|rows|], s.columns, rows, checked))
    case None => []
    case Some(NL) => RowEnum(size, NL, rows, root, NL[0], [])
  }

  // ---------------------------------------------------------------------------------------------
  // What the walk yields.

  /** The strings a frame may yield: full-length extensions of the builder that the node spells
      from the builder on, that are not among `rows`, and whose letters after the builder's next
      one are allowed by their columns. */
  ghost predicate RowWord(size: nat, NL: seq<seq<char>>, rows: seq<string>, node: Prefix, b: string, w: string)
    requires |NL| == size
  {
    && |w| == size && |b| < size && w[..|b|] == b && Find(node, w[|b|..]).Some? && w !in rows
    && forall j :: |b| < j < size ==> w[j] in NL[j]
  }

  /** Letter `c` yields exactly the strings of the frame that continue the builder with `c`. */
  lemma {:induction false} PartMembers(size: nat, NL: seq<seq<char>>, rows: seq<string>, node: Prefix, c: char, b: string, w: string)
    requires |NL| == size && |b| < size && Valid(node) && Keyed(node)
    ensures w in RowPart(size, NL, rows, node, c, b) <==> RowWord(size, NL, rows, node, b, w) && w[|b|] == c
    decreases node, 0, 1
  {
    var i := IndexOfKey(node.next, c);
    if i < 0 {
    } else if |b| + 1 == size {
      PartFull(size, NL, rows, node, c, b, w);
    } else {
      PartInner(size, NL, rows, node, c, b, w);
    }
  }

  /** At full length, letter `c` yields the builder extended by `c`, unless that is a known row. */
  lemma PartFull(size: nat, NL: seq<seq<char>>, rows: seq<string>, node: Prefix, c: char, b: string, w: string)
    requires |NL| == size && |b| + 1 == size && Valid(node) && Keyed(node) && IndexOfKey(node.next, c) >= 0
    ensures w in RowPart(size, NL, rows, node, c, b) <==> RowWord(size, NL, rows, node, b, w) && w[|b|] == c
  {
    var b' := b + [c];
    var child := node.next[IndexOfKey(node.next, c)].child;
    assert TryGetValue(node, c) == Some(child);
    if w == b' {
      assert w[..|b|] == b && w[|b|..] == [c];
      assert Find(node, [c]) == Find(child, []);
    }
    if RowWord(size, NL, rows, node, b, w) && w[|b|] == c {
      assert w == w[..|b|] + [w[|b|]];
    }
  }

  /** A string longer than `b + [c]` extends it exactly when it extends `b` and then has `c`,
      and then spelling it from `node` after `b` is spelling it from `c`'s child after `b + [c]`. */
  lemma ThroughChild(node: Prefix, child: Prefix, c: char, b: string, w: string)
    requires TryGetValue(node, c) == Some(child) && |w| > |b| + 1
    ensures w[..|b| + 1] == b + [c] <==> w[..|b|] == b && w[|b|] == c
    ensures w[|b|] == c ==> Find(node, w[|b|..]) == Find(child, w[|b| + 1..])
    ensures Find(child, w[|b| + 1..]).Some? ==> TryGetValue(child, w[|b| + 1]).Some?
  {
    assert w[..|b| + 1] == w[..|b|] + [w[|b|]];
    assert w[|b|..][0] == w[|b|] && w[|b|..][1..] == w[|b| + 1..];
    assert w[|b| + 1..][0] == w[|b| + 1];
  }

  /** Below full length, letter `c` yields what the frame opened for its child yields. */
  lemma {:induction false} PartInner(size: nat, NL: seq<seq<char>>, rows: seq<string>, node: Prefix, c: char, b: string, w: string)
    requires |NL| == size && |b| + 1 < size && Valid(node) && Keyed(node) && IndexOfKey(node.next, c) >= 0
    ensures w in RowPart(size, NL, rows, node, c, b) <==> RowWord(size, NL, rows, node, b, w) && w[|b|] == c
    decreases node, 0, 0
  {
    var b' := b + [c];
    var child := node.next[IndexOfKey(node.next, c)].child;
    var Q := Intersect(NL[|b'|], ChildChars(child));
    assert TryGetValue(node, c) == Some(child);
    assert RowPart(size, NL, rows, node, c, b) == RowEnum(size, NL, rows, child, Q, b');
    assert Valid(child) && Keyed(child);
    assert w in RowEnum(size, NL, rows, child, Q, b') <==> RowWord(size, NL, rows, child, b', w) && w[|b'|] in Q by {
      EnumRowMembers(size, NL, rows, child, Q, b', w);
    }
    if |w| == size {
      ThroughChild(node, child, c, b, w);
      assert w[|b'|] in ChildChars(child) <==> TryGetValue(child, w[|b'|]).Some? by {
        ChildCharsOrder(child);
      }
      var later := forall j :: |b'| < j < size ==> w[j] in NL[j];
      if later && w[|b'|] in NL[|b'|] {
        forall j | |b| < j < size
          ensures w[j] in NL[j]
        {
          if j != |b'| {
            assert |b'| < j;
          }
        }
      }
      if RowWord(size, NL, rows, node, b, w) && w[|b|] == c {
        assert RowWord(size, NL, rows, child, b', w) && w[|b'|] in Q;
      }
      if RowWord(size, NL, rows, child, b', w) && w[|b'|] in Q {
        assert RowWord(size, NL, rows, node, b, w) && w[|b|] == c;
      }
    }
  }

  /** A frame yields exactly the strings it may yield whose next letter is in its queue. */
  lemma {:induction false} EnumRowMembers(size: nat, NL: seq<seq<char>>, rows: seq<string>, node: Prefix, q: seq<char>, b: string, w: string)
    requires |NL| == size && |b| < size && Valid(node) && Keyed(node)
    ensures w in RowEnum(size, NL, rows, node, q, b) <==> RowWord(size, NL, rows, node, b, w) && w[|b|] in q
    decreases node, 1, |q|
  {
    if q != [] {
      PartMembers(size, NL, rows, node, q[0], b, w);
      EnumRowMembers(size, NL, rows, node, q[1..], b, w);
      assert forall x :: x in q <==> x == q[0] || x in q[1..];
    }
  }

  /** A string yielded for the queue's head sorts before one yielded for a later letter. */
  lemma RowPairOrdered(size: nat, NL: seq<seq<char>>, rows: seq<string>, node: Prefix, q: seq<char>, b: string, x: string, y: string)
    requires |NL| == size && |b| < size && Valid(node) && Keyed(node) && q != [] && CharsAscending(q)
    requires x in RowPart(size, NL, rows, node, q[0], b) && y in RowEnum(size, NL, rows, node, q[1..], b)
    ensures Less(x, y)
  {
    PartMembers(size, NL, rows, node, q[0], b, x);
    EnumRowMembers(size, NL, rows, node, q[1..], b, y);
    var k := |b| + 1;
    assert q[0] < y[|b|] by {
      var j :| 0 <= j < |q[1..]| && q[1..][j] == y[|b|];
      assert q[j + 1] == y[|b|];
    }
    ForkSplit(b, x);
    ForkSplit(b, y);
    LessAtFork(b, q[0], y[|b|], x[k..], y[k..]);
  }

  /** With ascending letter lists, a frame yields strictly ascending strings. */
  lemma {:induction false} RowAscending(size: nat, NL: seq<seq<char>>, rows: seq<string>, node: Prefix, q: seq<char>, b: string)
    requires |NL| == size && |b| < size && Valid(node) && Keyed(node) && CharsAscending(q)
    requires forall j :: 0 <= j < size ==> CharsAscending(NL[j])
    ensures StrictlyAscending(RowEnum(size, NL, rows, node, q, b))
    decreases node, 1, |q|
  {
    if q != [] {
      var part := RowPart(size, NL, rows, node, q[0], b);
      var rest := RowEnum(size, NL, rows, node, q[1..], b);
      PartAscending(size, NL, rows, node, q[0], b);
      RowAscending(size, NL, rows, node, q[1..], b);
      forall x, y | x in part && y in rest ensures Less(x, y) {
        RowPairOrdered(size, NL, rows, node, q, b, x, y);
      }
      AscendingConcat(part, rest);
    }
  }

  lemma {:induction false} PartAscending(size: nat, NL: seq<seq<char>>, rows: seq<string>, node: Prefix, c: char, b: string)
    requires |NL| == size && |b| < size && Valid(node) && Keyed(node)
    requires forall j :: 0 <= j < size ==> CharsAscending(NL[j])
    ensures StrictlyAscending(RowPart(size, NL, rows, node, c, b))
    decreases node, 0, 0
  {
    var i := IndexOfKey(node.next, c);
    if i >= 0 && |b| + 1 < size {
      var child := node.next[i].child;
      assert Valid(child) && Keyed(child);
      IntersectAscending(NL[|b| + 1], ChildChars(child));
      RowAscending(size, NL, rows, child, Intersect(NL[|b| + 1], ChildChars(child)), b + [c]);
    }
  }

  // ---------------------------------------------------------------------------------------------
  // What FindRowSolutions yields.

  /** The letters a column allows ascend, and a preset column allows only its preset letter; a
      column without a preset, or any column under the corrected rule, allows only letters that
      continue the column's prefix in the tree. */
  lemma ColumnLettersFacts(root: Prefix, rowK: map<int, char>, colK: map<int, char>, prefix: string, i: nat, checked: bool)
    requires Valid(root) && Keyed(root)
    requires ColumnLetters(root, rowK, colK, prefix, i, checked).Some?
    ensures var ls := ColumnLetters(root, rowK, colK, prefix, i, checked).value;
      && CharsAscending(ls)
      && (i in rowK ==> ls == [rowK[i]])
      && ((checked || i !in rowK) ==> forall x :: x in ls ==> Find(root, prefix + [x]).Some?)
  {
    if i !in rowK {
      NextLettersChildren(root, prefix, Some(colK));
    }
  }

  /** What FindRowSolutions yields for the row after `rows`: nothing when some column ends the
      search; otherwise exactly the full-length strings the tree spells from the root that are
      not among `rows` and have at each column a letter that column allows. */
  lemma RowSolutionsMembers(root: Prefix, size: nat, s: Contents, rows: seq<string>, w: string, checked: bool)
    requires Valid(root) && Keyed(root) && size >= 1 && Shape(s, size) && |rows| < size && RowsOf(rows, size)
    ensures var rules := ColumnRules(root, size, s.rows[|rows|], s.columns, rows, checked);
      && ((exists i :: 0 <= i < size && rules[i].None?) ==> RowSolutions(root, size, s, rows, checked) == [])
      && ((forall i :: 0 <= i < size ==> rules[i].Some?) ==>
            (w in RowSolutions(root, size, s, rows, checked)
             <==> |w| == size && Find(root, w).Some? && w !in rows
                  && forall j :: 0 <= j < size ==> w[j] in rules[j].value))
  {
    var rules := ColumnRules(root, size, s.rows[|rows|], s.columns, rows, checked);
    GateColumns(rules);
    match Gate(rules)
    case None =>
    case Some(NL) =>
      RootEnumMembers(size, NL, rows, root, w);
  }

  /** The walk from the root yields exactly the full-length strings the tree spells that are not
      among `rows` and carry at each column one of that column's letters. */
  lemma RootEnumMembers(size: nat, NL: seq<seq<char>>, rows: seq<string>, root: Prefix, w: string)
    requires Valid(root) && Keyed(root) && size >= 1 && |NL| == size
    ensures w in RowEnum(size, NL, rows, root, NL[0], [])
            <==> |w| == size && Find(root, w).Some? && w !in rows
                 && forall j :: 0 <= j < size ==> w[j] in NL[j]
  {
    EnumRowMembers(size, NL, rows, root, NL[0], [], w);
    if |w| == size {
      assert w[..0] == [] && w[0..] == w;
    }
  }

  /** FindRowSolutions yields its words in strictly ascending order, so each at most once. */
  lemma RowSolutionsAscending(root: Prefix, size: nat, s: Contents, rows: seq<string>, checked: bool)
    requires Valid(root) && Keyed(root) && size >= 1 && Shape(s, size) && |rows| < size && RowsOf(rows, size)
    ensures StrictlyAscending(RowSolutions(root, size, s, rows, checked))
  {
    var rules := ColumnRules(root, size, s.rows[|rows|], s.columns, rows, checked);
    GateColumns(rules);
    match Gate(rules)
    case None =>
    case Some(NL) =>
      forall j | 0 <= j < size ensures CharsAscending(NL[j]) {
        ColumnLettersFacts(root, s.rows[|rows|], s.columns[j], ColumnPrefix(rows, j), j, checked);
      }
      RowAscending(size, NL, rows, root, NL[0], []);
  }

  /** A word that may fill the row after `rows`: a full-length string the tree spells, not one of
      `rows`, carrying every letter preset in that row, and extending every column's prefix to
      one the tree can spell, except, as written, in a column this row presets. */
  ghost predicate Candidate(root: Prefix, size: nat, s: Contents, rows: seq<string>, w: string, checked: bool)
    requires Shape(s, size) && |rows| < size && RowsOf(rows, size)
  {
    && |w| == size && Find(root, w).Some? && w !in rows
    && (forall k :: k in s.rows[|rows|] ==> 0 <= k < size && w[k] == s.rows[|rows|][k])
    && forall i :: 0 <= i < size ==>
         Find(root, ColumnPrefix(rows + [w], i)).Some? || (!checked && i in s.rows[|rows|])
  }

  /** Every string a frame yields has the full length. */
  lemma {:induction false} EnumLengths(size: nat, NL: seq<seq<char>>, rows: seq<string>, node: Prefix, q: seq<char>, b: string)
    requires |NL| == size && |b| < size
    ensures RowsOf(RowEnum(size, NL, rows, node, q, b), size)
    decreases node, 1, |q|
  {
    if q != [] {
      PartLengths(size, NL, rows, node, q[0], b);
      EnumLengths(size, NL, rows, node, q[1..], b);
    }
  }

  lemma {:induction false} PartLengths(size: nat, NL: seq<seq<char>>, rows: seq<string>, node: Prefix, c: char, b: string)
    requires |NL| == size && |b| < size
    ensures RowsOf(RowPart(size, NL, rows, node, c, b), size)
    decreases node, 0, 0
  {
    var i := IndexOfKey(node.next, c);
    if i >= 0 && |b| + 1 < size {
      var child := node.next[i].child;
      EnumLengths(size, NL, rows, child, Intersect(NL[|b| + 1], ChildChars(child)), b + [c]);
    }
  }

  /** FindRowSolutions yields only words of the solver's size, whatever the tree. */
  lemma RowSolutionsLengths(root: Prefix, size: nat, s: Contents, rows: seq<string>, checked: bool)
    requires size >= 1 && Shape(s, size) && |rows| < size && RowsOf(rows, size)
    ensures RowsOf(RowSolutions(root, size, s, rows, checked), size)
  {
    match Gate(ColumnRules(root, size, s.rows[|rows|], s.columns, rows, checked))
    case None =>
    case Some(NL) => EnumLengths(size, NL, rows, root, NL[0], []);
  }

  /** Every word FindRowSolutions yields may fill the row: as written a preset column may leave
      the tree, under the corrected rule no column does. */
  lemma RowSolutionsSound(root: Prefix, size: nat, s: Contents, rows: seq<string>, w: string, checked: bool)
    requires Valid(root) && Keyed(root) && size >= 1 && Consistent(s, size) && |rows| < size && RowsOf(rows, size)
    requires w in RowSolutions(root, size, s, rows, checked)
    ensures Candidate(root, size, s, rows, w, checked)
  {
    var rules := ColumnRules(root, size, s.rows[|rows|], s.columns, rows, checked);
    RowSolutionsMembers(root, size, s, rows, w, checked);
    assert forall i :: 0 <= i < size ==> rules[i].Some?;
    CandidateByColumns(root, size, s, rows, w, checked);
  }

  /** A spelled full-length word outside `rows` whose every letter its column allows is a
      candidate. */
  lemma CandidateByColumns(root: Prefix, size: nat, s: Contents, rows: seq<string>, w: string, checked: bool)
    requires Valid(root) && Keyed(root) && size >= 1 && Consistent(s, size) && |rows| < size && RowsOf(rows, size)
    requires |w| == size && Find(root, w).Some? && w !in rows
    requires var rules := ColumnRules(root, size, s.rows[|rows|], s.columns, rows, checked);
      forall i :: 0 <= i < size ==> rules[i].Some? && w[i] in rules[i].value
    ensures Candidate(root, size, s, rows, w, checked)
  {
    var rowK := s.rows[|rows|];
    var rules := ColumnRules(root, size, rowK, s.columns, rows, checked);
    forall i | 0 <= i < size
      ensures (Find(root, ColumnPrefix(rows + [w], i)).Some? || (!checked && i in rowK)) && (i in rowK ==> w[i] == rowK[i])
    {
      assert rules[i].Some? && w[i] in rules[i].value;
      ColumnSound(root, rowK, s.columns[i], rows, w, i, checked);
    }
    forall k | k in rowK ensures 0 <= k < size && w[k] == rowK[k] {
      assert 0 <= k < size;
    }
  }

  /** A letter column `i` allows keeps its preset and, unless only an unchecked preset allowed it,
      extends the column's prefix to one the tree spells. */
  lemma ColumnSound(root: Prefix, rowK: map<int, char>, colK: map<int, char>, rows: seq<string>, w: string, i: nat, checked: bool)
    requires Valid(root) && Keyed(root)
    requires i < |w| && forall k :: 0 <= k < |rows| ==> i < |rows[k]|
    requires ColumnLetters(root, rowK, colK, ColumnPrefix(rows, i), i, checked).Some?
    requires w[i] in ColumnLetters(root, rowK, colK, ColumnPrefix(rows, i), i, checked).value
    ensures Find(root, ColumnPrefix(rows + [w], i)).Some? || (!checked && i in rowK)
    ensures i in rowK ==> w[i] == rowK[i]
  {
    ColumnLettersFacts(root, rowK, colK, ColumnPrefix(rows, i), i, checked);
    ColumnPrefixSnoc(rows, w, i);
  }

  // ---------------------------------------------------------------------------------------------
  // The preset branch as written and corrected.

  /** Where the row being solved has no presets, the check changes nothing. */
  lemma NoPresetsAlike(root: Prefix, size: nat, s: Contents, rows: seq<string>)
    requires size >= 1 && Shape(s, size) && |rows| < size && RowsOf(rows, size) && s.rows[|rows|] == map[]
    ensures RowSolutions(root, size, s, rows, false) == RowSolutions(root, size, s, rows, true)
  {
    assert ColumnRules(root, size, s.rows[|rows|], s.columns, rows, false)
        == ColumnRules(root, size, s.rows[|rows|], s.columns, rows, true);
  }

  /** The words ac, bd and cd with cells (0, 0) preset to 'a' and (1, 0) to 'b'. */
  const Words3: seq<string> := ["ac", "bd", "cd"]
  const Presets2: Contents :=
    Contents(["a ", "b "], [map[0 := 'a'], map[0 := 'b']], [map[0 := 'a', 1 := 'b'], map[]])

  /** The tree Initialize builds from ac, bd and cd. */
  const Tree3: Prefix :=
    Prefix(' ', [
      Entry('a', Prefix('a', [Entry('c', Prefix('c', []))])),
      Entry('b', Prefix('b', [Entry('d', Prefix('d', []))])),
      Entry('c', Prefix('c', [Entry('d', Prefix('d', []))]))])

  const NodeA: Prefix := Prefix('a', [Entry('c', Prefix('c', []))])
  const NodeB: Prefix := Prefix('b', [Entry('d', Prefix('d', []))])
  const NodeC: Prefix := Prefix('c', [Entry('d', Prefix('d', []))])

  /** Inserting the second letter under a fresh node. */
  lemma Tree3Leaves()
    ensures InsertWord(Prefix('a', []), "c") == NodeA
    ensures InsertWord(Prefix('b', []), "d") == NodeB
    ensures InsertWord(Prefix('c', []), "d") == NodeC
  {
    assert InsertWord(Prefix('c', []), "") == Prefix('c', []);
    assert InsertWord(Prefix('d', []), "") == Prefix('d', []);
    assert Add(Prefix('a', []), Prefix('c', [])).value == NodeA;
    assert Add(Prefix('b', []), Prefix('d', [])).value == NodeB;
    assert Add(Prefix('c', []), Prefix('d', [])).value == NodeC;
    assert "c"[1..] == "" && "d"[1..] == "";
  }

  /** One insertion step that meets a fresh key: the node gains `Entry(c, new)` after its last
      entry and the new child receives the rest of the word. */
  lemma InsertFreshLast(n: Prefix, w: string, grown: Prefix, leaf: Prefix, r: Prefix)
    requires w != [] && !Contains(n, w[0])
    requires Add(n, Prefix(w[0], [])) == Ok(grown)
    requires Get(grown, w[0]) == Ok(Prefix(w[0], []))
    requires InsertWord(Prefix(w[0], []), w[1..]) == leaf
    requires Set(grown, w[0], leaf) == r
    ensures InsertWord(n, w) == r
  {
  }

  const Tree1: Prefix := Prefix(' ', [Entry('a', NodeA)])
  const Tree2: Prefix := Prefix(' ', [Entry('a', NodeA), Entry('b', NodeB)])

  lemma Grow1()
    ensures !Contains(EmptyRoot, 'a')
    ensures Add(EmptyRoot, Prefix('a', [])) == Ok(Prefix(' ', [Entry('a', Prefix('a', []))]))
  {
    assert InsertEntry([], Entry('a', Prefix('a', []))) == [Entry('a', Prefix('a', []))];
  }

  lemma Get1()
    ensures Get(Prefix(' ', [Entry('a', Prefix('a', []))]), 'a') == Ok(Prefix('a', []))
  {
    assert IndexOfKey([Entry('a', Prefix('a', []))], 'a') == 0;
  }

  lemma Set1()
    ensures Set(Prefix(' ', [Entry('a', Prefix('a', []))]), 'a', NodeA) == Tree1
  {
    assert IndexOfKey([Entry('a', Prefix('a', []))], 'a') == 0;
  }

  lemma Grow2()
    ensures !Contains(Tree1, 'b')
    ensures Add(Tree1, Prefix('b', [])) == Ok(Prefix(' ', Tree1.next + [Entry('b', Prefix('b', []))]))
  {
    assert IndexOfKey(Tree1.next, 'b') == -1;
    assert InsertEntry(Tree1.next, Entry('b', Prefix('b', []))) == Tree1.next + [Entry('b', Prefix('b', []))];
  }

  lemma Get2()
    ensures Get(Prefix(' ', Tree1.next + [Entry('b', Prefix('b', []))]), 'b') == Ok(Prefix('b', []))
  {
    var es := Tree1.next + [Entry('b', Prefix('b', []))];
    assert es[1..] == [Entry('b', Prefix('b', []))];
    assert IndexOfKey(es, 'b') == 1;
  }

  lemma Set2()
    ensures Set(Prefix(' ', Tree1.next + [Entry('b', Prefix('b', []))]), 'b', NodeB) == Tree2
  {
    var es := Tree1.next + [Entry('b', Prefix('b', []))];
    assert es[1..] == [Entry('b', Prefix('b', []))];
    assert IndexOfKey(es, 'b') == 1;
    assert es[1 := Entry('b', NodeB)] == Tree2.next;
  }

  lemma Grow3()
    ensures !Contains(Tree2, 'c')
    ensures Add(Tree2, Prefix('c', [])) == Ok(Prefix(' ', Tree2.next + [Entry('c', Prefix('c', []))]))
  {
    assert Tree2.next[1..] == [Entry('b', NodeB)];
    assert IndexOfKey(Tree2.next, 'c') == -1;
    assert InsertEntry(Tree2.next[1..], Entry('c', Prefix('c', []))) == Tree2.next[1..] + [Entry('c', Prefix('c', []))];
    assert InsertEntry(Tree2.next, Entry('c', Prefix('c', []))) == Tree2.next + [Entry('c', Prefix('c', []))];
  }

  lemma Get3()
    ensures Get(Prefix(' ', Tree2.next + [Entry('c', Prefix('c', []))]), 'c') == Ok(Prefix('c', []))
  {
    var es := Tree2.next + [Entry('c', Prefix('c', []))];
    assert es[1..] == [Entry('b', NodeB), Entry('c', Prefix('c', []))];
    assert es[1..][1..] == [Entry('c', Prefix('c', []))];
    assert IndexOfKey(es[1..], 'c') == 1;
    assert IndexOfKey(es, 'c') == 2;
  }

  lemma Set3()
    ensures Set(Prefix(' ', Tree2.next + [Entry('c', Prefix('c', []))]), 'c', NodeC) == Tree3
  {
    var es := Tree2.next + [Entry('c', Prefix('c', []))];
    assert es[1..] == [Entry('b', NodeB), Entry('c', Prefix('c', []))];
    assert es[1..][1..] == [Entry('c', Prefix('c', []))];
    assert IndexOfKey(es[1..], 'c') == 1;
    assert IndexOfKey(es, 'c') == 2;
    assert es[2 := Entry('c', NodeC)] == Tree3.next;
  }

  lemma Build1()
    ensures Build(["ac"]) == Tree1
  {
    assert ["ac"][..0] == [];
    assert InsertWord(Prefix('a', []), "c") == NodeA by { Tree3Leaves(); }
    Grow1(); Get1(); Set1();
    InsertFreshLast(EmptyRoot, "ac", Prefix(' ', [Entry('a', Prefix('a', []))]), NodeA, Tree1);
  }

  lemma Build2()
    ensures Build(["ac", "bd"]) == Tree2
  {
    assert ["ac", "bd"][..1] == ["ac"];
    Build1();
    assert InsertWord(Prefix('b', []), "d") == NodeB by { Tree3Leaves(); }
    Grow2(); Get2(); Set2();
    InsertFreshLast(Tree1, "bd", Prefix(' ', Tree1.next + [Entry('b', Prefix('b', []))]), NodeB, Tree2);
  }

  lemma Tree3Built()
    ensures Build(Words3) == Tree3
  {
    assert Words3[..2] == ["ac", "bd"];
    Build2();
    assert InsertWord(Prefix('c', []), "d") == NodeC by { Tree3Leaves(); }
    Grow3(); Get3(); Set3();
    InsertFreshLast(Tree2, "cd", Prefix(' ', Tree2.next + [Entry('c', Prefix('c', []))]), NodeC, Tree3);
  }

  lemma GatePair(x: seq<char>, y: seq<char>)
    ensures Gate([Some(x), Some(y)]) == Some([x, y])
  {
    var one := [Some(x)];
    assert one[..0] == [];
    assert Gate(one) == Some([] + [x]);
    assert [] + [x] == [x];
    assert [Some(x), Some(y)][..1] == one;
    assert [x] + [y] == [x, y];
  }

  /** The column rules for row 0: the preset 'a', then every first letter. */
  lemma Row0Rules()
    ensures Shape(Presets2, 2)
    ensures ColumnRules(Tree3, 2, Presets2.rows[0], Presets2.columns, [], false)
         == [Some(['a']), Some(['a', 'b', 'c'])]
  {
    var rules := ColumnRules(Tree3, 2, Presets2.rows[0], Presets2.columns, [], false);
    assert ColumnPrefix([], 1) == [];
    assert Find(Tree3, []) == Some(Tree3);
    assert ChildChars(Tree3) == ['a', 'b', 'c'];
    assert rules[1] == Some(['a', 'b', 'c']);
  }

  /** The walk for row 0 yields "ac" alone. */
  lemma Row0Walk()
    ensures RowEnum(2, [['a'], ['a', 'b', 'c']], [], Tree3, ['a'], []) == ["ac"]
  {
    var NL := [['a'], ['a', 'b', 'c']];
    assert Intersect(['a', 'b', 'c'], ChildChars(NodeA)) == ['c'] by {
      assert ChildChars(NodeA) == ['c'];
      assert ['a', 'b', 'c'][..2] == ['a', 'b'] && ['a', 'b'][..1] == ['a'] && ['a'][..0] == [];
    }
    assert IndexOfKey(NodeA.next, 'c') == 0 && "a" + ['c'] == "ac";
    assert RowPart(2, NL, [], NodeA, 'c', "a") == ["ac"];
    assert ['c'][1..] == [];
    assert RowEnum(2, NL, [], NodeA, ['c'], "a") == ["ac"];
    assert IndexOfKey(Tree3.next, 'a') == 0 && Tree3.next[0].child == NodeA && [] + ['a'] == "a";
    assert RowPart(2, NL, [], Tree3, 'a', []) == ["ac"];
    assert ['a'][1..] == [];
  }

  /** The first row: column 0 is preset to 'a', column 1 allows every first letter. */
  lemma Row0AsWritten()
    ensures Shape(Presets2, 2)
    ensures RowSolutions(Tree3, 2, Presets2, [], false) == ["ac"]
  {
    Row0Rules();
    GatePair(['a'], ['a', 'b', 'c']);
    Row0Walk();
  }

  /** The column rules for row 1 after "ac": the preset 'b', then the letters after "c". */
  lemma Row1Rules()
    ensures ColumnRules(Tree3, 2, Presets2.rows[1], Presets2.columns, ["ac"], false)
         == [Some(['b']), Some(['d'])]
  {
    var rules := ColumnRules(Tree3, 2, Presets2.rows[1], Presets2.columns, ["ac"], false);
    assert ColumnPrefix(["ac"], 1) == "c";
    assert Find(Tree3, "c") == Some(NodeC) by {
      assert "c"[1..] == [];
      assert IndexOfKey(Tree3.next, 'c') == 2;
    }
    assert ChildChars(NodeC) == ['d'];
    assert rules[1] == Some(['d']);
  }

  /** The walk for row 1 yields "bd" alone. */
  lemma Row1Walk()
    ensures RowEnum(2, [['b'], ['d']], ["ac"], Tree3, ['b'], []) == ["bd"]
  {
    var NL := [['b'], ['d']];
    assert Intersect(['d'], ChildChars(NodeB)) == ['d'] by {
      assert ChildChars(NodeB) == ['d'];
      assert ['d'][..0] == [];
    }
    assert IndexOfKey(NodeB.next, 'd') == 0 && "b" + ['d'] == "bd" && "bd" != "ac";
    assert RowPart(2, NL, ["ac"], NodeB, 'd', "b") == ["bd"];
    assert ['d'][1..] == [];
    assert RowEnum(2, NL, ["ac"], NodeB, ['d'], "b") == ["bd"];
    assert IndexOfKey(Tree3.next, 'b') == 1 && Tree3.next[1].child == NodeB && [] + ['b'] == "b";
    assert RowPart(2, NL, ["ac"], Tree3, 'b', []) == ["bd"];
    assert ['b'][1..] == [];
  }

  /** The second row after "ac": column 0 is preset to 'b', column 1 continues "c" with 'd'. */
  lemma Row1AsWritten()
    ensures RowSolutions(Tree3, 2, Presets2, ["ac"], false) == ["bd"]
  {
    Row1Rules();
    GatePair(['b'], ['d']);
    Row1Walk();
  }

  /** With the check, the preset 'b' under column prefix "a" ends the search for row 1. */
  lemma Row1Checked()
    ensures Find(Tree3, "ab").None?
    ensures RowSolutions(Tree3, 2, Presets2, ["ac"], true) == []
  {
    assert Find(Tree3, "ab") == Find(NodeA, "b") by {
      assert "ab"[0] == 'a' && "ab"[1..] == "b";
    }
    var rules := ColumnRules(Tree3, 2, Presets2.rows[1], Presets2.columns, ["ac"], true);
    assert ColumnPrefix(["ac"], 0) == "a" && "a" + ['b'] == "ab";
    assert rules[0].None?;
    GateColumns(rules);
  }

  /** The presets agree with the grid and with each other. */
  lemma Presets2Consistent()
    ensures Consistent(Presets2, 2)
  {
    var s := Presets2;
    forall r, k | 0 <= r < 2 && k in s.rows[r]
      ensures 0 <= k < 2 && r in s.columns[k] && s.rows[r][k] == s.grid[r][k] && 'a' <= s.grid[r][k] <= 'z'
    {
      assert k == 0;
    }
    forall c, k | 0 <= c < 2 && k in s.columns[c]
      ensures 0 <= k < 2 && c in s.rows[k] && s.columns[c][k] == s.grid[k][c]
    {
      assert c == 0 && (k == 0 || k == 1);
    }
  }

  /** "bd" under "ac" leaves column 0 reading "ab", which no word begins with. */
  lemma Row1Rejected()
    ensures !Candidate(Tree3, 2, Presets2, ["ac"], "bd", true)
  {
    var grown := ["ac"] + ["bd"];
    assert grown == ["ac", "bd"];
    assert ColumnPrefix(grown, 0) == "ab";
    Row1Checked();
    assert Find(Tree3, ColumnPrefix(grown, 0)).None?;
  }

  /** As written, with the tree Initialize builds from ac, bd and cd, row 0 is "ac" and row 1 may
      then be "bd", although "bd" is no candidate for row 1: column 0 would read "ab". */
  lemma PresetColumnUnchecked()
    ensures RowSolutions(Tree3, 2, Presets2, ["ac"], false) == ["bd"]
    ensures !Candidate(Tree3, 2, Presets2, ["ac"], "bd", true)
  {
    Row1AsWritten();
    Row1Rejected();
  }
}
