/** ProcessSolutions of WordGrid/Solver.cs (lines 130-162) as a recursive function, the facts its
    stack-of-queues loop needs, and what every board it yields satisfies.

    A solution is the list of its rows; the source wraps that list in `new Board(rows)`. */
module Search {
  import opened Common
  import opened Tries
  import opened Boards
  import opened RowSearch

  /** The check of line 142: no row of the board is also one of its columns. */
  predicate Disjoint(rows: seq<string>)
    requires Square(rows, |rows|)
  {
    forall w :: w in rows ==> w !in Transpose(rows)
  }

  /** The requirements every frame of the search shares. */
  predicate Frame(size: nat, s: Contents, rows: seq<string>, q: seq<string>) {
    size >= 1 && Shape(s, size) && |rows| < size && RowsOf(rows, size) && RowsOf(q, size)
  }

  /** What the search yields from queue `q` of candidates for the row after `rows`: each candidate
      in turn is appended; a full board is yielded when its rows and columns are disjoint, and
      otherwise the candidates FindRowSolutions gives for the next row are searched. */
  ghost function Solutions(root: Prefix, size: nat, s: Contents, q: seq<string>, rows: seq<string>, checked: bool): seq<seq<string>>
    requires Frame(size, s, rows, q)
    decreases size - |rows|, |q|
  {
    if q == [] then []
    else if |rows| + 1 >= size then
      var grown := rows + [q[0]];
      (if Disjoint(grown) then [grown] else []) + Solutions(root, size, s, q[1..], rows, checked)
    else
      var grown := rows + [q[0]];
      RowSolutionsLengths(root, size, s, grown, checked);
      Solutions(root, size, s, RowSolutions(root, size, s, grown, checked), grown, checked) + Solutions(root, size, s, q[1..], rows, checked)
  }

  /** The loop iterations a frame needs: one per dequeued candidate and one for its pop. */
  ghost function Cost(root: Prefix, size: nat, s: Contents, q: seq<string>, rows: seq<string>, checked: bool): nat
    requires Frame(size, s, rows, q)
    decreases size - |rows|, |q|
  {
    if q == [] then 1
    else if |rows| + 1 >= size then 1 + Cost(root, size, s, q[1..], rows, checked)
    else
      var grown := rows + [q[0]];
      RowSolutionsLengths(root, size, s, grown, checked);
      1 + Cost(root, size, s, RowSolutions(root, size, s, grown, checked), grown, checked) + Cost(root, size, s, q[1..], rows, checked)
  }

  /** The requirements on the explicit stack: frame `k` holds the candidates for row `k`. */
  predicate Stack(size: nat, s: Contents, S: seq<seq<string>>, rows: seq<string>) {
    && size >= 1 && Shape(s, size) && |S| <= |rows| + 1 && |rows| < size && RowsOf(rows, size)
    && forall k :: 0 <= k < |S| ==> RowsOf(S[k], size)
  }

  /** What the frames of the explicit stack will still yield, top frame first. */
  ghost function Pending(root: Prefix, size: nat, s: Contents, S: seq<seq<string>>, rows: seq<string>, checked: bool): seq<seq<string>>
    requires Stack(size, s, S, rows)
    decreases |S|
  {
    if S == [] then []
    else
      var t := |S| - 1;
      Solutions(root, size, s, S[t], rows[..t], checked) + Pending(root, size, s, S[..t], rows, checked)
  }

  ghost function Measure(root: Prefix, size: nat, s: Contents, S: seq<seq<string>>, rows: seq<string>, checked: bool): nat
    requires Stack(size, s, S, rows)
    decreases |S|
  {
    if S == [] then 0
    else
      var t := |S| - 1;
      Cost(root, size, s, S[t], rows[..t], checked) + Measure(root, size, s, S[..t], rows, checked)
  }

  /** The frames see only the rows below the top, so rows past them do not matter. */
  lemma {:induction false} PendingRows(root: Prefix, size: nat, s: Contents, S: seq<seq<string>>, rows: seq<string>, rows': seq<string>, checked: bool)
    requires Stack(size, s, S, rows) && Stack(size, s, S, rows')
    requires S != [] ==> rows[..|S| - 1] == rows'[..|S| - 1]
    ensures Pending(root, size, s, S, rows, checked) == Pending(root, size, s, S, rows', checked)
    ensures Measure(root, size, s, S, rows, checked) == Measure(root, size, s, S, rows', checked)
    decreases |S|
  {
    if S != [] {
      var t := |S| - 1;
      if t > 0 {
        assert rows[..t - 1] == rows[..t][..t - 1] && rows'[..t - 1] == rows'[..t][..t - 1];
      }
      PendingRows(root, size, s, S[..t], rows, rows', checked);
    }
  }

  /** Dequeuing a candidate that completes the board: the board is yielded or dropped, and the
      queue shrinks. */
  lemma StepFull(root: Prefix, size: nat, s: Contents, S: seq<seq<string>>, rows: seq<string>, checked: bool)
    requires Stack(size, s, S, rows) && |S| == |rows| + 1 && S[|S| - 1] != [] && |rows| + 1 >= size
    ensures var t := |S| - 1;
      var grown := rows + [S[t][0]];
      var S' := S[t := S[t][1..]];
      && Stack(size, s, S', rows) && Square(grown, |grown|)
      && Pending(root, size, s, S, rows, checked)
         == (if Disjoint(grown) then [grown] else []) + Pending(root, size, s, S', rows, checked)
      && Measure(root, size, s, S', rows, checked) < Measure(root, size, s, S, rows, checked)
  {
    var t := |S| - 1;
    var q := S[t];
    var S' := S[t := q[1..]];
    assert rows[..t] == rows;
    assert S'[..t] == S[..t];
    assert S'[t] == q[1..];
    assert RowsOf(rows + [q[0]], size);
  }

  /** One unfolding of Solutions and Cost for a candidate that leaves rows to fill. */
  lemma SolutionsInner(root: Prefix, size: nat, s: Contents, q: seq<string>, rows: seq<string>, checked: bool)
    requires Frame(size, s, rows, q) && q != [] && |rows| + 1 < size
    ensures var grown := rows + [q[0]];
      && RowsOf(grown, size) && RowsOf(RowSolutions(root, size, s, grown, checked), size)
      && Solutions(root, size, s, q, rows, checked)
         == Solutions(root, size, s, RowSolutions(root, size, s, grown, checked), grown, checked) + Solutions(root, size, s, q[1..], rows, checked)
      && Cost(root, size, s, q, rows, checked)
         == 1 + Cost(root, size, s, RowSolutions(root, size, s, grown, checked), grown, checked) + Cost(root, size, s, q[1..], rows, checked)
  {
    RowSolutionsLengths(root, size, s, rows + [q[0]], checked);
  }

  /** One unfolding of Pending and Measure at the top frame. */
  lemma PendingTop(root: Prefix, size: nat, s: Contents, S: seq<seq<string>>, rows: seq<string>, checked: bool)
    requires Stack(size, s, S, rows) && S != []
    ensures var t := |S| - 1;
      && Stack(size, s, S[..t], rows)
      && Pending(root, size, s, S, rows, checked) == Solutions(root, size, s, S[t], rows[..t], checked) + Pending(root, size, s, S[..t], rows, checked)
      && Measure(root, size, s, S, rows, checked) == Cost(root, size, s, S[t], rows[..t], checked) + Measure(root, size, s, S[..t], rows, checked)
  {
  }

  /** Dequeuing a candidate that leaves rows to fill: a frame for the next row is pushed. */
  lemma StepPush(root: Prefix, size: nat, s: Contents, S: seq<seq<string>>, rows: seq<string>, checked: bool)
    requires Stack(size, s, S, rows) && |S| == |rows| + 1 && S[|S| - 1] != [] && |rows| + 1 < size
    ensures var t := |S| - 1;
      var grown := rows + [S[t][0]];
      RowsOf(grown, size) &&
      var S' := S[t := S[t][1..]] + [RowSolutions(root, size, s, grown, checked)];
      && Stack(size, s, S', grown) && |S'| == |grown| + 1
      && Pending(root, size, s, S, rows, checked) == Pending(root, size, s, S', grown, checked)
      && Measure(root, size, s, S', grown, checked) < Measure(root, size, s, S, rows, checked)
  {
    var t := |S| - 1;
    var q := S[t];
    var grown := rows + [q[0]];
    assert rows[..t] == rows;
    SolutionsInner(root, size, s, q, rows, checked);
    var below := S[t := q[1..]];
    var next := RowSolutions(root, size, s, grown, checked);
    var S' := below + [next];
    assert Stack(size, s, below, rows) && Stack(size, s, below, grown) && Stack(size, s, S', grown) by {
      assert forall k :: 0 <= k < |S'| ==> S'[k] == if k == t + 1 then next else if k == t then q[1..] else S[k];
    }
    // The frame below the new top is the old top with its first candidate gone.
    PendingTop(root, size, s, S, rows, checked);
    PendingTop(root, size, s, below, rows, checked);
    assert below[..t] == S[..t] && below[t] == q[1..];
    assert rows[..t] == grown[..t];
    PendingRows(root, size, s, below, rows, grown, checked);
    // The new top frame holds the next row's candidates.
    PendingTop(root, size, s, S', grown, checked);
    assert S'[..t + 1] == below && S'[t + 1] == next && grown[..t + 1] == grown;
    ghost var A, B, C := Solutions(root, size, s, next, grown, checked), Solutions(root, size, s, q[1..], rows, checked), Pending(root, size, s, S[..t], rows, checked);
    assert Pending(root, size, s, S, rows, checked) == (A + B) + C;
    assert Pending(root, size, s, S', grown, checked) == A + (B + C);
    ConcatAssoc(A, B, C);
  }

  /** An exhausted frame is popped, and the row it was filling is dropped. */
  lemma StepPop(root: Prefix, size: nat, s: Contents, S: seq<seq<string>>, rows: seq<string>, checked: bool)
    requires Stack(size, s, S, rows) && |S| == |rows| + 1 && S[|S| - 1] == []
    ensures var t := |S| - 1;
      var rows' := if rows != [] then rows[..|rows| - 1] else rows;
      && Stack(size, s, S[..t], rows') && (t > 0 ==> |S[..t]| == |rows'| + 1) && (t == 0 ==> rows' == [])
      && Pending(root, size, s, S, rows, checked) == Pending(root, size, s, S[..t], rows', checked)
      && Measure(root, size, s, S[..t], rows', checked) < Measure(root, size, s, S, rows, checked)
  {
    var t := |S| - 1;
    var rows' := if rows != [] then rows[..|rows| - 1] else rows;
    assert Stack(size, s, S[..t], rows);
    assert t > 0 ==> rows[..t - 1] == rows'[..t - 1];
    PendingRows(root, size, s, S[..t], rows, rows', checked);
  }

  /** The state of ProcessSolutions' loop: the boards yielded so far followed by what the stack
      will still yield are the search of the initial queue. */
  ghost predicate Machine(root: Prefix, size: nat, s: Contents, initial: seq<string>, out: seq<seq<string>>, S: seq<seq<string>>, rows: seq<string>, checked: bool) {
    && Frame(size, s, [], initial) && Stack(size, s, S, rows)
    && (S != [] ==> |rows| == |S| - 1) && (S == [] ==> rows == [])
    && out + Pending(root, size, s, S, rows, checked) == Solutions(root, size, s, initial, [], checked)
  }

  lemma MachineStart(root: Prefix, size: nat, s: Contents, initial: seq<string>, checked: bool)
    requires Frame(size, s, [], initial)
    ensures Machine(root, size, s, initial, [], [initial], [], checked)
  {
    var S: seq<seq<string>> := [initial];
    assert S[..0] == [];
  }

  /** When the stack is empty everything has been yielded. */
  lemma MachineDone(root: Prefix, size: nat, s: Contents, initial: seq<string>, out: seq<seq<string>>, rows: seq<string>, checked: bool)
    requires Machine(root, size, s, initial, out, [], rows, checked)
    ensures out == Solutions(root, size, s, initial, [], checked)
  {
  }

  /** The full-board step of the loop. */
  lemma MachineFull(root: Prefix, size: nat, s: Contents, initial: seq<string>, out: seq<seq<string>>, S: seq<seq<string>>, rows: seq<string>, checked: bool)
    requires Machine(root, size, s, initial, out, S, rows, checked) && S != [] && S[|S| - 1] != [] && |rows| + 1 >= size
    ensures var t := |S| - 1;
      var grown := rows + [S[t][0]];
      && Square(grown, |grown|)
      && Machine(root, size, s, initial, out + (if Disjoint(grown) then [grown] else []), S[t := S[t][1..]], rows, checked)
      && Measure(root, size, s, S[t := S[t][1..]], rows, checked) < Measure(root, size, s, S, rows, checked)
  {
    var t := |S| - 1;
    var grown := rows + [S[t][0]];
    StepFull(root, size, s, S, rows, checked);
    ConcatAssoc(out, if Disjoint(grown) then [grown] else [], Pending(root, size, s, S[t := S[t][1..]], rows, checked));
  }

  /** The step of the loop that pushes the candidates for the next row. */
  lemma MachinePush(root: Prefix, size: nat, s: Contents, initial: seq<string>, out: seq<seq<string>>, S: seq<seq<string>>, rows: seq<string>, checked: bool)
    requires Machine(root, size, s, initial, out, S, rows, checked) && S != [] && S[|S| - 1] != [] && |rows| + 1 < size
    ensures var t := |S| - 1;
      var grown := rows + [S[t][0]];
      && |grown| < size && RowsOf(grown, size)
      && var S' := S[t := S[t][1..]] + [RowSolutions(root, size, s, grown, checked)];
      && Machine(root, size, s, initial, out, S', grown, checked)
      && Measure(root, size, s, S', grown, checked) < Measure(root, size, s, S, rows, checked)
  {
    StepPush(root, size, s, S, rows, checked);
  }

  /** The step of the loop that pops an exhausted frame. */
  lemma MachinePop(root: Prefix, size: nat, s: Contents, initial: seq<string>, out: seq<seq<string>>, S: seq<seq<string>>, rows: seq<string>, checked: bool)
    requires Machine(root, size, s, initial, out, S, rows, checked) && S != [] && S[|S| - 1] == []
    ensures var t := |S| - 1;
      var rows' := if rows != [] then rows[..|rows| - 1] else rows;
      && Machine(root, size, s, initial, out, S[..t], rows', checked)
      && Measure(root, size, s, S[..t], rows', checked) < Measure(root, size, s, S, rows, checked)
  {
    StepPop(root, size, s, S, rows, checked);
  }

  /** The search of a concatenation of queues is the concatenation of their searches. */
  lemma {:induction false} SolutionsConcat(root: Prefix, size: nat, s: Contents, a: seq<string>, b: seq<string>, rows: seq<string>, checked: bool)
    requires Frame(size, s, rows, a) && Frame(size, s, rows, b)
    ensures RowsOf(a + b, size)
    ensures Solutions(root, size, s, a + b, rows, checked) == Solutions(root, size, s, a, rows, checked) + Solutions(root, size, s, b, rows, checked)
    decreases |a|
  {
    if a == [] {
      assert a + b == b;
    } else {
      assert (a + b)[0] == a[0] && (a + b)[1..] == a[1..] + b;
      SolutionsConcat(root, size, s, a[1..], b, rows, checked);
    }
  }

  // ---------------------------------------------------------------------------------------------
  // What every yielded board satisfies.

  /** Rows that may be the top of a solution: each is spelled in the tree, no two are equal, each
      has its row's presets, and, under the corrected rule, every column so far is spelled in the
      tree. */
  ghost predicate Fits(root: Prefix, size: nat, s: Contents, rows: seq<string>, checked: bool) {
    && Shape(s, size) && |rows| <= size && RowsOf(rows, size)
    && (forall r :: 0 <= r < |rows| ==> Find(root, rows[r]).Some?)
    && (forall a, b :: 0 <= a < b < |rows| ==> rows[a] != rows[b])
    && (forall r, k :: 0 <= r < |rows| && k in s.rows[r] ==> 0 <= k < size && rows[r][k] == s.rows[r][k])
    && (checked ==> forall i :: 0 <= i < size ==> Find(root, ColumnPrefix(rows, i)).Some?)
  }

  /** A full board: `size` rows that fit, whose rows and columns are disjoint, and whose columns
      are spelled in the tree; as written, a column whose cell in the last row is preset may not
      be. */
  ghost predicate Solved(root: Prefix, size: nat, s: Contents, sol: seq<string>, checked: bool) {
    && |sol| == size && Fits(root, size, s, sol, checked)
    && (forall i :: 0 <= i < size ==> Find(root, Transpose(sol)[i]).Some? || (!checked && i in s.rows[size - 1]))
    && Disjoint(sol)
  }

  lemma FitsEmpty(root: Prefix, size: nat, s: Contents, checked: bool)
    requires Shape(s, size)
    ensures Fits(root, size, s, [], checked)
  {
    forall i | 0 <= i < size ensures Find(root, ColumnPrefix([], i)).Some? {
      assert ColumnPrefix([], i) == [];
    }
  }

  /** A candidate for the next row keeps the rows fitting. */
  lemma FitsGrow(root: Prefix, size: nat, s: Contents, rows: seq<string>, w: string, checked: bool)
    requires Shape(s, size) && |rows| < size && Fits(root, size, s, rows, checked)
    requires Candidate(root, size, s, rows, w, checked)
    ensures Fits(root, size, s, rows + [w], checked)
  {
    var grown := rows + [w];
    forall r | 0 <= r < |grown| ensures Find(root, grown[r]).Some? {
      if r < |rows| { assert grown[r] == rows[r]; }
    }
    forall a, b | 0 <= a < b < |grown| ensures grown[a] != grown[b] {
      assert grown[a] == rows[a];
      if b == |rows| { assert rows[a] in rows; } else { assert grown[b] == rows[b]; }
    }
    forall r, k | 0 <= r < |grown| && k in s.rows[r] ensures 0 <= k < size && grown[r][k] == s.rows[r][k] {
      if r < |rows| { assert grown[r] == rows[r]; }
    }
  }

  /** The last row completes a solved board when the board passes the check of line 142: its
      columns are the column prefixes the candidate extends. */
  lemma SolvedHere(root: Prefix, size: nat, s: Contents, rows: seq<string>, w: string, checked: bool)
    requires Shape(s, size) && |rows| + 1 == size && Fits(root, size, s, rows, checked)
    requires Candidate(root, size, s, rows, w, checked) && Square(rows + [w], size) && Disjoint(rows + [w])
    ensures Solved(root, size, s, rows + [w], checked)
  {
    FitsGrow(root, size, s, rows, w, checked);
    forall i | 0 <= i < size ensures Transpose(rows + [w])[i] == ColumnPrefix(rows + [w], i) {
    }
  }

  /** Every word FindRowSolutions yields is a candidate for the row. */
  lemma NextCandidates(root: Prefix, size: nat, s: Contents, rows: seq<string>, checked: bool)
    requires Valid(root) && Keyed(root) && size >= 1 && Consistent(s, size) && |rows| < size && RowsOf(rows, size)
    ensures forall w :: w in RowSolutions(root, size, s, rows, checked) ==> Candidate(root, size, s, rows, w, checked)
  {
    forall w | w in RowSolutions(root, size, s, rows, checked) ensures Candidate(root, size, s, rows, w, checked) {
      RowSolutionsSound(root, size, s, rows, w, checked);
    }
  }

  /** Every board the search yields from fitting rows and candidates for the next row is solved. */
  lemma {:induction false} SolutionsSound(root: Prefix, size: nat, s: Contents, q: seq<string>, rows: seq<string>, sol: seq<string>, checked: bool)
    requires Valid(root) && Keyed(root) && Consistent(s, size) && Frame(size, s, rows, q)
    requires Fits(root, size, s, rows, checked)
    requires forall w :: w in q ==> Candidate(root, size, s, rows, w, checked)
    requires sol in Solutions(root, size, s, q, rows, checked)
    ensures Solved(root, size, s, sol, checked)
    decreases size - |rows|, |q|, 2
  {
    if |rows| + 1 >= size {
      SoundLast(root, size, s, q, rows, sol, checked);
    } else {
      SoundInner(root, size, s, q, rows, sol, checked);
    }
  }

  /** SolutionsSound for a frame of the last row. */
  lemma {:induction false} SoundLast(root: Prefix, size: nat, s: Contents, q: seq<string>, rows: seq<string>, sol: seq<string>, checked: bool)
    requires Valid(root) && Keyed(root) && Consistent(s, size) && Frame(size, s, rows, q) && |rows| + 1 >= size
    requires Fits(root, size, s, rows, checked)
    requires forall w :: w in q ==> Candidate(root, size, s, rows, w, checked)
    requires sol in Solutions(root, size, s, q, rows, checked)
    ensures Solved(root, size, s, sol, checked)
    decreases size - |rows|, |q|, 1
  {
    var w := q[0];
    assert w in q;
    var grown := rows + [w];
    assert RowsOf(grown, size);
    var here := if Disjoint(grown) then [grown] else [];
    assert Solutions(root, size, s, q, rows, checked) == here + Solutions(root, size, s, q[1..], rows, checked);
    if sol in here {
      SolvedHere(root, size, s, rows, w, checked);
    } else {
      assert forall v :: v in q[1..] ==> v in q;
      SolutionsSound(root, size, s, q[1..], rows, sol, checked);
    }
  }

  /** SolutionsSound for a frame of a row above the last. */
  lemma {:induction false} SoundInner(root: Prefix, size: nat, s: Contents, q: seq<string>, rows: seq<string>, sol: seq<string>, checked: bool)
    requires Valid(root) && Keyed(root) && Consistent(s, size) && Frame(size, s, rows, q) && |rows| + 1 < size
    requires Fits(root, size, s, rows, checked)
    requires forall w :: w in q ==> Candidate(root, size, s, rows, w, checked)
    requires sol in Solutions(root, size, s, q, rows, checked)
    ensures Solved(root, size, s, sol, checked)
    decreases size - |rows|, |q|, 1
  {
    SolutionsInner(root, size, s, q, rows, checked);
    if sol in Solutions(root, size, s, RowSolutions(root, size, s, rows + [q[0]], checked), rows + [q[0]], checked) {
      SoundDeeper(root, size, s, q, rows, sol, checked);
    } else {
      assert forall v :: v in q[1..] ==> v in q;
      SolutionsSound(root, size, s, q[1..], rows, sol, checked);
    }
  }

  /** A board found below the queue's head extends the rows by that head. */
  lemma {:induction false} SoundDeeper(root: Prefix, size: nat, s: Contents, q: seq<string>, rows: seq<string>, sol: seq<string>, checked: bool)
    requires Valid(root) && Keyed(root) && Consistent(s, size) && Frame(size, s, rows, q) && |rows| + 1 < size
    requires Fits(root, size, s, rows, checked)
    requires forall w :: w in q ==> Candidate(root, size, s, rows, w, checked)
    requires q != [] && RowsOf(RowSolutions(root, size, s, rows + [q[0]], checked), size)
    requires sol in Solutions(root, size, s, RowSolutions(root, size, s, rows + [q[0]], checked), rows + [q[0]], checked)
    ensures Solved(root, size, s, sol, checked)
    decreases size - |rows|, |q|, 0
  {
    var w := q[0];
    assert w in q;
    FitsGrow(root, size, s, rows, w, checked);
    NextCandidates(root, size, s, rows + [w], checked);
    SolutionsSound(root, size, s, RowSolutions(root, size, s, rows + [w], checked), rows + [w], sol, checked);
  }

  /** FindSolutions: every board searched from the first-row candidates is solved. */
  lemma SearchSound(root: Prefix, size: nat, s: Contents, sol: seq<string>, checked: bool)
    requires Valid(root) && Keyed(root) && size >= 1 && Consistent(s, size)
    requires RowsOf(RowSolutions(root, size, s, [], checked), size)
    requires sol in Solutions(root, size, s, RowSolutions(root, size, s, [], checked), [], checked)
    ensures Solved(root, size, s, sol, checked)
  {
    FitsEmpty(root, size, s, checked);
    NextCandidates(root, size, s, [], checked);
    SolutionsSound(root, size, s, RowSolutions(root, size, s, [], checked), [], sol, checked);
  }

  /** On a board without presets the check changes nothing: the search as written and the
      corrected search yield the same boards. */
  lemma {:induction false} SearchAlike(root: Prefix, size: nat, s: Contents, q: seq<string>, rows: seq<string>)
    requires Frame(size, s, rows, q) && forall r :: 0 <= r < size ==> s.rows[r] == map[]
    ensures Solutions(root, size, s, q, rows, false) == Solutions(root, size, s, q, rows, true)
    decreases size - |rows|, |q|
  {
    if q != [] {
      SearchAlike(root, size, s, q[1..], rows);
      if |rows| + 1 < size {
        var grown := rows + [q[0]];
        NoPresetsAlike(root, size, s, grown);
        RowSolutionsLengths(root, size, s, grown, true);
        SearchAlike(root, size, s, RowSolutions(root, size, s, grown, true), grown);
      }
    }
  }

  /** The first row of the example: under either rule, "ac" alone. */
  lemma Row0Both()
    ensures Shape(Presets2, 2)
    ensures RowSolutions(Tree3, 2, Presets2, [], false) == ["ac"]
    ensures RowSolutions(Tree3, 2, Presets2, [], true) == ["ac"]
  {
    Row0AsWritten();
    assert Find(Tree3, [] + ['a']) == Some(NodeA) by {
      assert [] + ['a'] == "a" && "a"[1..] == [];
      assert IndexOfKey(Tree3.next, 'a') == 0;
    }
    assert ColumnPrefix([], 0) == [];
    assert ColumnRules(Tree3, 2, Presets2.rows[0], Presets2.columns, [], true)
        == ColumnRules(Tree3, 2, Presets2.rows[0], Presets2.columns, [], false);
  }

  /** The board ac/bd: its columns are "ab" and "cd", so it passes the check of line 142. */
  lemma ExampleBoard()
    ensures Transpose(["ac", "bd"]) == ["ab", "cd"] && Disjoint(["ac", "bd"])
  {
    var cols := Transpose(["ac", "bd"]);
    assert cols[0][0] == 'a' && cols[0][1] == 'b' && cols[1][0] == 'c' && cols[1][1] == 'd';
    assert cols[0] == "ab" && cols[1] == "cd";
  }

  /** The frame of row 1 after "ac" under the rule as written. */
  lemma Row1SearchAsWritten()
    ensures Shape(Presets2, 2)
    ensures Solutions(Tree3, 2, Presets2, ["bd"], ["ac"], false) == [["ac", "bd"]]
  {
    Row0Both();
    ExampleBoard();
    assert ["bd"][1..] == [] && ["ac"] + ["bd"] == ["ac", "bd"];
  }

  /** As written, FindSolutions on the example yields the board ac/bd, whose column 0 reads "ab",
      which the tree of ac, bd and cd does not spell. */
  lemma SolutionAsWritten()
    ensures Shape(Presets2, 2) && RowsOf(RowSolutions(Tree3, 2, Presets2, [], false), 2)
    ensures Solutions(Tree3, 2, Presets2, RowSolutions(Tree3, 2, Presets2, [], false), [], false) == [["ac", "bd"]]
    ensures Find(Tree3, Transpose(["ac", "bd"])[0]).None?
  {
    Row0Both();
    Row1AsWritten();
    Row1SearchAsWritten();
    assert ["ac"][1..] == [] && [] + ["ac"] == ["ac"];
    ExampleBoard();
    Row1Checked();
  }

  /** With the check, the example has no solution. */
  lemma SolutionChecked()
    ensures Shape(Presets2, 2) && RowsOf(RowSolutions(Tree3, 2, Presets2, [], true), 2)
    ensures Solutions(Tree3, 2, Presets2, RowSolutions(Tree3, 2, Presets2, [], true), [], true) == []
  {
    Row0Both();
    Row1Checked();
    assert ["ac"][1..] == [] && [] + ["ac"] == ["ac"];
  }

  // ---------------------------------------------------------------------------------------------
  // FindAllSolutions: the round-robin deal of the first-row candidates and the concatenation.

  /** Lines 110-115: candidate `k` is enqueued on queue `k % P`. */
  function Deal<T>(xs: seq<T>, P: nat): (D: seq<seq<T>>)
    requires P >= 1
    ensures |D| == P
    decreases |xs|
  {
    if xs == [] then seq(P, _ => [])
    else
      var front := Deal(xs[..|xs| - 1], P);
      var j := (|xs| - 1) % P;
      front[j := front[j] + [xs[|xs| - 1]]]
  }

  /** `SelectMany(x => x)` over a list of lists. */
  function Concat<T>(xss: seq<seq<T>>): seq<T>
    decreases |xss|
  {
    if xss == [] then [] else Concat(xss[..|xss| - 1]) + xss[|xss| - 1]
  }

  /** How many of candidates 0 .. n - 1 go to queue `i`. */
  function Slots(n: nat, i: nat, P: nat): nat
    requires P >= 1
  {
    if n == 0 then 0 else Slots(n - 1, i, P) + (if (n - 1) % P == i then 1 else 0)
  }

  /** Queue `i` holds exactly the candidates whose index is `i` modulo P, in their original order:
      candidate `k` sits in queue `k % P` behind the earlier candidates dealt there. */
  lemma {:induction false} DealOrder<T>(xs: seq<T>, P: nat)
    requires P >= 1
    ensures forall i :: 0 <= i < P ==> |Deal(xs, P)[i]| == Slots(|xs|, i, P)
    ensures forall k :: 0 <= k < |xs| ==>
      Slots(k, k % P, P) < |Deal(xs, P)[k % P]| && Deal(xs, P)[k % P][Slots(k, k % P, P)] == xs[k]
    decreases |xs|
  {
    var D := Deal(xs, P);
    if xs != [] {
      var n := |xs| - 1;
      var front := xs[..n];
      var F := Deal(front, P);
      DealOrder(front, P);
      var j := n % P;
      assert D == F[j := F[j] + [xs[n]]];
      forall k | 0 <= k < |xs|
        ensures Slots(k, k % P, P) < |D[k % P]| && D[k % P][Slots(k, k % P, P)] == xs[k]
      {
        if k < n {
          assert front[k] == xs[k];
        }
      }
    }
  }

  /** Every queue holds candidates only. */
  lemma {:induction false} DealMembers<T>(xs: seq<T>, P: nat)
    requires P >= 1
    ensures forall i, x :: 0 <= i < P && x in Deal(xs, P)[i] ==> x in xs
    decreases |xs|
  {
    if xs != [] {
      var n := |xs| - 1;
      DealMembers(xs[..n], P);
      assert forall y :: y in xs[..n] ==> y in xs;
    }
  }

  /** Appending to one list appends to the concatenation, up to order. */
  lemma {:induction false} ConcatUpdate<T>(F: seq<seq<T>>, j: nat, e: seq<T>)
    requires j < |F|
    ensures multiset(Concat(F[j := F[j] + e])) == multiset(Concat(F)) + multiset(e)
    decreases |F|
  {
    var t := |F| - 1;
    var G := F[j := F[j] + e];
    assert Concat(G) == Concat(G[..t]) + G[t];
    assert Concat(F) == Concat(F[..t]) + F[t];
    if j == t {
      assert G[..t] == F[..t];
      assert multiset(F[t] + e) == multiset(F[t]) + multiset(e);
    } else {
      assert G[..t] == F[..t][j := F[j] + e];
      ConcatUpdate(F[..t], j, e);
    }
  }

  lemma {:induction false} ConcatEmpty<T>(D: seq<seq<T>>, m: nat)
    requires m <= |D| && forall i :: 0 <= i < |D| ==> D[i] == []
    ensures Concat(D[..m]) == []
    decreases m
  {
    if m > 0 {
      assert D[..m][..m - 1] == D[..m - 1];
      ConcatEmpty(D, m - 1);
    }
  }

  /** The queues partition the candidates. */
  lemma {:induction false} DealPartition<T>(xs: seq<T>, P: nat)
    requires P >= 1
    ensures multiset(Concat(Deal(xs, P))) == multiset(xs)
    decreases |xs|
  {
    if xs == [] {
      var D := Deal(xs, P);
      ConcatEmpty(D, P);
      assert D[..P] == D;
    } else {
      var n := |xs| - 1;
      var F := Deal(xs[..n], P);
      assert Deal(xs, P) == F[n % P := F[n % P] + [xs[n]]];
      DealPartition(xs[..n], P);
      ConcatUpdate(F, n % P, [xs[n]]);
      LastSplit(xs);
      assert multiset(xs) == multiset(xs[..n]) + multiset([xs[n]]);
    }
  }

  /** The search of each queue, as the loop of lines 117-120 runs it one queue after another. */
  ghost function Searched(root: Prefix, size: nat, s: Contents, D: seq<seq<string>>, checked: bool): (r: seq<seq<seq<string>>>)
    requires size >= 1 && Shape(s, size) && forall i :: 0 <= i < |D| ==> RowsOf(D[i], size)
    ensures |r| == |D| && forall i :: 0 <= i < |D| ==> r[i] == Solutions(root, size, s, D[i], [], checked)
  {
    seq(|D|, i requires 0 <= i < |D| => Solutions(root, size, s, D[i], [], checked))
  }

  /** One more candidate on queue `j` adds its boards to that queue's search. */
  lemma SearchedUpdate(root: Prefix, size: nat, s: Contents, F: seq<seq<string>>, j: nat, x: string, checked: bool)
    requires size >= 1 && Shape(s, size) && forall i :: 0 <= i < |F| ==> RowsOf(F[i], size)
    requires j < |F| && |x| == size
    ensures var G := F[j := F[j] + [x]];
      && (forall i :: 0 <= i < |G| ==> RowsOf(G[i], size))
      && Searched(root, size, s, G, checked)
         == Searched(root, size, s, F, checked)[j := Searched(root, size, s, F, checked)[j] + Solutions(root, size, s, [x], [], checked)]
  {
    var G := F[j := F[j] + [x]];
    assert RowsOf([x], size);
    SolutionsConcat(root, size, s, F[j], [x], [], checked);
  }

  /** Searching the dealt queues one by one and concatenating finds the same boards as searching
      all candidates at once, up to order. */
  lemma {:induction false} DealSearched(root: Prefix, size: nat, s: Contents, xs: seq<string>, P: nat, checked: bool)
    requires Frame(size, s, [], xs) && P >= 1
    ensures forall i :: 0 <= i < P ==> RowsOf(Deal(xs, P)[i], size)
    ensures multiset(Concat(Searched(root, size, s, Deal(xs, P), checked))) == multiset(Solutions(root, size, s, xs, [], checked))
    decreases |xs|
  {
    DealMembers(xs, P);
    if xs == [] {
      var A := Searched(root, size, s, Deal(xs, P), checked);
      ConcatEmpty(A, P);
      assert A[..P] == A;
    } else {
      var n := |xs| - 1;
      assert RowsOf(xs[..n], size);
      DealSearched(root, size, s, xs[..n], P, checked);
      DealSearchedStep(root, size, s, xs, P, checked);
    }
  }

  /** The step of DealSearched: the last candidate joins queue `(|xs| - 1) % P`. */
  lemma DealSearchedStep(root: Prefix, size: nat, s: Contents, xs: seq<string>, P: nat, checked: bool)
    requires Frame(size, s, [], xs) && P >= 1 && xs != []
    requires forall i :: 0 <= i < P ==> RowsOf(Deal(xs, P)[i], size)
    requires var front := xs[..|xs| - 1];
      && (forall i :: 0 <= i < P ==> RowsOf(Deal(front, P)[i], size))
      && multiset(Concat(Searched(root, size, s, Deal(front, P), checked))) == multiset(Solutions(root, size, s, front, [], checked))
    ensures multiset(Concat(Searched(root, size, s, Deal(xs, P), checked))) == multiset(Solutions(root, size, s, xs, [], checked))
  {
    var n := |xs| - 1;
    var front, x := xs[..n], xs[n];
    assert RowsOf(front, size) && RowsOf([x], size);
    var F := Deal(front, P);
    var j := n % P;
    assert Deal(xs, P) == F[j := F[j] + [x]];
    SearchedUpdate(root, size, s, F, j, x, checked);
    var A := Searched(root, size, s, F, checked);
    var Sx := Solutions(root, size, s, [x], [], checked);
    assert Searched(root, size, s, Deal(xs, P), checked) == A[j := A[j] + Sx];
    ConcatUpdate(A, j, Sx);
    assert multiset(Concat(Searched(root, size, s, Deal(xs, P), checked)))
        == multiset(Solutions(root, size, s, front, [], checked)) + multiset(Sx);
    SolutionsConcat(root, size, s, front, [x], [], checked);
    LastSplit(xs);
  }
}
