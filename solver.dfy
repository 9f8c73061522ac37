/** The Solver class of WordGrid/Solver.cs: the dictionary it loads and the searches that fill a
    board from it. */
module Solvers {
  import opened Common
  import opened Lex
  import opened Tries
  import opened Boards
  import opened Dictionary
  import opened Exploring
  import opened RowSearch
  import opened Search

  /** `Keys.DefaultIfEmpty(-1).Max()` of line 247 over the keys of a constraint map. */
  method DeepestKey(constraints: Option<map<int, char>>) returns (m: int)
    ensures m == MaxKey(constraints)
  {
    if constraints.None? {
      return -1;
    }
    var K := constraints.value;
    m := -1;
    var seen := false;
    var ks := K.Keys;
    while ks != {}
      invariant ks <= K.Keys
      invariant seen <==> ks != K.Keys
      invariant !seen ==> m == -1
      invariant seen ==> m in K && forall k :: k in K && k !in ks ==> k <= m
      decreases |ks|
    {
      assert (forall x :: x !in ks) ==> ks == {};
      var k :| k in ks;
      if !seen || k > m {
        m := k;
      }
      seen := true;
      ks := ks - {k};
    }
    if seen {
      var top := MaxKey(constraints);
      assert top <= m && m <= top;
    } else {
      assert forall k :: k !in K;
      assert K == map[];
    }
  }

  /** The while loop of lines 256-292 for one child letter `c` of `node`, at depth `d`: whether
      the search reaches the deepest preset `m` with its letter available. */
  method SearchLetter(K: map<int, char>, m: int, node: Prefix, c: char, d: int) returns (found: bool)
    ensures found == Explore(K, m, node, [c], d)
  {
    var stack: seq<seq<char>> := [[c]];
    var nodes: seq<Prefix> := [node];
    SearchStart(K, m, node, c, d);
    while |stack| > 0
      invariant Searching(K, m, node, c, d, stack, nodes)
      decreases Exploring.Measure(K, m, stack, nodes, d)
    {
      var t := |stack| - 1;
      var cs := stack[t];
      var n := nodes[t];
      var depth := d + |stack| - 1;
      var nextNode: Option<Prefix> := None;
      ghost var hit, letter := depth in K && K[depth] in cs, c;
      if depth in K && K[depth] in cs {
        if depth >= m {
          SearchHit(K, m, node, c, d, stack, nodes);
          return true;
        }
        letter := K[depth];
        nextNode := TryGetValue(n, K[depth]);
      } else if |cs| > 0 {
        letter := cs[0];
        nextNode := TryGetValue(n, cs[0]);
      }
      assert !(hit && depth >= m);
      assert hit ==> letter == K[depth] && nextNode == TryGetValue(n, letter);
      assert !hit ==> nextNode == if cs != [] then TryGetValue(n, cs[0]) else None;
      assert !hit && cs != [] ==> letter == cs[0];
      if nextNode.Some? && |nextNode.value.next| > 0 {
        SearchPush(K, m, node, c, d, stack, nodes, hit, letter, nextNode.value);
        stack := stack + [ChildChars(nextNode.value)];
        nodes := nodes + [nextNode.value];
      } else {
        SearchPop(K, m, node, c, d, stack, nodes, hit, nextNode);
        stack := DropHead(stack[..t]);
        nodes := nodes[..t];
      }
    }
    SearchDone(K, m, node, c, d);
    return false;
  }

  class Solver {
    /** The length of the words loaded. */
    var size: int
    /** The prefix tree of the loaded words. */
    var root: Prefix
    /** The loaded words, in file order, duplicates included. */
    var words: seq<string>
    /** Whether Initialize has run; before it `_root` and `_words` are null. */
    var loaded: bool

    ghost predicate Valid()
      reads this
    {
      && root == Build(words)
      && (forall w :: w in words ==> IsWord(w, size))
      && (!loaded ==> size == 0 && words == [])
    }

    /** `new Solver()`: size 0 and no dictionary yet. */
    constructor ()
      ensures Valid() && !loaded && size == 0 && words == []
    {
      size := 0;
      root := EmptyRoot;
      words := [];
      loaded := false;
    }

    /** Initialize over the lines of the file: the kept lines, trimmed and lower-cased, become the
        word list and the paths of a fresh tree. */
    method Initialize(lines: seq<string>, size: int)
      modifies this
      ensures Valid() && loaded && this.size == size
      ensures words == Kept(lines, size)
    {
      root := EmptyRoot;
      this.size := size;
      words := [];
      loaded := true;
      for i := 0 to |lines|
        invariant this.size == size && loaded
        invariant words == Kept(lines[..i], size) && root == Build(words)
      {
        assert lines[..i + 1][..i] == lines[..i];
        var stripped := Stripped(lines[i]);
        if IsWord(stripped, size) {
          assert (words + [stripped])[..|words|] == words;
          words := words + [stripped];
          root := InsertWord(root, stripped);
        }
      }
      assert lines[..|lines|] == lines;
    }

    /** Count: the number of kept lines; `_words` is null before Initialize. */
    function Count(): (r: Result<int>)
      reads this
      ensures r.Ok? <==> loaded
      ensures r.Ok? ==> r.value == |words|
    {
      if loaded then Ok(|words|) else Err(NullReference)
    }

    /** Contains: the word has the solver's size and was loaded; every string of size 0, once the
        solver has been initialized for size 0, since FindNode of "" is the root. */
    function Contains(word: string): (r: bool)
      reads this
      requires Valid()
      ensures r <==> loaded && |word| == size && (size == 0 || word in words)
    {
      if |word| != size then false
      else if !loaded then false
      else
        LoadedWord(words, size, word);
        Find(root, word).Some?
    }

    /** FindNode: the node spelled by `prefix`, if any. Before Initialize the root is null, so the
        empty prefix gives null and any other prefix dereferences it. */
    method FindNode(prefix: string) returns (r: Result<Option<Prefix>>)
      requires Valid()
      ensures !loaded ==> r == if prefix == [] then Ok(None) else Err(NullReference)
      ensures loaded ==> r == Ok(Find(root, prefix))
    {
      if !loaded {
        if prefix == [] {
          return Ok(None);
        }
        return Err(NullReference);
      }
      var node := root;
      for i := 0 to |prefix|
        invariant Find(root, prefix[..i]) == Some(node)
      {
        FindSnoc(root, prefix[..i], prefix[i]);
        assert prefix[..i + 1] == prefix[..i] + [prefix[i]];
        var next := TryGetValue(node, prefix[i]);
        if next.None? {
          NoFindBeyond(root, prefix, i + 1);
          return Ok(None);
        }
        node := next.value;
      }
      assert prefix[..|prefix|] == prefix;
      return Ok(Some(node));
    }

    /** FindNextLetters: the letters that may follow `prefix` in its column under the column's
        presets `constraints` (None for no constraints). */
    method FindNextLetters(prefix: string, constraints: Option<map<int, char>>) returns (r: Result<seq<char>>)
      requires Valid()
      ensures !loaded ==> r == if prefix == [] then Ok([]) else Err(NullReference)
      ensures loaded ==> r == Ok(NextLetters(root, prefix, constraints))
    {
      var found := FindNode(prefix);
      if found.Err? {
        return Err(found.error);
      }
      if found.value.None? {
        return Ok([]);
      }
      var pn := found.value.value;
      var maxDepth := DeepestKey(constraints);
      if constraints.None? || maxDepth < |prefix| {
        return Ok(ChildChars(pn));
      }
      var K := constraints.value;
      var cs := ChildChars(pn);
      var letters: seq<char> := [];
      for i := 0 to |cs|
        invariant letters == Keep(K, maxDepth, pn, cs[..i], |prefix|)
      {
        assert cs[..i + 1][..i] == cs[..i];
        var hit := SearchLetter(K, maxDepth, pn, cs[i], |prefix|);
        if hit {
          letters := letters + [cs[i]];
        }
      }
      assert cs[..|cs|] == cs;
      return Ok(letters);
    }

    /** Lines 176-190 for one column: a column preset in the row allows its preset letter,
        unchecked; any other column allows the next letters of its prefix under the column's
        presets. None ends the search. */
    method ColumnSet(rowK: map<int, char>, colK: map<int, char>, prefix: string, i: nat) returns (r: Option<seq<char>>)
      requires Valid() && loaded
      ensures r == ColumnLetters(root, rowK, colK, prefix, i, false)
    {
      if i in rowK {
        return Some([rowK[i]]);
      }
      var letters := FindNextLetters(prefix, Some(colK));
      if letters.value == [] {
        return None;
      }
      return Some(letters.value);
    }

    /** Lines 171-190: the letters each column allows in the row after `rows`, or None as soon as
        one column allows none. */
    method ColumnSets(board: Board, rows: seq<string>) returns (r: Option<seq<seq<char>>>)
      requires Valid() && loaded && board.Valid() && board.size == size
      requires |rows| < size && RowsOf(rows, size)
      ensures r == Gate(ColumnRules(root, size, board.Model().rows[|rows|], board.Model().columns, rows, false))
    {
      ghost var s := board.Model();
      var rowK := board.GetRowConstraints(|rows|).value;
      assert rowK == s.rows[|rows|];
      ghost var rules := ColumnRules(root, size, rowK, s.columns, rows, false);
      var nextLetters: seq<seq<char>> := [];
      assert rules[..0] == [];
      for i := 0 to size
        invariant Gate(rules[..i]) == Some(nextLetters)
      {
        var colK := board.GetColumnConstraints(i).value;
        assert colK == s.columns[i];
        var letters := ColumnSet(rowK, colK, ColumnPrefix(rows, i), i);
        if letters.None? {
          GateColumns(rules);
          return None;
        }
        GateStep(rules, i);
        nextLetters := nextLetters + [letters.value];
      }
      assert rules[..size] == rules;
      return Some(nextLetters);
    }

    /** Lines 192-229: the walk from the root over column 0's letters, with the builder, the
        stack of letter queues and the stack of nodes kept in step. */
    method WalkRow(nextLetters: seq<seq<char>>, rows: seq<string>) returns (found: seq<string>)
      requires Valid() && loaded && |nextLetters| == size >= 1
      ensures found == RowEnum(size, nextLetters, rows, root, nextLetters[0], [])
    {
      ghost var NL := nextLetters;
      var builder: string := [];
      var stack: seq<seq<char>> := [nextLetters[0]];
      var nodes: seq<Prefix> := [root];
      found := [];
      WalkStart(root, size, NL, rows);
      while |stack| > 0
        invariant Walk(root, size, NL, rows, found, stack, nodes, builder)
        decreases RowSum(size, NL, stack, nodes, builder)
      {
        var t := |stack| - 1;
        var cs := stack[t];
        var node := nodes[t];
        ghost var S, N, b, found0 := stack, nodes, builder, found;
        if |cs| > 0 {
          var c := cs[0];
          var nextNode := TryGetValue(node, c);
          if nextNode.None? || |builder| + 1 == size {
            WalkDequeue(root, size, NL, rows, found0, S, N, b);
            stack := stack[t := cs[1..]];
            if nextNode.Some? {
              var text := builder + [c];
              if text !in rows {
                found := found + [text];
              }
            }
            assert found == found0 + (if nextNode.None? || b + [c] in rows then [] else [b + [c]]);
            assert Walk(root, size, NL, rows, found, stack, nodes, builder);
          } else {
            stack, nodes, builder := Descend(nextLetters, rows, found, stack, nodes, builder, nextNode.value);
          }
        } else {
          WalkPop(root, size, NL, rows, found0, S, N, b);
          stack := stack[..t];
          nodes := nodes[..t];
          builder := if |builder| > 0 then builder[..|builder| - 1] else builder;
          assert Walk(root, size, NL, rows, found, stack, nodes, builder);
        }
      }
      WalkDone(root, size, NL, rows, found, builder);
    }

    /** One step of WalkRow: the top queue's head `c` leads to child `m` below the last column; the
        builder takes `c`, and a frame for `m` is pushed holding the letters of the next column
        that `m` has. */
    method Descend(nextLetters: seq<seq<char>>, rows: seq<string>, found: seq<string>,
                   stack: seq<seq<char>>, nodes: seq<Prefix>, builder: string, m: Prefix)
      returns (stack': seq<seq<char>>, nodes': seq<Prefix>, builder': string)
      requires Valid() && loaded && size >= 1 && Walk(root, size, nextLetters, rows, found, stack, nodes, builder)
      requires stack != [] && |builder| + 1 < size
      requires var t := |stack| - 1; stack[t] != [] && TryGetValue(nodes[t], stack[t][0]) == Some(m)
      ensures Walk(root, size, nextLetters, rows, found, stack', nodes', builder')
      ensures RowSum(size, nextLetters, stack', nodes', builder') < RowSum(size, nextLetters, stack, nodes, builder)
    {
      var t := |stack| - 1;
      var cs := stack[t];
      var c := cs[0];
      WalkPush(root, size, nextLetters, rows, found, stack, nodes, builder, m);
      ghost var pushed := stack[t := cs[1..]] + [Intersect(nextLetters[|builder| + 1], ChildChars(m))];
      assert Find(root, builder + [c]) == Some(m);
      builder' := builder + [c];
      var more := FindNextLetters(builder', None);
      assert NextLetters(root, builder', None) == ChildChars(m);
      stack' := stack[t := cs[1..]] + [Intersect(nextLetters[|builder'|], more.value)];
      assert stack' == pushed;
      nodes' := nodes + [m];
    }

    /** FindRowSolutions for the row after `rows` (the row index both callers pass is the number of
        rows), with preset letters taken unchecked as the source does: the words that may fill
        that row, in ascending order. */
    method FindRowSolutions(board: Board, rows: seq<string>) returns (found: seq<string>)
      requires Valid() && size >= 1 && board.Valid() && board.size == size
      requires |rows| < size && RowsOf(rows, size)
      ensures found == RowSolutions(root, size, board.Model(), rows, false)
    {
      var sets := ColumnSets(board, rows);
      if sets.None? {
        return [];
      }
      found := WalkRow(sets.value, rows);
    }

    /** ProcessSolutions: the boards searched from `initial` as first-row candidates, each given
        by its rows. */
    method ProcessSolutions(board: Board, initial: seq<string>) returns (solutions: seq<seq<string>>)
      requires Valid() && size >= 1 && board.Valid() && board.size == size && RowsOf(initial, size)
      ensures solutions == Solutions(root, size, board.Model(), initial, [], false)
    {
      ghost var s := board.Model();
      var rows: seq<string> := [];
      var stack: seq<seq<string>> := [initial];
      solutions := [];
      MachineStart(root, size, s, initial, false);
      while |stack| > 0
        invariant Machine(root, size, s, initial, solutions, stack, rows, false)
        decreases Search.Measure(root, size, s, stack, rows, false)
      {
        var t := |stack| - 1;
        ghost var S, R := stack, rows;
        if |stack[t]| > 0 {
          var w := stack[t][0];
          stack := stack[t := stack[t][1..]];
          rows := rows + [w];
          if |rows| >= size {
            MachineFull(root, size, s, initial, solutions, S, R, false);
            ghost var sol0, yielded := solutions, if Disjoint(rows) then [rows] else [];
            var keep := DisjointBoard(rows);
            if keep {
              solutions := solutions + [rows];
            }
            assert solutions == sol0 + yielded;
            rows := rows[..|rows| - 1];
            assert rows == R;
            assert Machine(root, size, s, initial, solutions, stack, rows, false);
          } else {
            MachinePush(root, size, s, initial, solutions, S, R, false);
            var next := FindRowSolutions(board, rows);
            assert next == RowSolutions(root, size, s, rows, false);
            stack := stack + [next];
            assert Machine(root, size, s, initial, solutions, stack, rows, false);
          }
        } else {
          MachinePop(root, size, s, initial, solutions, S, R, false);
          stack := stack[..t];
          if |rows| > 0 {
            rows := rows[..|rows| - 1];
          }
          assert Machine(root, size, s, initial, solutions, stack, rows, false);
        }
      }
      MachineDone(root, size, s, initial, solutions, rows, false);
    }

    /** FindSolutions: every board whose rows are candidates row by row and whose rows and columns
        are disjoint. Each row is a loaded word, and so is each column, except one whose cell in
        the last row is preset: the preset letter is taken unchecked. On a board without presets
        the result is that of the corrected search. */
    method FindSolutions(board: Board) returns (solutions: seq<seq<string>>)
      requires Valid() && size >= 1 && board.Valid() && board.size == size
      ensures RowsOf(RowSolutions(root, size, board.Model(), [], false), size)
      ensures solutions == Solutions(root, size, board.Model(), RowSolutions(root, size, board.Model(), [], false), [], false)
      ensures forall sol :: sol in solutions ==> Solved(root, size, board.Model(), sol, false)
      ensures forall sol :: sol in solutions ==> Grid(words, size, board.Model(), sol, false)
      ensures RowsOf(RowSolutions(root, size, board.Model(), [], true), size)
      ensures (forall r :: 0 <= r < size ==> board.Model().rows[r] == map[]) ==>
        solutions == Solutions(root, size, board.Model(), RowSolutions(root, size, board.Model(), [], true), [], true)
    {
      ghost var s := board.Model();
      var initial := FindRowSolutions(board, []);
      RowSolutionsLengths(root, size, s, [], false);
      RowSolutionsLengths(root, size, s, [], true);
      solutions := ProcessSolutions(board, initial);
      BuildPaths(words, []);
      forall sol | sol in solutions ensures Solved(root, size, s, sol, false) {
        SearchSound(root, size, s, sol, false);
      }
      SolutionsWords(words, size, s, solutions, false);
      if forall r :: 0 <= r < size ==> s.rows[r] == map[] {
        NoPresetsAlike(root, size, s, []);
        SearchAlike(root, size, s, initial, []);
      }
    }

    /** FindAllSolutions with `cores` queues searched one after another: the first-row candidates
        are dealt round-robin, and the boards of the queues are concatenated. */
    method FindAllSolutions(board: Board, cores: int) returns (all: seq<seq<string>>)
      requires Valid() && size >= 1 && board.Valid() && board.size == size && cores >= 1
      ensures var first := RowSolutions(root, size, board.Model(), [], false);
        && RowsOf(first, size)
        && (forall i :: 0 <= i < cores ==> RowsOf(Deal(first, cores)[i], size))
        && all == Concat(Searched(root, size, board.Model(), Deal(first, cores), false))
        && multiset(all) == multiset(Solutions(root, size, board.Model(), first, [], false))
    {
      ghost var s := board.Model();
      var first := FindRowSolutions(board, []);
      RowSolutionsLengths(root, size, s, [], false);
      DealSearched(root, size, s, first, cores, false);
      var queues := DealQueues(first, cores);
      var results := SearchQueues(board, queues);
      all := Flatten(results);
    }

    /** Lines 117-120, one queue after another: each queue searched by ProcessSolutions. */
    method SearchQueues(board: Board, queues: array<seq<string>>) returns (results: array<seq<seq<string>>>)
      requires Valid() && size >= 1 && board.Valid() && board.size == size
      requires forall i :: 0 <= i < queues.Length ==> RowsOf(queues[i], size)
      ensures fresh(results) && results[..] == Searched(root, size, board.Model(), queues[..], false)
    {
      ghost var s, Q := board.Model(), queues[..];
      ghost var R := Searched(root, size, s, Q, false);
      results := new seq<seq<string>>[queues.Length](_ => []);
      for i := 0 to queues.Length
        invariant results[..i] == R[..i]
      {
        var found := ProcessSolutions(board, queues[i]);
        assert found == R[i];
        PrefixSnoc(R, i);
        results[i] := found;
        assert results[..i + 1] == results[..i] + [found];
      }
      assert results[..] == results[..queues.Length];
    }
  }

  /** Line 121: the result lists concatenated in queue order. */
  method Flatten(results: array<seq<seq<string>>>) returns (all: seq<seq<string>>)
    ensures all == Concat(results[..])
  {
    all := [];
    for i := 0 to results.Length
      invariant all == Concat(results[..i])
    {
      assert results[..i + 1][..i] == results[..i];
      all := all + results[i];
    }
    assert results[..results.Length] == results[..];
  }

  /** The test ProcessSolutions applies to a full board: the rows are loaded into a fresh board and
      no row may equal a column. */
  method DisjointBoard(rows: seq<string>) returns (keep: bool)
    requires Square(rows, |rows|)
    ensures keep == Disjoint(rows)
  {
    var made := Board.FromRows(rows);
    assert made.Ok?;
    var solved := made.value;
    var rs, cols := solved.Rows(), solved.Columns();
    assert rs == rows;
    keep := forall x :: x in rs ==> x !in cols;
  }

  /** Lines 102-115: the first-row candidates dealt round-robin onto `cores` queues. */
  method DealQueues(first: seq<string>, cores: int) returns (queues: array<seq<string>>)
    requires cores >= 1
    ensures fresh(queues) && queues[..] == Deal(first, cores)
  {
    queues := new seq<string>[cores](_ => []);
    var core := 0;
    assert queues[..] == Deal(first[..0], cores);
    for k := 0 to |first|
      invariant queues[..] == Deal(first[..k], cores)
      invariant core == k % cores
    {
      assert first[..k + 1][..k] == first[..k];
      queues[core] := queues[core] + [first[k]];
      NextCore(k, cores);
      core := (core + 1) % cores;
    }
    assert first[..|first|] == first;
  }

  /** A multiple of a positive number strictly between its negation and itself is zero. */
  lemma SmallMultiple(P: int, d: int)
    requires P >= 1 && -P < P * d < P
    ensures d == 0
  {
  }

  /** The remainder is determined by any quotient-and-remainder decomposition. */
  lemma ModUnique(n: int, P: int, q: int, r: int)
    requires P >= 1 && 0 <= r < P && n == P * q + r
    ensures n % P == r
  {
    var q0, r0 := n / P, n % P;
    assert P * (q0 - q) == r - r0 by {
      assert n == P * q0 + r0;
    }
    SmallMultiple(P, q0 - q);
  }

  /** The round-robin counter steps on with the candidate index. */
  lemma NextCore(k: nat, P: nat)
    requires P >= 1
    ensures (k % P + 1) % P == (k + 1) % P
  {
    var q, r := k / P, k % P;
    assert k + 1 == P * q + (r + 1);
    if r + 1 < P {
      ModUnique(k + 1, P, q, r + 1);
      ModUnique(r + 1, P, 0, r + 1);
    } else {
      ModUnique(k + 1, P, q + 1, 0);
      ModUnique(r + 1, P, 1, 0);
    }
  }

  /** A prefix some initial part of which the tree cannot spell cannot be spelled either. */
  lemma NoFindBeyond(root: Prefix, p: string, k: nat)
    requires k <= |p| && Find(root, p[..k]).None?
    ensures Find(root, p).None?
  {
    if Find(root, p).Some? {
      FindPrefix(root, p, k);
    }
  }

  /** A full board whose rows are words of the list, and whose columns are too, except, as
      written, a column whose cell in the last row is preset. */
  ghost predicate Grid(ws: seq<string>, size: nat, s: Contents, sol: seq<string>, checked: bool)
    requires |s.rows| == size
  {
    && Square(sol, size)
    && (forall r :: 0 <= r < size ==> sol[r] in ws)
    && (forall i :: 0 <= i < size ==> Transpose(sol)[i] in ws || (!checked && i in s.rows[size - 1]))
  }

  /** On the tree of a word list, a solved board is made of the list's words, as far as its columns
      are spelled in the tree. */
  lemma SolutionsWords(ws: seq<string>, size: nat, s: Contents, solutions: seq<seq<string>>, checked: bool)
    requires size >= 1 && Shape(s, size) && forall v :: v in ws ==> IsWord(v, size)
    requires forall sol :: sol in solutions ==> Solved(Build(ws), size, s, sol, checked)
    ensures forall sol :: sol in solutions ==> Grid(ws, size, s, sol, checked)
  {
    forall sol | sol in solutions ensures Grid(ws, size, s, sol, checked) {
      SolvedWords(ws, size, s, sol, checked);
    }
  }

  lemma SolvedWords(ws: seq<string>, size: nat, s: Contents, sol: seq<string>, checked: bool)
    requires size >= 1 && Shape(s, size) && forall v :: v in ws ==> IsWord(v, size)
    requires Solved(Build(ws), size, s, sol, checked)
    ensures Grid(ws, size, s, sol, checked)
  {
    forall r | 0 <= r < size ensures sol[r] in ws {
      LoadedWord(ws, size, sol[r]);
    }
    var cols := Transpose(sol);
    forall i | 0 <= i < size ensures cols[i] in ws || (!checked && i in s.rows[size - 1]) {
      if checked || i !in s.rows[size - 1] {
        assert Find(Build(ws), cols[i]).Some?;
        LoadedWord(ws, size, cols[i]);
      }
    }
  }

}
