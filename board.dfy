/** The word-grid board of WordGrid/Board.cs: an N-by-N grid of characters plus, per row and per
    column, a sparse map from position to the preset letter there. */
module Boards {
  import opened Common
  import opened Lex

  // ---------------------------------------------------------------------------------------------
  // The board's contents as a value.

  /** Everything a board holds: the rows of its grid, its row constraint maps (column -> letter)
      and its column constraint maps (row -> letter). */
  datatype Contents = Contents(grid: seq<string>, rows: seq<map<int, char>>, columns: seq<map<int, char>>)

  /** `g` is an n-by-n grid. */
  predicate Square(g: seq<string>, n: nat) {
    |g| == n && forall i :: 0 <= i < n ==> |g[i]| == n
  }

  predicate Shape(s: Contents, n: nat) {
    Square(s.grid, n) && |s.rows| == n && |s.columns| == n
  }

  /** The characters a cell may be set to. */
  predicate IsCellChar(c: char) {
    c == ' ' || 'a' <= c <= 'z'
  }

  /** The constraint maps agree with the grid and with each other: row map `r` holds `k` exactly
      when column map `k` holds `r`, and both give the letter in cell (r, k), which is a-z. */
  ghost predicate Consistent(s: Contents, n: nat) {
    && Shape(s, n)
    && (forall r, k {:trigger k in s.rows[r]} :: 0 <= r < n && k in s.rows[r] ==>
          0 <= k < n && r in s.columns[k] && s.rows[r][k] == s.grid[r][k] && 'a' <= s.grid[r][k] <= 'z')
    && (forall c, k {:trigger k in s.columns[c]} :: 0 <= c < n && k in s.columns[c] ==>
          0 <= k < n && c in s.rows[k] && s.columns[c][k] == s.grid[k][c])
  }

  /** `n` empty constraint maps. */
  function NoConstraints(n: nat): (r: seq<map<int, char>>)
    ensures |r| == n && forall i :: 0 <= i < n ==> r[i] == map[]
  {
    seq(n, _ => map[])
  }

  /** An n-by-n grid holding `ch` in every cell. */
  function Filled(n: nat, ch: char): (g: seq<string>)
    ensures Square(g, n) && forall i, j :: 0 <= i < n && 0 <= j < n ==> g[i][j] == ch
  {
    seq(n, _ => seq(n, _ => ch))
  }

  /** The columns of a square grid, each read top to bottom. */
  function Transpose(g: seq<string>): (t: seq<string>)
    requires Square(g, |g|)
    ensures Square(t, |g|) && forall i, j :: 0 <= i < |g| && 0 <= j < |g| ==> t[i][j] == g[j][i]
  {
    seq(|g|, i requires 0 <= i < |g| => seq(|g|, j requires 0 <= j < |g| => g[j][i]))
  }

  lemma TransposeTwice(g: seq<string>)
    requires Square(g, |g|)
    ensures Transpose(Transpose(g)) == g
  {
    var t := Transpose(Transpose(g));
    assert forall i :: 0 <= i < |g| ==> t[i] == g[i];
  }

  /** A constraint map after a cell write: a space removes the position, a letter records it. */
  function Placed(m: map<int, char>, k: int, c: char): (r: map<int, char>)
    ensures c == ' ' ==> k !in r
    ensures c != ' ' ==> k in r && r[k] == c
    ensures forall j :: j != k ==> (j in r <==> j in m) && (j in m ==> r[j] == m[j])
  {
    if c == ' ' then m - {k} else m[k := c]
  }

  // ---------------------------------------------------------------------------------------------
  // Writes, as functions from the old contents to the outcome and the new contents.

  /** SetCell: lower-case, check row, check column, check the character, then write the cell and
      both constraint maps. */
  function WriteCell(s: Contents, n: nat, row: int, col: int, x: char): (r: (Outcome, Contents))
    requires Shape(s, n)
    ensures Shape(r.1, n)
    ensures r.0 == Fail(IndexOutOfRange) <==> !(0 <= row < n && 0 <= col < n)
    ensures r.0 == Fail(ArgumentOutOfRange) <==> 0 <= row < n && 0 <= col < n && !IsCellChar(Lower(x))
    ensures r.0.Pass? || r.0 == Fail(IndexOutOfRange) || r.0 == Fail(ArgumentOutOfRange)
    ensures r.0.Fail? ==> r.1 == s
  {
    var c := Lower(x);
    if !(0 <= row < n) then (Fail(IndexOutOfRange), s)
    else if !(0 <= col < n) then (Fail(IndexOutOfRange), s)
    else if !IsCellChar(c) then (Fail(ArgumentOutOfRange), s)
    else
      (Pass, Contents(s.grid[row := s.grid[row][col := c]],
                      s.rows[row := Placed(s.rows[row], col, c)],
                      s.columns[col := Placed(s.columns[col], row, c)]))
  }

  /** A successful cell write changes that cell and the two maps that index it, and nothing else. */
  lemma WriteCellEffect(s: Contents, n: nat, row: int, col: int, x: char)
    requires Shape(s, n) && WriteCell(s, n, row, col, x).0 == Pass
    ensures var t := WriteCell(s, n, row, col, x).1;
      && (forall i, j :: 0 <= i < n && 0 <= j < n ==>
            t.grid[i][j] == if i == row && j == col then Lower(x) else s.grid[i][j])
      && (forall i :: 0 <= i < n && i != row ==> t.rows[i] == s.rows[i])
      && (forall j :: 0 <= j < n && j != col ==> t.columns[j] == s.columns[j])
      && (forall j :: j != col ==> (j in t.rows[row] <==> j in s.rows[row]))
      && (forall j :: j != row ==> (j in t.columns[col] <==> j in s.columns[col]))
      && (Lower(x) == ' ' ==> col !in t.rows[row] && row !in t.columns[col])
      && (Lower(x) != ' ' ==>
            && col in t.rows[row] && t.rows[row][col] == Lower(x)
            && row in t.columns[col] && t.columns[col][row] == Lower(x))
  {
  }

  /** Cell writes keep the constraint maps mirror images of each other and true to the grid. */
  lemma WriteCellConsistent(s: Contents, n: nat, row: int, col: int, x: char)
    requires Consistent(s, n)
    ensures Consistent(WriteCell(s, n, row, col, x).1, n)
  {
    var t := WriteCell(s, n, row, col, x).1;
    if WriteCell(s, n, row, col, x).0 == Pass {
      var c := Lower(x);
      assert t.grid == s.grid[row := s.grid[row][col := c]];
      assert t.rows == s.rows[row := Placed(s.rows[row], col, c)];
      assert t.columns == s.columns[col := Placed(s.columns[col], row, c)];
      forall r, k | 0 <= r < n && k in t.rows[r]
        ensures 0 <= k < n && r in t.columns[k] && t.rows[r][k] == t.grid[r][k] && 'a' <= t.grid[r][k] <= 'z'
      {
        if r == row && k == col {
          assert c != ' ';
        } else {
          assert k in s.rows[r] && t.rows[r][k] == s.rows[r][k];
          assert 0 <= k < n && r in s.columns[k];
          assert t.grid[r][k] == s.grid[r][k];
        }
      }
      forall j, k | 0 <= j < n && k in t.columns[j]
        ensures 0 <= k < n && j in t.rows[k] && t.columns[j][k] == t.grid[k][j]
      {
        if j == col && k == row {
          assert c != ' ';
        } else {
          assert k in s.columns[j] && t.columns[j][k] == s.columns[j][k];
          assert 0 <= k < n && j in s.rows[k];
          assert t.grid[k][j] == s.grid[k][j];
        }
      }
      assert Shape(t, n);
      assert Consistent(t, n);
    } else {
      assert t == s;
    }
  }

  /** The write of `word[j]` to position `j` of row or column `index` succeeds. */
  predicate Writable(n: nat, index: int, word: string, j: nat)
    requires j < |word|
  {
    0 <= index < n && j < n && IsCellChar(Lower(word[j]))
  }

  /** Where a run of cell writes starting at position `i` of `word` stops: the first position whose
      write fails, or the end of the word. Row and column writes fail at the same positions. */
  function Stop(n: nat, index: int, word: string, i: nat): (k: nat)
    requires i <= |word|
    ensures i <= k <= |word|
    ensures forall j :: i <= j < k ==> Writable(n, index, word, j)
    ensures k < |word| ==> !Writable(n, index, word, k)
    decreases |word| - i
  {
    if i == |word| || !Writable(n, index, word, i) then i else Stop(n, index, word, i + 1)
  }

  /** SetRow from position `i` on: write cell (index, j) for each j in turn, stopping at the first
      failure, which is then the outcome. */
  function WriteRow(s: Contents, n: nat, index: int, word: string, i: nat): (r: (Outcome, Contents))
    requires Shape(s, n) && i <= |word|
    ensures Shape(r.1, n)
    decreases |word| - i
  {
    if i == |word| then (Pass, s)
    else
      var w := WriteCell(s, n, index, i, word[i]);
      if w.0.Fail? then w else WriteRow(w.1, n, index, word, i + 1)
  }

  /** SetColumn from position `i` on: write cell (j, index) for each j in turn. */
  function WriteColumn(s: Contents, n: nat, index: int, word: string, i: nat): (r: (Outcome, Contents))
    requires Shape(s, n) && i <= |word|
    ensures Shape(r.1, n)
    decreases |word| - i
  {
    if i == |word| then (Pass, s)
    else
      var w := WriteCell(s, n, i, index, word[i]);
      if w.0.Fail? then w else WriteColumn(w.1, n, index, word, i + 1)
  }

  /** One cell of the grid after a row write from position `i`: the cells of row `index` before
      the stopping position hold the lower-cased letters, every other cell is unchanged. */
  lemma {:induction false} WriteRowCell(s: Contents, n: nat, index: int, word: string, i: nat, a: int, b: int)
    requires Shape(s, n) && i <= |word| && 0 <= a < n && 0 <= b < n
    ensures var k := Stop(n, index, word, i);
      WriteRow(s, n, index, word, i).1.grid[a][b] == if a == index && i <= b < k then Lower(word[b]) else s.grid[a][b]
    decreases |word| - i
  {
    if i < |word| {
      var w := WriteCell(s, n, index, i, word[i]);
      if w.0 == Pass {
        WriteCellEffect(s, n, index, i, word[i]);
        WriteRowCell(w.1, n, index, word, i + 1, a, b);
      }
    }
  }

  /** A row write succeeds exactly when every letter is written; otherwise it reports the first
      failure (WriteRowCell says which cells were written by then). In the row's constraint map
      exactly the written positions are recomputed. */
  lemma {:induction false} WriteRowEffect(s: Contents, n: nat, index: int, word: string, i: nat)
    requires Shape(s, n) && i <= |word|
    ensures var r := WriteRow(s, n, index, word, i); var k := Stop(n, index, word, i);
      && (r.0 == Pass <==> k == |word|)
      && (r.0 != Pass ==> r.0 == Fail(if 0 <= index < n && k < n then ArgumentOutOfRange else IndexOutOfRange))
      && (forall b :: i <= b < k ==> (b in r.1.rows[index] <==> Lower(word[b]) != ' '))
      && (forall b :: !(i <= b < k) && 0 <= index < n ==> (b in r.1.rows[index] <==> b in s.rows[index]))
    decreases |word| - i
  {
    if i < |word| {
      var w := WriteCell(s, n, index, i, word[i]);
      if w.0 == Pass {
        WriteCellEffect(s, n, index, i, word[i]);
        WriteRowEffect(w.1, n, index, word, i + 1);
      }
    }
  }

  /** One cell of the grid after a column write from position `i`: only column `index` changes. */
  lemma {:induction false} WriteColumnCell(s: Contents, n: nat, index: int, word: string, i: nat, a: int, b: int)
    requires Shape(s, n) && i <= |word| && 0 <= a < n && 0 <= b < n
    ensures var k := Stop(n, index, word, i);
      WriteColumn(s, n, index, word, i).1.grid[a][b] == if b == index && i <= a < k then Lower(word[a]) else s.grid[a][b]
    decreases |word| - i
  {
    if i < |word| {
      var w := WriteCell(s, n, i, index, word[i]);
      if w.0 == Pass {
        WriteCellEffect(s, n, i, index, word[i]);
        WriteColumnCell(w.1, n, index, word, i + 1, a, b);
      }
    }
  }

  /** The column counterpart of WriteRowEffect: only column `index` changes. */
  lemma {:induction false} WriteColumnEffect(s: Contents, n: nat, index: int, word: string, i: nat)
    requires Shape(s, n) && i <= |word|
    ensures var r := WriteColumn(s, n, index, word, i); var k := Stop(n, index, word, i);
      && (r.0 == Pass <==> k == |word|)
      && (r.0 != Pass ==> r.0 == Fail(if 0 <= index < n && k < n then ArgumentOutOfRange else IndexOutOfRange))
      && (forall a :: i <= a < k ==> (a in r.1.columns[index] <==> Lower(word[a]) != ' '))
      && (forall a :: !(i <= a < k) && 0 <= index < n ==> (a in r.1.columns[index] <==> a in s.columns[index]))
    decreases |word| - i
  {
    if i < |word| {
      var w := WriteCell(s, n, i, index, word[i]);
      if w.0 == Pass {
        WriteCellEffect(s, n, i, index, word[i]);
        WriteColumnEffect(w.1, n, index, word, i + 1);
      }
    }
  }

  lemma {:induction false} WriteRowConsistent(s: Contents, n: nat, index: int, word: string, i: nat)
    requires Consistent(s, n) && i <= |word|
    ensures Consistent(WriteRow(s, n, index, word, i).1, n)
    decreases |word| - i
  {
    if i < |word| {
      WriteCellConsistent(s, n, index, i, word[i]);
      var w := WriteCell(s, n, index, i, word[i]);
      if w.0 == Pass {
        WriteRowConsistent(w.1, n, index, word, i + 1);
      }
    }
  }

  lemma {:induction false} WriteColumnConsistent(s: Contents, n: nat, index: int, word: string, i: nat)
    requires Consistent(s, n) && i <= |word|
    ensures Consistent(WriteColumn(s, n, index, word, i).1, n)
    decreases |word| - i
  {
    if i < |word| {
      WriteCellConsistent(s, n, i, index, word[i]);
      var w := WriteCell(s, n, i, index, word[i]);
      if w.0 == Pass {
        WriteColumnConsistent(w.1, n, index, word, i + 1);
      }
    }
  }

  // ---------------------------------------------------------------------------------------------
  // The copy constructor.

  /** The copy constructor as written at lines 87-93: line 89 sets Size; line 90 then evaluates
      the Length of the new board's own `_chars`, which nothing has assigned yet, so the
      NullReferenceException comes before any copying, whatever `other` holds. */
  function CopyAsWritten(other: Contents): (r: Result<Contents>) {
    Err(NullReference)
  }

  /** So every Clone throws, whereas the documented behaviour (Board.Clone) is a copy with the same
      contents. */
  lemma CopyAsWrittenFails(s: Contents)
    ensures CopyAsWritten(s) == Err(NullReference) && CopyAsWritten(s) != Ok(s)
  {
  }

  // ---------------------------------------------------------------------------------------------
  // The text form.

  /** The rows joined by `newline`, with none after the last row. */
  function JoinLines(rows: seq<string>, newline: string): (r: string)
    decreases |rows|
  {
    if |rows| <= 1 then (if rows == [] then [] else rows[0])
    else JoinLines(rows[..|rows| - 1], newline) + newline + rows[|rows| - 1]
  }

  /** The text of m rows of length n has m * n characters plus m - 1 line breaks. */
  lemma {:induction false} JoinLinesLength(rows: seq<string>, newline: string, n: nat)
    requires forall k :: 0 <= k < |rows| ==> |rows[k]| == n
    requires |rows| > 0
    ensures |JoinLines(rows, newline)| == |rows| * n + (|rows| - 1) * |newline|
    decreases |rows|
  {
    var m := |rows|;
    if m > 1 {
      JoinLinesLength(rows[..m - 1], newline, n);
      assert (m - 1) * n + n == m * n;
      assert (m - 2) * |newline| + |newline| == (m - 1) * |newline|;
    }
  }

  /** In that text, row `i` starts at `i * (n + |newline|)`; the text ends with the last row. */
  lemma {:induction false} JoinLinesRow(rows: seq<string>, newline: string, n: nat, i: nat)
    requires forall k :: 0 <= k < |rows| ==> |rows[k]| == n
    requires i < |rows|
    ensures i * (n + |newline|) + n <= |JoinLines(rows, newline)|
    ensures JoinLines(rows, newline)[i * (n + |newline|)..i * (n + |newline|) + n] == rows[i]
    decreases |rows|
  {
    var m := |rows|;
    var at := i * (n + |newline|);
    JoinLinesLength(rows, newline, n);
    if m > 1 {
      var front := rows[..m - 1];
      var t := JoinLines(front, newline);
      assert JoinLines(rows, newline) == t + newline + rows[m - 1];
      JoinLinesLength(front, newline, n);
      assert |t| == (m - 1) * n + (m - 2) * |newline|;
      assert (m - 1) * (n + |newline|) == |t| + |newline|;
      if i < m - 1 {
        JoinLinesRow(front, newline, n, i);
        assert at + n <= |t|;
        assert JoinLines(rows, newline)[at..at + n] == t[at..at + n];
      } else {
        assert at == |t| + |newline|;
      }
    } else {
      assert at == 0;
    }
  }

  // ---------------------------------------------------------------------------------------------
  // The board object.

  class Board {
    const size: nat
    const chars: array2<char>
    const rowConstraints: array<map<int, char>>
    const columnConstraints: array<map<int, char>>

    /** The arrays have the board's dimensions, and the two constraint arrays are distinct. */
    predicate Shaped() {
      && chars.Length0 == size && chars.Length1 == size
      && rowConstraints.Length == size && columnConstraints.Length == size
      && rowConstraints != columnConstraints
    }

    /** Rows: row `i` read left to right. */
    function Rows(): (r: seq<string>)
      reads chars
      requires Shaped()
      ensures Square(r, size)
      ensures forall i, j :: 0 <= i < size && 0 <= j < size ==> r[i][j] == chars[i, j]
    {
      seq(size, i requires 0 <= i < size reads chars =>
        seq(size, j requires 0 <= j < size reads chars => chars[i, j]))
    }

    /** Columns: column `j` read top to bottom, which is the transpose of the rows. */
    function Columns(): (r: seq<string>)
      reads chars
      requires Shaped()
      ensures r == Transpose(Rows())
    {
      var r := seq(size, j requires 0 <= j < size reads chars =>
        seq(size, i requires 0 <= i < size reads chars => chars[i, j]));
      assert forall j :: 0 <= j < size ==> r[j] == Transpose(Rows())[j];
      r
    }

    /** The board's contents as a value. */
    function Model(): Contents
      reads chars, rowConstraints, columnConstraints
      requires Shaped()
    {
      Contents(Rows(), rowConstraints[..], columnConstraints[..])
    }

    ghost predicate Valid()
      reads chars, rowConstraints, columnConstraints
    {
      Shaped() && Consistent(Model(), size)
    }

    /** `new Board(size)`: every cell holds the default character '\0', no constraints. */
    constructor (size: nat)
      ensures this.size == size && Valid()
      ensures Model() == Contents(Filled(size, '\0'), NoConstraints(size), NoConstraints(size))
      ensures fresh(chars) && fresh(rowConstraints) && fresh(columnConstraints)
    {
      this.size := size;
      chars := new char[size, size]((_, _) => '\0');
      rowConstraints := new map<int, char>[size](_ => map[]);
      columnConstraints := new map<int, char>[size](_ => map[]);
      new;
      assert Rows() == Filled(size, '\0') by {
        assert forall i :: 0 <= i < size ==> Rows()[i] == Filled(size, '\0')[i];
      }
      assert rowConstraints[..] == NoConstraints(size);
      assert columnConstraints[..] == NoConstraints(size);
    }

    /** `new Board(size)` for any int: a negative dimension makes the array allocation throw. */
    static method Create(size: int) returns (r: Result<Board>)
      ensures r.Err? <==> size < 0
      ensures r.Err? ==> r.error == Overflow
      ensures r.Ok? ==> fresh(r.value) && r.value.size == size && r.value.Valid()
      ensures r.Ok? ==> r.value.Model() == Contents(Filled(size, '\0'), NoConstraints(size), NoConstraints(size))
    {
      if size < 0 {
        return Err(Overflow);
      }
      var b := new Board(size);
      return Ok(b);
    }

    /** `new Board(rows)`: every row must have as many characters as there are rows; the cells are
        copied verbatim, unchecked, and every constraint map starts empty. */
    static method FromRows(rows: seq<string>) returns (r: Result<Board>)
      ensures r.Err? <==> exists i :: 0 <= i < |rows| && |rows[i]| != |rows|
      ensures r.Err? ==> r.error == ArgumentOutOfRange
      ensures r.Ok? ==> fresh(r.value) && r.value.size == |rows| && r.value.Valid()
      ensures r.Ok? ==> r.value.Model() == Contents(rows, NoConstraints(|rows|), NoConstraints(|rows|))
    {
      var n := |rows|;
      var b := new Board(n);
      var i := 0;
      while i < n
        invariant 0 <= i <= n
        invariant forall k :: 0 <= k < i ==> |rows[k]| == n
        invariant forall a, c :: 0 <= a < i && 0 <= c < n ==> b.chars[a, c] == rows[a][c]
        invariant b.rowConstraints[..] == NoConstraints(n) && b.columnConstraints[..] == NoConstraints(n)
      {
        if |rows[i]| != n {
          return Err(ArgumentOutOfRange);
        }
        var j := 0;
        while j < n
          invariant 0 <= j <= n
          invariant forall a, c :: 0 <= a < i && 0 <= c < n ==> b.chars[a, c] == rows[a][c]
          invariant forall c :: 0 <= c < j ==> b.chars[i, c] == rows[i][c]
          invariant b.rowConstraints[..] == NoConstraints(n) && b.columnConstraints[..] == NoConstraints(n)
        {
          b.chars[i, j] := rows[i][j];
          j := j + 1;
        }
        i := i + 1;
      }
      assert b.Rows() == rows by {
        assert forall a :: 0 <= a < n ==> b.Rows()[a] == rows[a];
      }
      return Ok(b);
    }

    /** Clone as documented: a deep copy with the same size, cells and constraint maps, sharing no
        array with this board. */
    method Clone() returns (b: Board)
      requires Valid()
      ensures fresh(b) && fresh(b.chars) && fresh(b.rowConstraints) && fresh(b.columnConstraints)
      ensures b.size == size && b.Valid() && b.Model() == Model()
    {
      ghost var m := Model();
      b := new Board(size);
      forall i, j | 0 <= i < size && 0 <= j < size {
        b.chars[i, j] := chars[i, j];
      }
      forall i | 0 <= i < size {
        b.rowConstraints[i] := rowConstraints[i];
      }
      forall i | 0 <= i < size {
        b.columnConstraints[i] := columnConstraints[i];
      }
      assert Model() == m && Valid();
      SameContents(b);
    }

    /** Two boards of one size with equal cells and equal constraint maps hold the same contents. */
    lemma SameContents(b: Board)
      requires Shaped() && b.Shaped() && b.size == size
      requires forall i, j :: 0 <= i < size && 0 <= j < size ==> b.chars[i, j] == chars[i, j]
      requires forall i :: 0 <= i < size ==> b.rowConstraints[i] == rowConstraints[i]
      requires forall i :: 0 <= i < size ==> b.columnConstraints[i] == columnConstraints[i]
      ensures b.Model() == Model() && (Valid() ==> b.Valid())
    {
      assert b.Rows() == Rows() by {
        assert forall i :: 0 <= i < size ==> b.Rows()[i] == Rows()[i];
      }
      assert b.rowConstraints[..] == rowConstraints[..];
      assert b.columnConstraints[..] == columnConstraints[..];
    }

    /** The indexer getter: the character at (i, j); an index outside the board throws. */
    function Get(i: int, j: int): (r: Result<char>)
      reads chars
      requires Shaped()
      ensures r.Ok? <==> 0 <= i < size && 0 <= j < size
      ensures r.Ok? ==> r.value == Rows()[i][j] && r.value == Columns()[j][i]
      ensures r.Err? ==> r.error == IndexOutOfRange
    {
      if 0 <= i < size && 0 <= j < size then Ok(chars[i, j]) else Err(IndexOutOfRange)
    }

    /** GetRowConstraints: the preset letters of row `index`, by column. */
    function GetRowConstraints(index: int): (r: Result<map<int, char>>)
      reads chars, rowConstraints, columnConstraints
      requires Valid()
      ensures r.Ok? <==> 0 <= index < size
      ensures r.Err? ==> r.error == IndexOutOfRange
      ensures r.Ok? ==> forall k :: k in r.value ==>
        && 0 <= k < size && r.value[k] == Rows()[index][k] && 'a' <= r.value[k] <= 'z'
        && index in GetColumnConstraints(k).value
    {
      if 0 <= index < size then Ok(rowConstraints[index]) else Err(IndexOutOfRange)
    }

    /** GetColumnConstraints: the preset letters of column `index`, by row. */
    function GetColumnConstraints(index: int): (r: Result<map<int, char>>)
      reads chars, rowConstraints, columnConstraints
      requires Valid()
      ensures r.Ok? <==> 0 <= index < size
      ensures r.Err? ==> r.error == IndexOutOfRange
      ensures r.Ok? ==> forall k :: k in r.value ==>
        && 0 <= k < size && r.value[k] == Columns()[index][k] && 'a' <= r.value[k] <= 'z'
        && index in rowConstraints[k]
    {
      if 0 <= index < size then Ok(columnConstraints[index]) else Err(IndexOutOfRange)
    }

    /** SetCell (also the indexer setter): the outcome and the new contents are those of
        WriteCell, so on failure nothing changes and on success the maps stay in step. */
    method SetCell(row: int, column: int, c: char) returns (o: Outcome)
      requires Valid()
      modifies chars, rowConstraints, columnConstraints
      ensures Valid()
      ensures (o, Model()) == WriteCell(old(Model()), size, row, column, c)
    {
      ghost var before := Model();
      WriteCellConsistent(before, size, row, column, c);
      var x := Lower(c);
      if row < 0 || row >= size {
        return Fail(IndexOutOfRange);
      }
      if column < 0 || column >= size {
        return Fail(IndexOutOfRange);
      }
      if x != ' ' && (x < 'a' || x > 'z') {
        return Fail(ArgumentOutOfRange);
      }
      chars[row, column] := x;
      if x == ' ' {
        rowConstraints[row] := rowConstraints[row] - {column};
        columnConstraints[column] := columnConstraints[column] - {row};
      } else {
        rowConstraints[row] := rowConstraints[row][column := x];
        columnConstraints[column] := columnConstraints[column][row := x];
      }
      o := Pass;
      var after := WriteCell(before, size, row, column, c).1;
      assert Rows() == after.grid by {
        assert forall i :: 0 <= i < size ==> Rows()[i] == after.grid[i];
      }
      assert rowConstraints[..] == after.rows;
      assert columnConstraints[..] == after.columns;
    }

    /** SetRow: SetCell(index, i, word[i]) for i = 0, 1, ... in turn, stopping at the first
        failure, which propagates; a word longer than the board fails once it runs off the row. */
    method SetRow(index: int, word: string) returns (o: Outcome)
      requires Valid()
      modifies chars, rowConstraints, columnConstraints
      ensures Valid()
      ensures (o, Model()) == WriteRow(old(Model()), size, index, word, 0)
    {
      var i := 0;
      while i < |word|
        invariant 0 <= i <= |word| && Valid()
        invariant WriteRow(Model(), size, index, word, i) == WriteRow(old(Model()), size, index, word, 0)
      {
        o := SetCell(index, i, word[i]);
        if o.Fail? {
          return;
        }
        i := i + 1;
      }
      o := Pass;
    }

    /** SetColumn: SetCell(i, index, word[i]) for i = 0, 1, ... in turn. */
    method SetColumn(index: int, word: string) returns (o: Outcome)
      requires Valid()
      modifies chars, rowConstraints, columnConstraints
      ensures Valid()
      ensures (o, Model()) == WriteColumn(old(Model()), size, index, word, 0)
    {
      var i := 0;
      while i < |word|
        invariant 0 <= i <= |word| && Valid()
        invariant WriteColumn(Model(), size, index, word, i) == WriteColumn(old(Model()), size, index, word, 0)
      {
        o := SetCell(i, index, word[i]);
        if o.Fail? {
          return;
        }
        i := i + 1;
      }
      o := Pass;
    }

    /** Clear: every cell becomes a space and every constraint map is emptied. */
    method Clear()
      requires Valid()
      modifies chars, rowConstraints, columnConstraints
      ensures Valid()
      ensures Model() == Contents(Filled(size, ' '), NoConstraints(size), NoConstraints(size))
    {
      var i := 0;
      while i < size
        invariant 0 <= i <= size && Shaped()
        invariant forall a, b :: 0 <= a < i && 0 <= b < size ==> chars[a, b] == ' '
        invariant forall a :: 0 <= a < i ==> rowConstraints[a] == map[] && columnConstraints[a] == map[]
      {
        var j := 0;
        while j < size
          invariant 0 <= j <= size
          invariant forall a, b :: 0 <= a < i && 0 <= b < size ==> chars[a, b] == ' '
          invariant forall b :: 0 <= b < j ==> chars[i, b] == ' '
          invariant forall a :: 0 <= a < i ==> rowConstraints[a] == map[] && columnConstraints[a] == map[]
        {
          chars[i, j] := ' ';
          j := j + 1;
        }
        rowConstraints[i] := map[];
        columnConstraints[i] := map[];
        i := i + 1;
      }
      assert Rows() == Filled(size, ' ') by {
        assert forall a :: 0 <= a < size ==> Rows()[a] == Filled(size, ' ')[a];
      }
      assert rowConstraints[..] == NoConstraints(size);
      assert columnConstraints[..] == NoConstraints(size);
    }

    /** Row `i` spells `w`. */
    predicate RowIs(i: int, w: string)
      reads chars
      requires Shaped() && 0 <= i < size && |w| == size
    {
      forall t :: 0 <= t < size ==> chars[i, t] == w[t]
    }

    /** Column `i` spells `w`. */
    predicate ColumnIs(i: int, w: string)
      reads chars
      requires Shaped() && 0 <= i < size && |w| == size
    {
      forall t :: 0 <= t < size ==> chars[t, i] == w[t]
    }

    lemma RowSpells(w: string, i: int)
      requires Shaped() && |w| == size && 0 <= i < size
      ensures RowIs(i, w) <==> Rows()[i] == w
    {
      if RowIs(i, w) {
        assert forall t :: 0 <= t < size ==> Rows()[i][t] == w[t];
      }
    }

    lemma ColumnSpells(w: string, i: int)
      requires Shaped() && |w| == size && 0 <= i < size
      ensures ColumnIs(i, w) <==> Columns()[i] == w
    {
      if ColumnIs(i, w) {
        assert forall t :: 0 <= t < size ==> Columns()[i][t] == w[t];
      }
    }

    /** Contains: the word is one of the rows or one of the columns. The check compares the
        first letter and then positions 1 .. size - 1, answering only at the last position, so a
        board of size 1 (or 0) never contains anything. */
    method Contains(word: string) returns (r: bool)
      requires Shaped()
      ensures r <==> size >= 2 && |word| == size && (word in Rows() || word in Columns())
    {
      if |word| != size {
        return false;
      }
      var i := 0;
      while i < size
        invariant 0 <= i <= size
        invariant size >= 2 ==> forall a :: 0 <= a < i ==> !RowIs(a, word) && !ColumnIs(a, word)
      {
        if chars[i, 0] == word[0] {
          var j := 1;
          while j < size
            invariant 1 <= j <= size && (size >= 2 ==> j < size)
            invariant forall t :: 0 <= t < j ==> chars[i, t] == word[t]
          {
            if chars[i, j] != word[j] {
              break;
            }
            if j == size - 1 {
              assert RowIs(i, word);
              RowSpells(word, i);
              return true;
            }
            j := j + 1;
          }
        }
        if chars[0, i] == word[0] {
          var j := 1;
          while j < size
            invariant 1 <= j <= size && (size >= 2 ==> j < size)
            invariant forall t :: 0 <= t < j ==> chars[t, i] == word[t]
          {
            if chars[j, i] != word[j] {
              break;
            }
            if j == size - 1 {
              assert ColumnIs(i, word);
              ColumnSpells(word, i);
              return true;
            }
            j := j + 1;
          }
        }
        i := i + 1;
      }
      if size >= 2 {
        forall a | 0 <= a < size ensures Rows()[a] != word && Columns()[a] != word {
          RowSpells(word, a);
          ColumnSpells(word, a);
        }
      }
      return false;
    }

    /** ToString: the rows, each followed by `newline` except the last. `newline` stands for
        Environment.NewLine. */
    method ToString(newline: string) returns (text: string)
      requires Shaped()
      ensures text == JoinLines(Rows(), newline)
    {
      text := [];
      var i := 0;
      while i < size
        invariant 0 <= i <= size
        invariant text == JoinLines(Rows()[..i], newline) + (if 0 < i < size then newline else [])
      {
        var j := 0;
        ghost var start := text;
        while j < size
          invariant 0 <= j <= size
          invariant text == start + Rows()[i][..j]
        {
          text := text + [chars[i, j]];
          j := j + 1;
        }
        assert Rows()[..i + 1][..i] == Rows()[..i];
        assert Rows()[i][..size] == Rows()[i];
        if i < size - 1 {
          text := text + newline;
        }
        i := i + 1;
      }
      assert Rows()[..size] == Rows();
    }
  }
}
