/** Dictionary ingestion of WordGrid/Solver.cs (Initialize): each line is trimmed and lower-cased,
    kept when it is `size` letters a-z long, and inserted into the prefix tree letter by letter. */
module Dictionary {
  import opened Common
  import opened Lex
  import opened Tries

  /** The ASCII white-space characters string.Trim removes: space, tab, line feed, vertical tab,
      form feed and carriage return. */
  predicate IsSpace(c: char) {
    c == ' ' || '\t' <= c <= '\r'
  }

  /** The first position at or after `i` that does not hold white space (or the end). */
  function SkipSpaces(s: string, i: nat): (k: nat)
    requires i <= |s|
    ensures i <= k <= |s|
    ensures forall j :: i <= j < k ==> IsSpace(s[j])
    ensures k < |s| ==> !IsSpace(s[k])
    decreases |s| - i
  {
    if i < |s| && IsSpace(s[i]) then SkipSpaces(s, i + 1) else i
  }

  /** The end of `s[lo..hi]` once trailing white space is dropped. */
  function DropSpaces(s: string, lo: nat, hi: nat): (k: nat)
    requires lo <= hi <= |s|
    ensures lo <= k <= hi
    ensures forall j :: k <= j < hi ==> IsSpace(s[j])
    ensures k > lo ==> !IsSpace(s[k - 1])
    decreases hi - lo
  {
    if lo < hi && IsSpace(s[hi - 1]) then DropSpaces(s, lo, hi - 1) else hi
  }

  /** string.Trim on ASCII white space: `s` without its leading and trailing white space. */
  function Trim(s: string): (r: string)
    ensures r == [] || (!IsSpace(r[0]) && !IsSpace(r[|r| - 1]))
    ensures exists a, b :: (0 <= a <= b <= |s| && r == s[a..b]
      && (forall j :: 0 <= j < a ==> IsSpace(s[j])) && (forall j :: b <= j < |s| ==> IsSpace(s[j])))
  {
    var a := SkipSpaces(s, 0);
    var b := DropSpaces(s, a, |s|);
    s[a..b]
  }

  /** `line.Trim().ToLowerInvariant()`. */
  function Stripped(line: string): string {
    LowerAll(Trim(line))
  }

  /** A dictionary word of the solver's length: `size` letters, each a-z. */
  predicate IsWord(w: string, size: int) {
    |w| == size && forall i :: 0 <= i < |w| ==> 'a' <= w[i] <= 'z'
  }

  /** The filter of line 47. */
  predicate Keeps(line: string, size: int) {
    IsWord(Stripped(line), size)
  }

  /** The words Initialize adds to `_words`, in file order, duplicates included. */
  function Kept(lines: seq<string>, size: int): (r: seq<string>)
    ensures |r| <= |lines|
    ensures forall w :: w in r ==> IsWord(w, size)
    decreases |lines|
  {
    if lines == [] then []
    else
      var last := lines[|lines| - 1];
      Kept(lines[..|lines| - 1], size) + (if Keeps(last, size) then [Stripped(last)] else [])
  }

  /** A word is kept exactly when some line strips to it and passes the filter. */
  lemma {:induction false} KeptMembers(lines: seq<string>, size: int, w: string)
    ensures w in Kept(lines, size) <==> exists l :: l in lines && Keeps(l, size) && Stripped(l) == w
    decreases |lines|
  {
    if lines != [] {
      var front, last := lines[..|lines| - 1], lines[|lines| - 1];
      KeptMembers(front, size, w);
      LastSplit(lines);
      if w in Kept(lines, size) {
        if w in Kept(front, size) {
          var l :| l in front && Keeps(l, size) && Stripped(l) == w;
          assert l in lines;
        } else {
          assert Keeps(last, size) && Stripped(last) == w && last in lines;
        }
      }
      if exists l :: l in lines && Keeps(l, size) && Stripped(l) == w {
        var l :| l in lines && Keeps(l, size) && Stripped(l) == w;
        if l != last {
          assert l in front;
        }
      }
    }
  }

  /** The inner loop of Initialize: for each letter, add a fresh child when the current node lacks
      one, then move to the child. Nodes are values here, so the updated child is stored back. */
  function InsertWord(n: Prefix, w: string): (r: Prefix)
    decreases |w|
  {
    if w == [] then n
    else
      var c := w[0];
      var n1 := if Contains(n, c) then n else Add(n, Prefix(c, [])).value;
      match Get(n1, c)
      case Ok(child) => Set(n1, c, InsertWord(child, w[1..]))
      case Err(_) => n1
  }

  /** Insertion keeps the tree sorted and keyed, and keeps the root's character. */
  lemma {:induction false} InsertWordValid(n: Prefix, w: string)
    requires Valid(n) && Keyed(n)
    ensures var r := InsertWord(n, w); Valid(r) && Keyed(r) && r.c == n.c
    decreases |w|
  {
    if w != [] {
      var c := w[0];
      var n1 := if Contains(n, c) then n else Add(n, Prefix(c, [])).value;
      assert Valid(n1) && Keyed(n1);
      var child := Get(n1, c).value;
      ChildFacts(n1, c);
      InsertWordValid(child, w[1..]);
    }
  }

  /** The node InsertWord descends into for the first letter `c` of `w`: the existing child, or
      the fresh `new Prefix(c)` that Add has just put under `c`. */
  lemma InsertWordHead(n: Prefix, w: string)
    requires Valid(n) && Keyed(n) && w != []
    ensures var c := w[0];
      var n1 := if Contains(n, c) then n else Add(n, Prefix(c, [])).value;
      && Get(n1, c).Ok?
      && InsertWord(n, w) == Set(n1, c, InsertWord(Get(n1, c).value, w[1..]))
      && Get(n1, c).value == (if Contains(n, c) then TryGetValue(n, c).value else Prefix(c, []))
      && Valid(Get(n1, c).value) && Keyed(Get(n1, c).value)
      && forall k :: k != c ==> TryGetValue(InsertWord(n, w), k) == TryGetValue(n, k)
  {
    var c := w[0];
    var n1 := if Contains(n, c) then n else Add(n, Prefix(c, [])).value;
    ChildFacts(n1, c);
  }

  /** After inserting `w`, exactly the old paths and the prefixes of `w` can be spelled. */
  lemma {:induction false} InsertWordFind(n: Prefix, w: string, p: string)
    requires Valid(n) && Keyed(n)
    ensures Find(InsertWord(n, w), p).Some? <==> Find(n, p).Some? || IsPrefix(p, w)
    decreases |w|
  {
    if w != [] && p != [] {
      var c := w[0];
      InsertWordHead(n, w);
      var n1 := if Contains(n, c) then n else Add(n, Prefix(c, [])).value;
      var child := Get(n1, c).value;
      var r := InsertWord(n, w);
      IsPrefixCons(p, w);
      if p[0] == c {
        assert Find(r, p) == Find(InsertWord(child, w[1..]), p[1..]);
        InsertWordFind(child, w[1..], p[1..]);
        if Contains(n, c) {
          assert Find(n, p) == Find(child, p[1..]);
        } else if |p| > 1 {
          assert TryGetValue(child, p[1..][0]).None?;
        }
      } else {
        assert Find(r, p) == Find(n, p);
      }
    }
  }

  /** The tree Initialize builds from the kept words, in order, starting from `new Prefix()`. */
  function Build(ws: seq<string>): Prefix
    decreases |ws|
  {
    if ws == [] then EmptyRoot else InsertWord(Build(ws[..|ws| - 1]), ws[|ws| - 1])
  }

  /** The built tree is sorted and keyed, and spells exactly the prefixes of the words put in. */
  lemma {:induction false} BuildPaths(ws: seq<string>, p: string)
    ensures Valid(Build(ws)) && Keyed(Build(ws))
    ensures Find(Build(ws), p).Some? <==> p == [] || exists v :: v in ws && IsPrefix(p, v)
    decreases |ws|
  {
    if ws != [] {
      var front, last := ws[..|ws| - 1], ws[|ws| - 1];
      BuildPaths(front, p);
      InsertWordValid(Build(front), last);
      InsertWordFind(Build(front), last, p);
      assert forall v :: v in ws <==> v in front || v == last;
    } else {
      if p != [] {
        assert TryGetValue(EmptyRoot, p[0]).None?;
      }
    }
  }

  /** In a tree of words of one length, a string of that length can be spelled exactly when it is
      one of the words (or, at length 0, always). */
  lemma LoadedWord(ws: seq<string>, size: nat, w: string)
    requires forall v :: v in ws ==> |v| == size
    requires |w| == size
    ensures Find(Build(ws), w).Some? <==> size == 0 || w in ws
  {
    BuildPaths(ws, w);
    if size > 0 && Find(Build(ws), w).Some? {
      var v :| v in ws && IsPrefix(w, v);
      assert v == v[..|w|];
    }
    if w in ws {
      assert IsPrefix(w, w);
    }
  }
}
