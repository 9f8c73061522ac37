/** The prefix tree of WordGrid.Core/Prefix.cs.

    A node holds the character it represents and its children in the form a
    SortedList<char, Prefix> stores them: entries in strictly ascending key order. Nodes are
    modelled as values, so `Add` and the indexer setter return the updated node. */
module Tries {
  import opened Common
  import opened Lex

  datatype Prefix = Prefix(c: char, next: seq<Entry>)
  datatype Entry = Entry(key: char, child: Prefix)

  /** `new Prefix()`: a root whose character is a space and which has no children. */
  const EmptyRoot: Prefix := Prefix(' ', [])

  /** The sorted-list invariant of `_next`: keys strictly ascending, at every node. */
  ghost predicate SortedKeys(entries: seq<Entry>) {
    forall i, j :: 0 <= i < j < |entries| ==> entries[i].key < entries[j].key
  }

  ghost predicate Valid(n: Prefix)
    decreases n
  {
    && SortedKeys(n.next)
    && forall i :: 0 <= i < |n.next| ==> Valid(n.next[i].child)
  }

  /** Every child is stored under its own character, which is what `Add` guarantees and what the
      indexer setter leaves to its caller. */
  ghost predicate Keyed(n: Prefix)
    decreases n
  {
    forall i :: 0 <= i < |n.next| ==> n.next[i].key == n.next[i].child.c && Keyed(n.next[i].child)
  }

  /** The keys in stored order. */
  function Keys(n: Prefix): seq<char> {
    seq(|n.next|, i requires 0 <= i < |n.next| => n.next[i].key)
  }

  /** SortedList.IndexOfKey: the position of key `c`, or -1. */
  function IndexOfKey(entries: seq<Entry>, c: char): (r: int)
    ensures -1 <= r < |entries|
    ensures r >= 0 ==> entries[r].key == c && forall i :: 0 <= i < r ==> entries[i].key != c
    ensures r < 0 <==> forall i :: 0 <= i < |entries| ==> entries[i].key != c
  {
    if entries == [] then -1
    else if entries[0].key == c then 0
    else
      var k := IndexOfKey(entries[1..], c);
      if k < 0 then -1 else k + 1
  }

  /** The child stored under `c` in an entry list, if any. */
  function LookupEntries(entries: seq<Entry>, c: char): Option<Prefix> {
    var i := IndexOfKey(entries, c);
    if i < 0 then None else Some(entries[i].child)
  }

  lemma LookupCons(x: Entry, rest: seq<Entry>, c: char)
    ensures LookupEntries([x] + rest, c)
         == if x.key == c then Some(x.child) else LookupEntries(rest, c)
  {
    assert ([x] + rest)[0] == x;
    assert ([x] + rest)[1..] == rest;
  }

  /** Prefix.Contains: `c` is one of the keys. */
  function Contains(n: Prefix, c: char): (r: bool)
    ensures r <==> c in Keys(n)
  {
    var i := IndexOfKey(n.next, c);
    assert i >= 0 ==> Keys(n)[i] == c;
    i >= 0
  }

  /** Prefix.TryGetValue. */
  function TryGetValue(n: Prefix, c: char): (r: Option<Prefix>)
    ensures r.Some? <==> Contains(n, c)
    ensures r.Some? ==> exists i :: 0 <= i < |n.next| && n.next[i] == Entry(c, r.value)
    ensures SortedKeys(n.next) ==>
      forall i :: 0 <= i < |n.next| && n.next[i].key == c ==> r == Some(n.next[i].child)
  {
    var i := IndexOfKey(n.next, c);
    if i < 0 then None
    else
      assert n.next[i] == Entry(c, n.next[i].child);
      Some(n.next[i].child)
  }

  /** The indexer get `this[c]`: SortedList throws KeyNotFoundException on a missing key. */
  function Get(n: Prefix, c: char): (r: Result<Prefix>)
    ensures r.Ok? <==> Contains(n, c)
    ensures r.Ok? ==> TryGetValue(n, c) == Some(r.value)
    ensures r.Err? ==> r.error == KeyNotFound
  {
    match TryGetValue(n, c)
    case Some(v) => Ok(v)
    case None => Err(KeyNotFound)
  }

  /** Inserts `e` before the first larger key, as SortedList does for a new key. */
  function InsertEntry(entries: seq<Entry>, e: Entry): (r: seq<Entry>)
    ensures |r| == |entries| + 1
    ensures forall x :: x in r <==> x == e || x in entries
    ensures SortedKeys(entries) && (forall i :: 0 <= i < |entries| ==> entries[i].key != e.key) ==>
      SortedKeys(r)
  {
    if entries == [] || e.key < entries[0].key then [e] + entries
    else
      var tail := InsertEntry(entries[1..], e);
      assert SortedKeys(entries) && e.key != entries[0].key ==>
        forall x :: x in tail ==> entries[0].key < x.key by {
        if SortedKeys(entries) && e.key != entries[0].key {
          forall x | x in tail ensures entries[0].key < x.key {
            if x != e {
              var t :| 0 <= t < |entries[1..]| && entries[1..][t] == x;
              assert entries[t + 1] == x;
            }
          }
        }
      }
      [entries[0]] + tail
  }

  lemma {:induction false} LookupInsert(entries: seq<Entry>, e: Entry, c: char)
    requires forall i :: 0 <= i < |entries| ==> entries[i].key != e.key
    ensures LookupEntries(InsertEntry(entries, e), c)
         == if c == e.key then Some(e.child) else LookupEntries(entries, c)
    decreases |entries|
  {
    if entries == [] || e.key < entries[0].key {
      LookupCons(e, entries, c);
    } else {
      LookupCons(entries[0], InsertEntry(entries[1..], e), c);
      LookupCons(entries[0], entries[1..], c);
      assert entries == [entries[0]] + entries[1..];
      LookupInsert(entries[1..], e, c);
    }
  }

  lemma {:induction false} LookupReplace(entries: seq<Entry>, i: nat, c: char, v: Prefix, k: char)
    requires i == IndexOfKey(entries, c)
    ensures LookupEntries(entries[i := Entry(c, v)], k)
         == if k == c then Some(v) else LookupEntries(entries, k)
  {
    var r := entries[i := Entry(c, v)];
    if k == c {
      assert r[i].key == k;
      assert forall t :: 0 <= t < i ==> r[t].key != k;
      var x := IndexOfKey(r, k);
      assert x == i;
    } else {
      var j := IndexOfKey(entries, k);
      if j < 0 {
        assert forall t :: 0 <= t < |r| ==> r[t].key != k;
      } else {
        assert r[j] == entries[j];
        assert forall t :: 0 <= t < j ==> r[t].key != k;
        var x := IndexOfKey(r, k);
        assert x == j;
      }
    }
  }

  /** Prefix.Add: inserts `v` under its own character; SortedList.Add throws on a duplicate key. */
  function Add(n: Prefix, v: Prefix): (r: Result<Prefix>)
    ensures r.Err? <==> Contains(n, v.c)
    ensures r.Err? ==> r.error == DuplicateKey
    ensures r.Ok? ==> r.value.c == n.c && |r.value.next| == |n.next| + 1
    ensures r.Ok? ==> TryGetValue(r.value, v.c) == Some(v)
    ensures r.Ok? ==> forall k :: k != v.c ==> TryGetValue(r.value, k) == TryGetValue(n, k)
    ensures r.Ok? && Valid(n) && Valid(v) ==> Valid(r.value)
    ensures r.Ok? && Keyed(n) && Keyed(v) ==> Keyed(r.value)
  {
    if Contains(n, v.c) then Err(DuplicateKey)
    else
      var e := Entry(v.c, v);
      var r := Prefix(n.c, InsertEntry(n.next, e));
      assert forall k :: TryGetValue(r, k) == LookupEntries(r.next, k);
      assert forall k :: TryGetValue(n, k) == LookupEntries(n.next, k);
      forall k ensures LookupEntries(r.next, k) == if k == v.c then Some(v) else LookupEntries(n.next, k) {
        LookupInsert(n.next, e, k);
      }
      assert Valid(n) && Valid(v) ==> forall i :: 0 <= i < |r.next| ==> Valid(r.next[i].child) by {
        if Valid(n) && Valid(v) {
          forall i | 0 <= i < |r.next| ensures Valid(r.next[i].child) {
            assert r.next[i] in r.next;
          }
        }
      }
      assert Keyed(n) && Keyed(v) ==> Keyed(r) by {
        if Keyed(n) && Keyed(v) {
          forall i | 0 <= i < |r.next|
            ensures r.next[i].key == r.next[i].child.c && Keyed(r.next[i].child)
          {
            assert r.next[i] in r.next;
          }
        }
      }
      Ok(r)
  }

  /** The indexer setter `this[c] = v`: replaces the child under `c`, or inserts a new key. */
  function Set(n: Prefix, c: char, v: Prefix): (r: Prefix)
    ensures r.c == n.c
    ensures TryGetValue(r, c) == Some(v)
    ensures forall k :: k != c ==> TryGetValue(r, k) == TryGetValue(n, k)
    ensures Valid(n) && Valid(v) ==> Valid(r)
    ensures Keyed(n) && Keyed(v) && v.c == c ==> Keyed(r)
  {
    var i := IndexOfKey(n.next, c);
    var es := if i >= 0 then n.next[i := Entry(c, v)] else InsertEntry(n.next, Entry(c, v));
    SetLookup(n, c, v, es);
    SetMembers(n, c, v, es);
    Prefix(n.c, es)
  }

  /** The entries after setting `c` to `v` map `c` to `v` and every other key as before. */
  lemma SetLookup(n: Prefix, c: char, v: Prefix, es: seq<Entry>)
    requires var i := IndexOfKey(n.next, c);
      es == if i >= 0 then n.next[i := Entry(c, v)] else InsertEntry(n.next, Entry(c, v))
    ensures forall k :: TryGetValue(Prefix(n.c, es), k) == if k == c then Some(v) else TryGetValue(n, k)
  {
    var i := IndexOfKey(n.next, c);
    var r := Prefix(n.c, es);
    assert forall k :: TryGetValue(r, k) == LookupEntries(r.next, k);
    assert forall k :: TryGetValue(n, k) == LookupEntries(n.next, k);
    forall k ensures LookupEntries(r.next, k) == if k == c then Some(v) else LookupEntries(n.next, k) {
      if i >= 0 { LookupReplace(n.next, i, c, v, k); } else { LookupInsert(n.next, Entry(c, v), k); }
    }
  }

  /** Setting keeps the node sorted and keyed when the old node and the new child are. */
  lemma SetMembers(n: Prefix, c: char, v: Prefix, es: seq<Entry>)
    requires var i := IndexOfKey(n.next, c);
      es == if i >= 0 then n.next[i := Entry(c, v)] else InsertEntry(n.next, Entry(c, v))
    ensures Valid(n) && Valid(v) ==> Valid(Prefix(n.c, es))
    ensures Keyed(n) && Keyed(v) && v.c == c ==> Keyed(Prefix(n.c, es))
  {
    SetEntriesFrom(n, c, v, es);
    if Valid(n) && Valid(v) {
      SetSorted(n, c, v, es);
      SetValid(n, v, es);
    }
    if Keyed(n) && Keyed(v) && v.c == c {
      SetKeyed(n, c, v, es);
    }
  }

  /** Every entry after setting is the new one or an old one. */
  lemma SetEntriesFrom(n: Prefix, c: char, v: Prefix, es: seq<Entry>)
    requires var i := IndexOfKey(n.next, c);
      es == if i >= 0 then n.next[i := Entry(c, v)] else InsertEntry(n.next, Entry(c, v))
    ensures forall x :: x in es ==> x == Entry(c, v) || x in n.next
  {
    var i := IndexOfKey(n.next, c);
    if i >= 0 {
      forall x | x in es ensures x == Entry(c, v) || x in n.next {
        var j :| 0 <= j < |es| && es[j] == x;
        if j != i { assert n.next[j] == x; }
      }
    }
  }

  lemma SetSorted(n: Prefix, c: char, v: Prefix, es: seq<Entry>)
    requires var i := IndexOfKey(n.next, c);
      es == if i >= 0 then n.next[i := Entry(c, v)] else InsertEntry(n.next, Entry(c, v))
    requires SortedKeys(n.next)
    ensures SortedKeys(es)
  {
    var i := IndexOfKey(n.next, c);
    if i >= 0 {
      forall a, b | 0 <= a < b < |es| ensures es[a].key < es[b].key {
        assert es[a].key == n.next[a].key && es[b].key == n.next[b].key;
      }
    }
  }

  lemma SetValid(n: Prefix, v: Prefix, es: seq<Entry>)
    requires Valid(n) && Valid(v) && SortedKeys(es)
    requires forall x :: x in es ==> x.child == v || x in n.next
    ensures Valid(Prefix(n.c, es))
  {
    forall j | 0 <= j < |es| ensures Valid(es[j].child) {
      assert es[j] in es;
      if es[j].child != v {
        var k :| 0 <= k < |n.next| && n.next[k] == es[j];
      }
    }
  }

  lemma SetKeyed(n: Prefix, c: char, v: Prefix, es: seq<Entry>)
    requires Keyed(n) && Keyed(v) && v.c == c
    requires forall x :: x in es ==> x == Entry(c, v) || x in n.next
    ensures Keyed(Prefix(n.c, es))
  {
    forall j | 0 <= j < |es| ensures es[j].key == es[j].child.c && Keyed(es[j].child) {
      assert es[j] in es;
      if es[j] != Entry(c, v) {
        var k :| 0 <= k < |n.next| && n.next[k] == es[j];
      }
    }
  }

  /** Prefix.Children: the child nodes in key order. */
  function Children(n: Prefix): (r: seq<Prefix>)
    ensures |r| == |n.next|
  {
    seq(|n.next|, i requires 0 <= i < |n.next| => n.next[i].child)
  }

  /** `Children.Select(node => node.C)`: the characters the children represent, in key order. */
  function ChildChars(n: Prefix): (r: seq<char>)
    ensures |r| == |n.next|
  {
    seq(|n.next|, i requires 0 <= i < |n.next| => n.next[i].child.c)
  }

  /** The node reached from `n` by spelling `p` through TryGetValue, as the solver's FindNode and
      the traversal's node stack do; None once a character is missing. */
  function Find(n: Prefix, p: string): Option<Prefix>
    decreases |p|
  {
    if p == [] then Some(n)
    else
      match TryGetValue(n, p[0])
      case None => None
      case Some(m) => Find(m, p[1..])
  }

  /** Spelling one more character is one more TryGetValue at the node reached so far. */
  lemma {:induction false} FindSnoc(n: Prefix, p: string, c: char)
    ensures Find(n, p + [c]) == match Find(n, p) { case None => None case Some(m) => TryGetValue(m, c) }
    decreases |p|
  {
    if p == [] {
      assert p + [c] == [c];
      assert Find(n, [c]) == match TryGetValue(n, c) { case None => None case Some(m) => Find(m, []) };
    } else {
      assert (p + [c])[0] == p[0];
      assert (p + [c])[1..] == p[1..] + [c];
      match TryGetValue(n, p[0])
      case None =>
      case Some(m) => FindSnoc(m, p[1..], c);
    }
  }

  /** `x` is spelled from `n` down to a node without children (the strings TraverseWords yields). */
  ghost predicate LeafPath(n: Prefix, x: string) {
    |x| >= 1 && Find(n, x).Some? && Find(n, x).value.next == []
  }

  /** What TraverseWords yields from a frame whose queue still holds `q`, at node `n`, with the
      builder holding `b`: each dequeued child appends its character, then either opens a frame for
      the node that TryGetValue finds under that character (when that node has children) or yields
      the builder. */
  function Enum(n: Prefix, q: seq<Prefix>, b: string): seq<string>
    decreases n, |q|
  {
    if q == [] then []
    else
      var b' := b + [q[0].c];
      var i := IndexOfKey(n.next, q[0].c);
      (if i >= 0 && |n.next[i].child.next| > 0 then Enum(n.next[i].child, Children(n.next[i].child), b')
       else [b'])
      + Enum(n, q[1..], b)
  }

  /** The reference definition of Prefix.TraverseWords. */
  function Traverse(n: Prefix): seq<string> {
    Enum(n, Children(n), [])
  }

  /** What the frames of the explicit stack will still yield, top frame first. Frame `k` holds
      queue `S[k]` at node `N[k]`, and sees the first `k` characters of the builder. */
  function Pending(S: seq<seq<Prefix>>, N: seq<Prefix>, b: string): seq<string>
    requires |S| == |N| && (|S| > 0 ==> |b| == |S| - 1)
    decreases |S|
  {
    if |S| == 0 then []
    else Enum(N[|S| - 1], S[|S| - 1], b) + Pending(S[..|S| - 1], N[..|S| - 1], if b == [] then [] else b[..|b| - 1])
  }

  /** The number of loop iterations a frame still needs: one per dequeue plus one for its pop. */
  function Cost(n: Prefix, q: seq<Prefix>): nat
    decreases n, |q|
  {
    if q == [] then 1
    else
      var i := IndexOfKey(n.next, q[0].c);
      (if i >= 0 && |n.next[i].child.next| > 0 then Cost(n.next[i].child, Children(n.next[i].child)) else 0)
      + 1 + Cost(n, q[1..])
  }

  function SumCost(S: seq<seq<Prefix>>, N: seq<Prefix>): nat
    requires |S| == |N|
    decreases |S|
  {
    if |S| == 0 then 0 else Cost(N[|S| - 1], S[|S| - 1]) + SumCost(S[..|S| - 1], N[..|S| - 1])
  }

  /** Replacing the top queue only changes what the top frame yields and costs. */
  lemma PendingSetTop(S: seq<seq<Prefix>>, N: seq<Prefix>, b: string, q: seq<Prefix>)
    requires |S| == |N| && |S| > 0 && |b| == |S| - 1
    ensures Pending(S[|S| - 1 := q], N, b)
         == Enum(N[|S| - 1], q, b) + Pending(S[..|S| - 1], N[..|S| - 1], if b == [] then [] else b[..|b| - 1])
    ensures SumCost(S[|S| - 1 := q], N) == Cost(N[|S| - 1], q) + SumCost(S[..|S| - 1], N[..|S| - 1])
  {
    assert S[|S| - 1 := q][..|S| - 1] == S[..|S| - 1];
  }

  /** Pushing a frame for node `m` on top puts its output and cost in front of the rest. */
  lemma PendingPush(S: seq<seq<Prefix>>, N: seq<Prefix>, b: string, c: char, m: Prefix)
    requires |S| == |N| && |S| > 0 && |b| == |S| - 1
    ensures Pending(S + [Children(m)], N + [m], b + [c]) == Enum(m, Children(m), b + [c]) + Pending(S, N, b)
    ensures SumCost(S + [Children(m)], N + [m]) == Cost(m, Children(m)) + SumCost(S, N)
  {
    assert (S + [Children(m)])[..|S|] == S;
    assert (N + [m])[..|S|] == N;
    assert (b + [c])[..|b|] == b;
  }

  /** One dequeue of child `q[0]` at node `n`: the output and cost of the frame split into that
      child's share and the rest of the queue. */
  lemma EnumStep(n: Prefix, q: seq<Prefix>, b: string)
    requires q != []
    ensures var m := TryGetValue(n, q[0].c);
      && (m.Some? && |m.value.next| > 0 ==>
           Enum(n, q, b) == Enum(m.value, Children(m.value), b + [q[0].c]) + Enum(n, q[1..], b)
           && Cost(n, q) == Cost(m.value, Children(m.value)) + 1 + Cost(n, q[1..]))
      && (!(m.Some? && |m.value.next| > 0) ==>
           Enum(n, q, b) == [b + [q[0].c]] + Enum(n, q[1..], b) && Cost(n, q) == 1 + Cost(n, q[1..]))
  {
  }

  /** The node stack follows the builder: node `k` is the one reached by spelling its first `k`
      characters. */
  ghost predicate Spelled(root: Prefix, N: seq<Prefix>, b: string) {
    |N| <= |b| + 1 && forall k :: 0 <= k < |N| ==> Find(root, b[..k]) == Some(N[k])
  }

  lemma SpelledPush(root: Prefix, N: seq<Prefix>, b: string, c: char, m: Prefix)
    requires Spelled(root, N, b) && |N| == |b| + 1
    requires TryGetValue(N[|N| - 1], c) == Some(m)
    ensures Spelled(root, N + [m], b + [c])
  {
    assert Find(root, b) == Some(N[|N| - 1]) by { assert b[..|N| - 1] == b; }
    FindSnoc(root, b, c);
    forall k | 0 <= k < |N| + 1 ensures Find(root, (b + [c])[..k]) == Some((N + [m])[k]) {
      if k < |N| { assert (b + [c])[..k] == b[..k]; } else { assert (b + [c])[..k] == b + [c]; }
    }
  }

  lemma SpelledPop(root: Prefix, N: seq<Prefix>, b: string)
    requires Spelled(root, N, b) && |N| > 0
    ensures Spelled(root, N[..|N| - 1], if |b| > 0 then b[..|b| - 1] else b)
  {
    var b' := if |b| > 0 then b[..|b| - 1] else b;
    forall k | 0 <= k < |N| - 1 ensures Find(root, b'[..k]) == Some(N[k]) {
      assert b'[..k] == b[..k];
    }
  }

  /** Dequeuing a child that is yielded at once (its node has no children). */
  lemma DequeueLeaf(S: seq<seq<Prefix>>, N: seq<Prefix>, b: string)
    requires |S| == |N| && |S| > 0 && |b| == |S| - 1
    requires var q, n := S[|S| - 1], N[|S| - 1];
      q != [] && !(TryGetValue(n, q[0].c).Some? && |TryGetValue(n, q[0].c).value.next| > 0)
    ensures var q := S[|S| - 1];
      && Pending(S, N, b) == [b + [q[0].c]] + Pending(S[|S| - 1 := q[1..]], N, b)
      && SumCost(S[|S| - 1 := q[1..]], N) < SumCost(S, N)
  {
    var top := |S| - 1;
    var q := S[top];
    var A, B := [b + [q[0].c]], Enum(N[top], q[1..], b);
    var C := Pending(S[..top], N[..top], if b == [] then [] else b[..|b| - 1]);
    EnumStep(N[top], q, b);
    PendingTop(S, N, b);
    assert Pending(S, N, b) == (A + B) + C;
    PendingSetTop(S, N, b, q[1..]);
    ConcatAssoc(A, B, C);
  }

  /** Dequeuing a child whose node has children opens a frame for that node. */
  lemma DequeuePush(S: seq<seq<Prefix>>, N: seq<Prefix>, b: string, m: Prefix)
    requires |S| == |N| && |S| > 0 && |b| == |S| - 1
    requires var q, n := S[|S| - 1], N[|S| - 1];
      q != [] && TryGetValue(n, q[0].c) == Some(m) && |m.next| > 0
    ensures var q := S[|S| - 1];
      var S' := S[|S| - 1 := q[1..]] + [Children(m)];
      && Pending(S, N, b) == Pending(S', N + [m], b + [q[0].c])
      && SumCost(S', N + [m]) < SumCost(S, N)
  {
    var top := |S| - 1;
    var q, n := S[top], N[top];
    var c := q[0].c;
    var mid := S[top := q[1..]];
    var A, B := Enum(m, Children(m), b + [c]), Enum(n, q[1..], b);
    var C := Pending(S[..top], N[..top], if b == [] then [] else b[..|b| - 1]);
    EnumStep(n, q, b);
    PendingTop(S, N, b);
    assert Pending(S, N, b) == (A + B) + C;
    PendingSetTop(S, N, b, q[1..]);
    PendingPush(mid, N, b, c, m);
    assert Pending(mid + [Children(m)], N + [m], b + [c]) == A + (B + C);
    ConcatAssoc(A, B, C);
  }

  /** One unfolding of what a non-empty stack yields and costs. */
  lemma PendingTop(S: seq<seq<Prefix>>, N: seq<Prefix>, b: string)
    requires |S| == |N| && |S| > 0 && |b| == |S| - 1
    ensures Pending(S, N, b)
         == Enum(N[|S| - 1], S[|S| - 1], b) + Pending(S[..|S| - 1], N[..|S| - 1], if b == [] then [] else b[..|b| - 1])
    ensures SumCost(S, N) == Cost(N[|S| - 1], S[|S| - 1]) + SumCost(S[..|S| - 1], N[..|S| - 1])
  {
  }

  /** Popping a frame whose queue is empty. */
  lemma PopFrame(S: seq<seq<Prefix>>, N: seq<Prefix>, b: string)
    requires |S| == |N| && |S| > 0 && |b| == |S| - 1 && S[|S| - 1] == []
    ensures Pending(S, N, b) == Pending(S[..|S| - 1], N[..|S| - 1], if |b| > 0 then b[..|b| - 1] else b)
    ensures SumCost(S[..|S| - 1], N[..|S| - 1]) < SumCost(S, N)
  {
  }

  /** Prefix.TraverseWords: the explicit stack of child queues, the stack of nodes and the builder.
      At the loop head the builder is one shorter than the stacks, and the top node is the one
      reached from `root` by spelling the builder. */
  method TraverseWords(root: Prefix) returns (words: seq<string>)
    ensures words == Traverse(root)
  {
    var builder: string := [];
    var stack: seq<seq<Prefix>> := [Children(root)];
    var nodes: seq<Prefix> := [root];
    words := [];
    TraversalStart(root);
    while |stack| > 0
      invariant Traversal(root, words, stack, nodes, builder)
      decreases SumCost(stack, nodes)
    {
      var top := |stack| - 1;
      var node := nodes[top];
      var children := stack[top];
      ghost var S, N, b, words0 := stack, nodes, builder, words;
      if |children| > 0 {
        var child := children[0];
        var nextNode := TryGetValue(node, child.c);
        stack := stack[top := children[1..]];
        builder := builder + [child.c];
        if nextNode.Some? && |nextNode.value.next| > 0 {
          TraversalPush(root, words0, S, N, b, nextNode.value);
          stack := stack + [Children(nextNode.value)];
          nodes := nodes + [nextNode.value];
        } else {
          TraversalLeaf(root, words0, S, N, b);
          words := words + [builder];
          builder := builder[..|builder| - 1];
          assert builder == b;
        }
        assert Traversal(root, words, stack, nodes, builder);
      } else {
        TraversalPop(root, words0, S, N, b);
        stack := stack[..top];
        nodes := nodes[..top];
        builder := if |builder| > 0 then builder[..|builder| - 1] else builder;
        assert Traversal(root, words, stack, nodes, builder);
      }
    }
    TraversalDone(root, words, builder);
  }

  /** The invariant of TraverseWords: the stacks and the builder agree in length, the nodes are
      the ones the builder spells, and the words so far followed by what the stack still yields
      are the whole traversal. */
  ghost predicate Traversal(root: Prefix, words: seq<string>, S: seq<seq<Prefix>>, N: seq<Prefix>, b: string) {
    && |S| == |N| && (|S| > 0 ==> |b| == |S| - 1) && (|S| == 0 ==> b == [])
    && Spelled(root, N, b)
    && words + Pending(S, N, b) == Traverse(root)
  }

  lemma TraversalStart(root: Prefix)
    ensures Traversal(root, [], [Children(root)], [root], [])
  {
    var S, N: seq<Prefix> := [Children(root)], [root];
    var e: string := [];
    assert S[..0] == [] && N[..0] == [];
    assert Pending(S, N, e) == Traverse(root);
    assert Spelled(root, N, e) by { assert e[..0] == e; }
  }

  lemma TraversalDone(root: Prefix, words: seq<string>, b: string)
    requires Traversal(root, words, [], [], b)
    ensures words == Traverse(root)
  {
    assert words + [] == words;
  }

  /** Dequeuing a child that is yielded at once. */
  lemma TraversalLeaf(root: Prefix, words: seq<string>, S: seq<seq<Prefix>>, N: seq<Prefix>, b: string)
    requires Traversal(root, words, S, N, b) && S != []
    requires var q, n := S[|S| - 1], N[|S| - 1];
      q != [] && !(TryGetValue(n, q[0].c).Some? && |TryGetValue(n, q[0].c).value.next| > 0)
    ensures var q := S[|S| - 1];
      && Traversal(root, words + [b + [q[0].c]], S[|S| - 1 := q[1..]], N, b)
      && SumCost(S[|S| - 1 := q[1..]], N) < SumCost(S, N)
  {
    var q := S[|S| - 1];
    DequeueLeaf(S, N, b);
    ConcatAssoc(words, [b + [q[0].c]], Pending(S[|S| - 1 := q[1..]], N, b));
  }

  /** Dequeuing a child that has children of its own. */
  lemma TraversalPush(root: Prefix, words: seq<string>, S: seq<seq<Prefix>>, N: seq<Prefix>, b: string, m: Prefix)
    requires Traversal(root, words, S, N, b) && S != []
    requires var q, n := S[|S| - 1], N[|S| - 1];
      q != [] && TryGetValue(n, q[0].c) == Some(m) && |m.next| > 0
    ensures var q := S[|S| - 1];
      var S' := S[|S| - 1 := q[1..]] + [Children(m)];
      && Traversal(root, words, S', N + [m], b + [q[0].c])
      && SumCost(S', N + [m]) < SumCost(S, N)
  {
    var q := S[|S| - 1];
    DequeuePush(S, N, b, m);
    SpelledPush(root, N, b, q[0].c, m);
  }

  /** Popping a frame whose queue is empty. */
  lemma TraversalPop(root: Prefix, words: seq<string>, S: seq<seq<Prefix>>, N: seq<Prefix>, b: string)
    requires Traversal(root, words, S, N, b) && S != [] && S[|S| - 1] == []
    ensures var t := |S| - 1; var b' := if |b| > 0 then b[..|b| - 1] else b;
      && Traversal(root, words, S[..t], N[..t], b')
      && SumCost(S[..t], N[..t]) < SumCost(S, N)
  {
    PopFrame(S, N, b);
    SpelledPop(root, N, b);
  }

  // ---------------------------------------------------------------------------------------------
  // What the traversal yields, on a sorted tree whose children sit under their own characters.

  /** Every string a frame yields starts with the builder's content and extends it. */
  lemma {:induction false} EnumExtends(n: Prefix, q: seq<Prefix>, b: string)
    ensures forall w :: w in Enum(n, q, b) ==> |w| > |b| && w[..|b|] == b
    decreases n, |q|
  {
    if q != [] {
      var b' := b + [q[0].c];
      var i := IndexOfKey(n.next, q[0].c);
      if i >= 0 && |n.next[i].child.next| > 0 {
        EnumExtends(n.next[i].child, Children(n.next[i].child), b');
        assert forall w: string :: |w| > |b'| && w[..|b'|] == b' ==> w[..|b|] == b by {
          forall w: string | |w| > |b'| && w[..|b'|] == b' ensures w[..|b|] == b {
            assert w[..|b|] == w[..|b'|][..|b|];
          }
        }
      }
      assert b'[..|b|] == b;
      EnumExtends(n, q[1..], b);
    }
  }

  /** On a sorted, keyed node, looking a child's own character up finds that child's position. */
  lemma KeyPosition(n: Prefix, i: nat)
    requires Valid(n) && Keyed(n) && i < |n.next|
    ensures IndexOfKey(n.next, n.next[i].child.c) == i
    ensures TryGetValue(n, n.next[i].child.c) == Some(n.next[i].child)
  {
    assert n.next[i].key == n.next[i].child.c;
  }

  /** The queue suffix `Children(n)[i..]` starts with child `i`. */
  lemma ChildrenSuffix(n: Prefix, i: nat)
    requires i < |n.next|
    ensures Children(n)[i..] != [] && Children(n)[i..][0] == n.next[i].child
    ensures Children(n)[i..][1..] == Children(n)[i + 1..]
  {
  }

  /** A leaf path through child `ch` (found under character `k`) is `k` followed by a leaf path of
      `ch`, or `k` alone when `ch` has no children. */
  lemma LeafPathThrough(n: Prefix, ch: Prefix, x: string)
    requires x != [] && TryGetValue(n, x[0]) == Some(ch)
    ensures LeafPath(n, x) <==> (if ch.next == [] then |x| == 1 else LeafPath(ch, x[1..]))
  {
    assert Find(n, x) == Find(ch, x[1..]);
    if ch.next == [] && |x| > 1 {
      assert TryGetValue(ch, x[1..][0]) == None;
    }
  }

  /** What the frame yields for one dequeued child `ch`, with the builder `b` before it. */
  function Part(ch: Prefix, b: string): seq<string> {
    if |ch.next| > 0 then Enum(ch, Children(ch), b + [ch.c]) else [b + [ch.c]]
  }

  /** A string read under builder `b` is a leaf path starting at child `i`: what the frame yields
      while handling child `i`. */
  ghost predicate LeafUnder(n: Prefix, b: string, w: string, i: int) {
    |w| > |b| && w[..|b|] == b && LeafPath(n, w[|b|..]) && IndexOfKey(n.next, w[|b|]) == i
  }

  /** A leaf child yields exactly its own one-character extension of the builder. */
  lemma LeafChildMembers(n: Prefix, i: nat, b: string, w: string)
    requires Valid(n) && Keyed(n) && i < |n.next| && n.next[i].child.next == []
    ensures w in Part(n.next[i].child, b) <==> LeafUnder(n, b, w, i)
  {
    var ch := n.next[i].child;
    KeyPosition(n, i);
    if w == b + [ch.c] {
      assert w[..|b|] == b && w[|b|..] == [ch.c];
      LeafPathThrough(n, ch, [ch.c]);
    }
    if LeafUnder(n, b, w, i) {
      var x := w[|b|..];
      assert x[0] == ch.c;
      LeafPathThrough(n, ch, x);
      assert w == w[..|b|] + x;
    }
  }

  /** An inner child yields exactly the leaf paths through it. */
  lemma {:induction false} InnerChildMembers(n: Prefix, i: nat, b: string, w: string)
    requires Valid(n) && Keyed(n) && i < |n.next| && n.next[i].child.next != []
    ensures w in Part(n.next[i].child, b) <==> LeafUnder(n, b, w, i)
    decreases n, 0, 0
  {
    var ch := n.next[i].child;
    var b' := b + [ch.c];
    assert Children(ch)[0..] == Children(ch);
    ChildFacts(n, ch.c) by { KeyPosition(n, i); }
    EnumMembers(ch, 0, b', w);
    if |w| > |b'| && w[..|b'|] == b' && LeafPath(ch, w[|b'|..]) {
      InnerForward(n, i, b, w);
    }
    if LeafUnder(n, b, w, i) {
      InnerBackward(n, i, b, w);
    }
  }

  /** A leaf path of an inner child, after the builder and the child's character, is a leaf path
      of the frame through that child. */
  lemma InnerForward(n: Prefix, i: nat, b: string, w: string)
    requires Valid(n) && Keyed(n) && i < |n.next| && n.next[i].child.next != []
    requires var b' := b + [n.next[i].child.c];
      |w| > |b'| && w[..|b'|] == b' && LeafPath(n.next[i].child, w[|b'|..])
    ensures LeafUnder(n, b, w, i)
  {
    var ch := n.next[i].child;
    var b' := b + [ch.c];
    KeyPosition(n, i);
    var x := w[|b|..];
    assert w[..|b|] == b by { assert w[..|b|] == w[..|b'|][..|b|]; }
    assert x[0] == ch.c by { assert x[0] == w[..|b'|][|b|] == b'[|b|]; }
    assert x[1..] == w[|b'|..];
    LeafPathThrough(n, ch, x);
  }

  /** A leaf path of the frame through an inner child continues as a leaf path of that child. */
  lemma InnerBackward(n: Prefix, i: nat, b: string, w: string)
    requires Valid(n) && Keyed(n) && i < |n.next| && n.next[i].child.next != []
    requires LeafUnder(n, b, w, i)
    ensures var ch, b' := n.next[i].child, b + [n.next[i].child.c];
      && |w| > |b'| && w[..|b'|] == b' && LeafPath(ch, w[|b'|..]) && IndexOfKey(ch.next, w[|b'|]) >= 0
  {
    var ch := n.next[i].child;
    var b' := b + [ch.c];
    var x := w[|b|..];
    DropOne(w, |b|);
    KeyPosition(n, i);
    LeafPathThrough(n, ch, x);
    PrefixExtend(w, b, ch.c);
    DropOne(w, |b'|);
    LeafPathHead(ch, w[|b'|..]);
  }

  /** The first character of a leaf path is a key of the node. */
  lemma LeafPathHead(n: Prefix, x: string)
    requires LeafPath(n, x)
    ensures IndexOfKey(n.next, x[0]) >= 0
  {
    assert TryGetValue(n, x[0]).Some?;
  }

  /** Exactly the leaf paths leave a frame holding the children from position `i` on. */
  lemma {:induction false} EnumMembers(n: Prefix, i: nat, b: string, w: string)
    requires Valid(n) && Keyed(n) && i <= |n.next|
    ensures w in Enum(n, Children(n)[i..], b)
        <==> |w| > |b| && w[..|b|] == b && LeafPath(n, w[|b|..]) && IndexOfKey(n.next, w[|b|]) >= i
    decreases n, 1, |n.next| - i
  {
    var q := Children(n)[i..];
    if i == |n.next| {
      assert q == [];
      if |w| > |b| && LeafPath(n, w[|b|..]) {
        assert w[|b|..][0] == w[|b|];
        assert TryGetValue(n, w[|b|]).Some?;
      }
    } else {
      ChildrenSuffix(n, i);
      var ch := n.next[i].child;
      assert ch.c == n.next[i].key;
      assert Enum(n, q, b) == Part(ch, b) + Enum(n, Children(n)[i + 1..], b) by {
        KeyPosition(n, i);
      }
      EnumMembers(n, i + 1, b, w);
      if ch.next == [] { LeafChildMembers(n, i, b, w); } else { InnerChildMembers(n, i, b, w); }
    }
  }

  /** Traversal yields exactly the strings spelled along a path from the root to a node with no
      children: the words a dictionary tree holds. */
  lemma TraverseMembers(n: Prefix, w: string)
    requires Valid(n) && Keyed(n)
    ensures w in Traverse(n) <==> LeafPath(n, w)
  {
    assert Children(n)[0..] == Children(n);
    EnumMembers(n, 0, [], w);
    assert w[..0] == [] && w[0..] == w;
    if LeafPath(n, w) {
      assert TryGetValue(n, w[0]).Some?;
    }
  }

  /** A string yielded for child `i` extends the builder by that child's character. */
  lemma PartExtends(ch: Prefix, b: string, x: string)
    requires x in Part(ch, b)
    ensures |x| > |b| && x[..|b| + 1] == b + [ch.c]
  {
    if ch.next != [] {
      EnumExtends(ch, Children(ch), b + [ch.c]);
    }
  }

  /** A string yielded for child `i` sorts before one yielded for a later child. */
  lemma PairOrdered(n: Prefix, i: nat, b: string, x: string, y: string)
    requires Valid(n) && Keyed(n) && i < |n.next|
    requires x in Part(n.next[i].child, b) && y in Enum(n, Children(n)[i + 1..], b)
    ensures Less(x, y)
  {
    var ch := n.next[i].child;
    var k := |b| + 1;
    PartExtends(ch, b, x);
    EnumMembers(n, i + 1, b, y);
    assert ch.c < y[|b|] by {
      var j := IndexOfKey(n.next, y[|b|]);
      assert i < j && n.next[i].key < n.next[j].key;
    }
    ExtendsSplit(b, ch.c, x);
    ForkSplit(b, y);
    LessAtFork(b, ch.c, y[|b|], x[k..], y[k..]);
  }

  /** Everything a later child yields sorts after everything an earlier child yields. */
  lemma PartBeforeRest(n: Prefix, i: nat, b: string)
    requires Valid(n) && Keyed(n) && i < |n.next|
    ensures forall x, y ::
      x in Part(n.next[i].child, b) && y in Enum(n, Children(n)[i + 1..], b) ==> Less(x, y)
  {
    forall x, y | x in Part(n.next[i].child, b) && y in Enum(n, Children(n)[i + 1..], b)
      ensures Less(x, y)
    {
      PairOrdered(n, i, b, x, y);
    }
  }

  lemma {:induction false} EnumAscending(n: Prefix, i: nat, b: string)
    requires Valid(n) && Keyed(n) && i <= |n.next|
    ensures StrictlyAscending(Enum(n, Children(n)[i..], b))
    decreases n, |n.next| - i
  {
    if i < |n.next| {
      ChildrenSuffix(n, i);
      var ch := n.next[i].child;
      assert Enum(n, Children(n)[i..], b) == Part(ch, b) + Enum(n, Children(n)[i + 1..], b) by {
        KeyPosition(n, i);
      }
      if ch.next != [] {
        assert Children(ch)[0..] == Children(ch);
        EnumAscending(ch, 0, b + [ch.c]);
      }
      EnumAscending(n, i + 1, b);
      PartBeforeRest(n, i, b);
      AscendingConcat(Part(ch, b), Enum(n, Children(n)[i + 1..], b));
    }
  }

  /** Traversal yields the words in ordinal order, hence each word once. */
  lemma TraverseAscending(n: Prefix)
    requires Valid(n) && Keyed(n)
    ensures StrictlyAscending(Traverse(n))
    ensures forall i, j :: 0 <= i < j < |Traverse(n)| ==> Traverse(n)[i] != Traverse(n)[j]
  {
    assert Children(n)[0..] == Children(n);
    EnumAscending(n, 0, []);
    AscendingDistinct(Traverse(n));
  }

  // ---------------------------------------------------------------------------------------------
  // Facts the solver relies on.

  /** Children come out in strictly ascending character order, and their characters are exactly
      the keys. */
  lemma ChildCharsOrder(n: Prefix)
    requires Valid(n) && Keyed(n)
    ensures CharsAscending(ChildChars(n))
    ensures forall c :: c in ChildChars(n) <==> Contains(n, c)
  {
    forall c | Contains(n, c) ensures c in ChildChars(n) {
      var i := IndexOfKey(n.next, c);
      assert ChildChars(n)[i] == c;
    }
    forall c | c in ChildChars(n) ensures Contains(n, c) {
      var i :| 0 <= i < |n.next| && ChildChars(n)[i] == c;
      assert Keys(n)[i] == c;
    }
  }

  /** A child found under `c` is a sorted, keyed node representing `c`. */
  lemma ChildFacts(n: Prefix, c: char)
    requires Valid(n) && Keyed(n) && TryGetValue(n, c).Some?
    ensures TryGetValue(n, c).value.c == c
    ensures Valid(TryGetValue(n, c).value) && Keyed(TryGetValue(n, c).value)
  {
    var i :| 0 <= i < |n.next| && n.next[i] == Entry(c, TryGetValue(n, c).value);
  }

  /** Every node reached by Find is sorted and keyed. */
  lemma {:induction false} FindFacts(n: Prefix, p: string)
    requires Valid(n) && Keyed(n) && Find(n, p).Some?
    ensures Valid(Find(n, p).value) && Keyed(Find(n, p).value)
    decreases |p|
  {
    if p != [] {
      ChildFacts(n, p[0]);
      FindFacts(TryGetValue(n, p[0]).value, p[1..]);
    }
  }

  /** A string that can be spelled can be spelled up to any of its prefixes. */
  lemma {:induction false} FindPrefix(n: Prefix, p: string, k: nat)
    requires k <= |p| && Find(n, p).Some?
    ensures Find(n, p[..k]).Some?
    decreases |p|
  {
    if k > 0 {
      assert p[..k][0] == p[0] && p[..k][1..] == p[1..][..k - 1];
      FindPrefix(TryGetValue(n, p[0]).value, p[1..], k - 1);
    }
  }
}
