/** Failure-carrying results shared by the trie, the board and the solver. */
module Common {

  /** The exceptions the modelled code can raise, one constructor per .NET exception type. */
  datatype Error =
    | KeyNotFound          // SortedList indexer get on a missing key
    | DuplicateKey         // SortedList.Add of a key that is already present
    | IndexOutOfRange      // a row or column index outside [0, Size)
    | ArgumentOutOfRange   // a cell character outside ' ' and a-z, or a non-square row list
    | NullReference        // use of a reference field that was never assigned
    | Overflow             // an array dimension below zero

  datatype Option<T> = None | Some(value: T)

  datatype Result<T> = Ok(value: T) | Err(error: Error)

  /** The outcome of an operation that returns nothing but may throw. */
  datatype Outcome = Pass | Fail(error: Error)

  /** A longer prefix of a sequence is the shorter one followed by the next element. */
  lemma PrefixSnoc<T>(s: seq<T>, i: nat)
    requires i < |s|
    ensures s[..i + 1] == s[..i] + [s[i]]
  {
  }

  /** A non-empty sequence is its front followed by its last element. */
  lemma LastSplit<T>(s: seq<T>)
    requires s != []
    ensures s == s[..|s| - 1] + [s[|s| - 1]]
  {
  }

  /** Concatenation of sequences is associative. */
  lemma ConcatAssoc<T>(a: seq<T>, b: seq<T>, c: seq<T>)
    ensures (a + b) + c == a + (b + c)
  {
  }
}
