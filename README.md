# WordGrid search engine in Dafny

This project models the search engine of WordGrid, a word-square finder. A word square is an
N×N board whose rows and columns are all dictionary words of length N. The model covers three parts.

- **Prefix tree** (`Tries`, `prefix.dfy`).
  - A `Prefix` node holds a character and a `SortedList<char, Prefix>` of children.
  - The model represents it as a value `Prefix(c, next)`. `next` is the entry list kept in
    strictly ascending key order, as `SortedList` keeps it.
  - It models `Contains`, `TryGetValue`, the indexer get and set, `Add`, `Children` and
    `TraverseWords`.
  - `TraverseWords` is a method with the source's explicit stack of child queues, node stack and
    builder. It is proved equal to a recursive reference definition, `Traverse`.
  - That definition yields exactly the root-to-leaf strings ("leaf paths"), in strictly ascending
    ordinal order, so each string once.
- **Board** (`Boards`, `board.dfy`).
  - A class over an `array2<char>` and two arrays of constraint maps (row `r`: column → letter;
    column `c`: row → letter).
  - Each mutating method is tied to a function of the old contents: `SetCell` to `WriteCell`,
    `SetRow` to `WriteRow`, `SetColumn` to `WriteColumn`. `Clear` gives a board of spaces with no
    constraints.
  - Lemmas show what those functions change and that they keep the two families of maps mirror
    images of each other and true to the grid (`Consistent`).
  - Also modelled: the `Rows`/`Columns` views, the constraint getters, `Contains`, `ToString`, and
    the two constructors.
  - `Clone` is modelled as the documented deep copy. The copy constructor as written is a finding
    (below).
- **Solver** (`Dictionary`, `Exploring`, `RowSearch`, `Search`, `Solvers`).
  - **Dictionary loading.** `Initialize` keeps a line when its trimmed, lower-cased form has the
    solver's length and only letters a–z. It inserts each kept word into the tree.
  - **Word lookups.** `Contains` and `FindNode` are modelled.
  - **`FindNextLetters`.** This is the letters a column prefix may continue with. It is pruned by
    the column's presets: one explicit-stack search per child letter (`SearchLetter`, reference
    definition `Explore`).
  - **`FindRowSolutions`.** This is the per-column letter lists, then an explicit-stack walk over
    the tree (`WalkRow`, reference definition `RowEnum`).
  - **The preset rule, as written and corrected.** The column rule `RowSearch.ColumnLetters` takes
    a flag `checked`, which every search function after it carries too.
    - `checked == false` is the code as written: a preset letter is taken without looking at the
      column's prefix. The solver's methods compute this rule.
    - `checked == true` is the corrected rule: a preset letter that does not continue the
      column's prefix ends the search. It exists only as specification functions and the lemmas
      about them.
  - **`ProcessSolutions`.** This is the stack-of-queues search over rows (reference definition
    `Search.Solutions`). A full board is kept only when no row equals a column.
  - **`FindSolutions` and `FindAllSolutions`.** `FindAllSolutions` deals the first-row candidates
    round-robin onto `cores` queues, searches each queue and concatenates the results.
  - **What a solution satisfies, as written.**
    - Its rows are distinct loaded words carrying their presets, and no row equals a column.
    - Every column is a loaded word except one whose cell in the last row is preset.
    - On a board without presets, the result equals that of the corrected search.

**Behaviours the source has and the model keeps:**
- Exceptions become `Result`/`Outcome` values: `KeyNotFound`, `DuplicateKey`, `IndexOutOfRange`,
  `ArgumentOutOfRange` and `NullReference`.
- A preset letter is not checked against its column (see Findings).
- `Board.Contains` is false on a board of size 1. Its inner loop never runs there, so the method
  never returns true.
- Before `Initialize` the solver's root is null. `FindNode("")` then gives null and any other
  prefix throws.

## Model

| member | source | states |
|---|---|---|
| Tries.Contains | WordGrid.Core/Prefix.cs:59-62 | a node contains `c` exactly when `c` is one of its keys |
| Tries.TryGetValue | WordGrid.Core/Prefix.cs:79-82 | succeeds exactly when `Contains` holds; the result is the child stored under that key |
| Tries.Get | WordGrid.Core/Prefix.cs:24-26 | the indexer get returns the child under `c`, and fails with KeyNotFound exactly when `c` is not a key |
| Tries.Add | WordGrid.Core/Prefix.cs:68-71 | fails with DuplicateKey exactly when `v.C` is already a key; otherwise `v` is found under `v.C`, every other key is unchanged, and the node stays sorted and keyed |
| Tries.Set | WordGrid.Core/Prefix.cs:27 | after the indexer set, a get of `c` gives the new child, every other key is unchanged, and sortedness is kept |
| Tries.SetLookup | WordGrid.Core/Prefix.cs:27 | replacing or inserting the entry for `c` maps `c` to the new child and every other key as before |
| Tries.InsertEntry | WordGrid.Core/Prefix.cs:70 | inserting a new key adds exactly that entry and keeps the keys strictly ascending |
| Tries.LookupInsert | WordGrid.Core/Prefix.cs:70 | after inserting a fresh key, lookups find the new child under it and the old children elsewhere |
| Tries.LookupReplace | WordGrid.Core/Prefix.cs:27 | overwriting the entry of an existing key changes only the lookup of that key |
| Tries.Children | WordGrid.Core/Prefix.cs:33 | one child per entry |
| Tries.ChildCharsOrder | WordGrid.Core/Prefix.cs:33-35 | the children's characters come out strictly ascending and are exactly the characters `Contains` accepts |
| Tries.ChildFacts | WordGrid.Core/Prefix.cs:79-82 | the child found under `c` represents `c` and is itself sorted and keyed |
| Tries.FindSnoc | WordGrid/Solver.cs:302-313 | spelling one more character is one more `TryGetValue` at the node reached so far |
| Tries.FindFacts | WordGrid/Solver.cs:302-313 | every node reached by spelling is sorted and keyed |
| Tries.FindPrefix | WordGrid/Solver.cs:302-313 | a string that can be spelled can be spelled up to each of its prefixes |
| Tries.TraverseWords | WordGrid.Core/Prefix.cs:88-119 | the stack machine yields exactly the reference traversal `Traverse` |
| Tries.TraversalStart | WordGrid.Core/Prefix.cs:90-92 | the initial stacks and empty builder satisfy the loop invariant (stack depth = nodes depth = builder length + 1, top node spelled by the builder, output + pending = traversal) |
| Tries.TraversalLeaf | WordGrid.Core/Prefix.cs:99-110 | dequeuing a child without children appends builder + its character to the output, keeps the invariant, and shrinks the measure |
| Tries.TraversalPush | WordGrid.Core/Prefix.cs:99-105 | dequeuing a child with children pushes its queue and node, extends the builder, keeps the invariant, and shrinks the measure |
| Tries.TraversalPop | WordGrid.Core/Prefix.cs:112-117 | popping an empty queue pops the node, shortens the builder (never below 0), keeps the invariant, and shrinks the measure |
| Tries.TraversalDone | WordGrid.Core/Prefix.cs:93 | once the stack is empty the output is the whole traversal |
| Tries.SpelledPush | WordGrid.Core/Prefix.cs:101-104 | pushing the child found under `c` keeps the node stack spelled by the builder |
| Tries.SpelledPop | WordGrid.Core/Prefix.cs:114-116 | popping both stacks and the builder keeps the node stack spelled by the builder |
| Tries.EnumStep | WordGrid.Core/Prefix.cs:97-110 | one dequeue splits a frame's output into the child's share (a sub-frame or a single string) and the rest of the queue |
| Tries.DequeueLeaf | WordGrid.Core/Prefix.cs:99-109 | the stack's pending output starts with the yielded string and continues with the rest |
| Tries.DequeuePush | WordGrid.Core/Prefix.cs:99-105 | pushing a frame for the child leaves the stack's pending output unchanged |
| Tries.PopFrame | WordGrid.Core/Prefix.cs:114-116 | popping an exhausted frame leaves the stack's pending output unchanged |
| Tries.EnumExtends | WordGrid.Core/Prefix.cs:100 | every string a frame yields strictly extends the builder's content |
| Tries.EnumMembers | WordGrid.Core/Prefix.cs:88-119 | a frame holding the children from position `i` on yields exactly the builder followed by a leaf path through child `i` or a later one |
| Tries.TraverseMembers | WordGrid.Core/Prefix.cs:88-119 | TraverseWords yields exactly the leaf paths from the node, without the node's own character |
| Tries.PairOrdered | WordGrid.Core/Prefix.cs:91-103 | a string yielded for child `i` sorts before one yielded for a later child |
| Tries.EnumAscending | WordGrid.Core/Prefix.cs:91-103 | a frame's output is strictly ascending |
| Tries.TraverseAscending | WordGrid.Core/Prefix.cs:88-119 | TraverseWords yields strictly ascending strings, hence no string twice |
| Lex.Lower | WordGrid/Board.cs:112 | char.ToLowerInvariant on ASCII: A–Z become a–z, every other character is kept |
| Lex.LowerAll | WordGrid/Solver.cs:46 | string.ToLowerInvariant on ASCII lower-cases each position |
| Dictionary.SkipSpaces | WordGrid/Solver.cs:46 | the first position at or after `i` that is not white space |
| Dictionary.DropSpaces | WordGrid/Solver.cs:46 | the end of a slice once trailing white space is dropped |
| Dictionary.Trim | WordGrid/Solver.cs:46 | string.Trim: a slice of the line with only white space cut off either side, and no white space at either end |
| Dictionary.Kept | WordGrid/Solver.cs:44-49 | the kept words are at most the lines, and each is a word of the solver's length over a–z |
| Dictionary.KeptMembers | WordGrid/Solver.cs:46-49 | a word is kept exactly when some line trims and lower-cases to it and passes the filter |
| Dictionary.InsertWordValid | WordGrid/Solver.cs:50-58 | inserting a word keeps the tree sorted and keyed and keeps the root's character |
| Dictionary.InsertWordHead | WordGrid/Solver.cs:51-57 | one insertion step: a missing letter is `Add`ed as `new Prefix(c)` before descending into it with the indexer; other keys are untouched |
| Dictionary.InsertWordFind | WordGrid/Solver.cs:50-58 | after inserting `w`, exactly the old paths and the prefixes of `w` can be spelled |
| Dictionary.BuildPaths | WordGrid/Solver.cs:37-61 | the tree built from the kept words is sorted and keyed and spells exactly the prefixes of those words |
| Dictionary.LoadedWord | WordGrid/Solver.cs:69-76 | in a tree of words of one length, a string of that length is spelled exactly when it is a loaded word |
| Boards.Transpose | WordGrid/Board.cs:39-40 | the columns of a square grid: cell (i, j) of the transpose is cell (j, i) |
| Boards.TransposeTwice | WordGrid/Board.cs:33-40 | the columns of the columns are the rows |
| Boards.Placed | WordGrid/Board.cs:118-127 | a space removes the key, a letter records it, every other key is kept |
| Boards.WriteCell | WordGrid/Board.cs:110-128 | SetCell fails with IndexOutOfRange exactly for a row or column outside the board, and with ArgumentOutOfRange exactly for an in-range cell whose lower-cased character is neither a space nor a–z, and a failure changes nothing |
| Boards.WriteCellEffect | WordGrid/Board.cs:117-127 | a successful write sets that cell to the lower-cased character, removes or records it in exactly the row map and column map of the cell, and changes nothing else |
| Boards.WriteCellConsistent | WordGrid/Board.cs:117-127 | cell writes keep the row and column maps mirror images of each other and true to the grid |
| Boards.Stop | WordGrid/Board.cs:137-139 | the position where a run of row or column writes stops: the first failing write, or the end of the word |
| Boards.WriteRowCell | WordGrid/Board.cs:135-141 | after SetRow, exactly the cells of the row before the stopping position hold the lower-cased letters |
| Boards.WriteRowEffect | WordGrid/Board.cs:135-141 | SetRow passes exactly when no write fails (a word longer than the board fails once it runs off the row, keeping the earlier cells); the failure is the first write's error; the row's map changes only at the written positions |
| Boards.WriteColumnCell | WordGrid/Board.cs:148-154 | after SetColumn, exactly the cells of the column before the stopping position hold the lower-cased letters |
| Boards.WriteColumnEffect | WordGrid/Board.cs:148-154 | the column counterpart of WriteRowEffect |
| Boards.WriteRowConsistent | WordGrid/Board.cs:135-141 | SetRow keeps the maps consistent |
| Boards.WriteColumnConsistent | WordGrid/Board.cs:148-154 | SetColumn keeps the maps consistent |
| Boards.CopyAsWrittenFails | WordGrid/Board.cs:87-93 | the copy constructor as written always throws NullReference, so it never yields a copy |
| Boards.JoinLinesLength | WordGrid/Board.cs:232-247 | the text of m rows of length n has m·n characters plus m − 1 line breaks |
| Boards.JoinLinesRow | WordGrid/Board.cs:232-247 | row `i` of the text starts at `i·(n + newline length)`, with no line break after the last row |
| Boards.Board.Rows | WordGrid/Board.cs:33-34 | row `i` read left to right |
| Boards.Board.Columns | WordGrid/Board.cs:39-40 | the columns are the transpose of the rows |
| Boards.Board.constructor | WordGrid/Board.cs:50-56 | a new board of `size` holds '\0' in every cell and has no constraints |
| Boards.Board.Create | WordGrid/Board.cs:50-56 | `new Board(size)` for any int: fails with Overflow exactly when `size` is negative (the allocation at line 53); otherwise a fresh board of that size with '\0' in every cell and no constraints |
| Boards.Board.FromRows | WordGrid/Board.cs:62-81 | fails exactly when some row's length differs from the number of rows; otherwise the cells are the rows, copied unchecked, and every constraint map is empty |
| Boards.Board.Clone | WordGrid/Board.cs:99-102 | a fresh board of the same size whose cells and constraint maps equal this board's, sharing no array with it |
| Boards.Board.Get | WordGrid/Board.cs:24-26 | the character at (i, j), which is row i's j-th and column j's i-th; IndexOutOfRange outside the board |
| Boards.Board.GetRowConstraints | WordGrid/Board.cs:161-164 | the presets of a row: each key is a column whose cell holds that letter a–z, mirrored in that column's map |
| Boards.Board.GetColumnConstraints | WordGrid/Board.cs:171-174 | the presets of a column, mirrored in the row maps |
| Boards.Board.SetCell | WordGrid/Board.cs:110-128 | the outcome and the new contents are those of WriteCell, and the maps stay consistent |
| Boards.Board.SetRow | WordGrid/Board.cs:135-141 | the outcome and the new contents are those of WriteRow from position 0 |
| Boards.Board.SetColumn | WordGrid/Board.cs:148-154 | the outcome and the new contents are those of WriteColumn from position 0 |
| Boards.Board.Clear | WordGrid/Board.cs:215-226 | every cell becomes a space and every constraint map is emptied |
| Boards.Board.Contains | WordGrid/Board.cs:181-210 | true exactly when the board has size at least 2, the word has the board's size, and it equals some row or column |
| Boards.Board.ToString | WordGrid/Board.cs:232-247 | the rows joined by line breaks, with none after the last |
| Exploring.MaxOf | WordGrid/Solver.cs:247 | the largest key of a non-empty key set |
| Exploring.MaxKey | WordGrid/Solver.cs:247 | the deepest preset position, or −1 without constraints or presets |
| Solvers.DeepestKey | WordGrid/Solver.cs:247 | the loop computing the deepest key gives MaxKey |
| Solvers.SearchLetter | WordGrid/Solver.cs:256-292 | the per-letter stack loop reports success exactly when the reference search `Explore` does |
| Exploring.FramesHit | WordGrid/Solver.cs:264-270 | a preset letter in the queue at or past the deepest preset reports success |
| Exploring.FramesPush | WordGrid/Solver.cs:271-282 | pushing the child under the taken letter does not change the outcome and shrinks the measure |
| Exploring.FramesPop | WordGrid/Solver.cs:283-291 | popping a frame whose letter leads nowhere, and dequeuing the head below it, does not change the outcome and shrinks the measure |
| Exploring.SearchStart | WordGrid/Solver.cs:256-257 | the initial stacks hold the letter's own search |
| Exploring.SearchHit | WordGrid/Solver.cs:264-270 | reaching the deepest preset with its letter available means the letter's search succeeds |
| Exploring.SearchPush | WordGrid/Solver.cs:278-282 | the push step keeps the loop invariant and shrinks the measure |
| Exploring.SearchPop | WordGrid/Solver.cs:283-291 | the pop step keeps the loop invariant and shrinks the measure |
| Exploring.SearchDone | WordGrid/Solver.cs:258 | an emptied stack means the letter's search fails |
| Exploring.KeepSubset | WordGrid/Solver.cs:253-294 | the kept letters are an ascending subsequence of the children's letters, each with a successful search |
| Exploring.NextLettersChildren | WordGrid/Solver.cs:241-251 | nothing when the prefix cannot be spelled; the prefix node's child letters when there are no constraints or no preset at or beyond the prefix; always ascending, and each letter extends the prefix to a spelled string |
| Exploring.ExploreWitness | WordGrid/Solver.cs:256-292 | a successful search has a continuation that the tree spells and that ends at the deepest preset on the preset letter |
| Exploring.NextLettersReach | WordGrid/Solver.cs:254-270 | under a preset at or beyond the prefix, each returned letter begins a spelled continuation that puts the deepest preset letter at its position |
| Exploring.NoConstraintsAlike | WordGrid/Solver.cs:247-248 | passing no constraints and passing an empty map give the same letters |
| Solvers.Solver.constructor | WordGrid/Solver.cs:20-28 | a new solver has size 0 and no dictionary |
| Solvers.Solver.Initialize | WordGrid/Solver.cs:35-62 | the word list is the kept lines in file order, and the root is the tree built from them |
| Solvers.Solver.Count | WordGrid/Solver.cs:25 | the number of kept lines, duplicates included; NullReference before Initialize |
| Solvers.Solver.Contains | WordGrid/Solver.cs:69-76 | true exactly when the solver is loaded, the word has its size, and it was loaded (any string at size 0) |
| Solvers.Solver.FindNode | WordGrid/Solver.cs:302-313 | the node spelled by the prefix, if any; before Initialize null for "" and NullReference otherwise |
| Solvers.Solver.FindNextLetters | WordGrid/Solver.cs:237-295 | the letters are those of the reference definition NextLetters (before Initialize: none for "", NullReference otherwise) |
| RowSearch.Intersect | WordGrid/Solver.cs:217 | Intersect keeps exactly the letters in both sequences |
| RowSearch.IntersectAscending | WordGrid/Solver.cs:217 | Intersect keeps the ascending order of the first sequence |
| RowSearch.ColumnPrefix | WordGrid/Solver.cs:177 | the column's prefix: letter `i` of each row so far, in order |
| RowSearch.ColumnPrefixSnoc | WordGrid/Solver.cs:177 | one more row extends every column's prefix by its letter |
| RowSearch.Gate | WordGrid/Solver.cs:174-191 | the letter lists, one per column, when every column allows some letters |
| RowSearch.GateColumns | WordGrid/Solver.cs:185-188 | the search ends (yields nothing) exactly when some column allows no letter; otherwise column `i` gets its own rule's letters |
| RowSearch.ColumnLettersFacts | WordGrid/Solver.cs:178-190 | the allowed letters ascend, and a preset column allows only its preset. A column without a preset allows only letters that continue its prefix in the tree; under the corrected rule, so does a preset column |
| Solvers.Solver.ColumnSet | WordGrid/Solver.cs:176-190 | one column's letters are those of the as-written rule: the preset letter alone, unchecked, or the prefix's next letters, None when there are none |
| Solvers.Solver.ColumnSets | WordGrid/Solver.cs:173-191 | the loop over the columns gives the gated letter lists of the as-written rule |
| Solvers.Solver.WalkRow | WordGrid/Solver.cs:193-228 | the row walk yields exactly the reference enumeration RowEnum |
| Solvers.Solver.Descend | WordGrid/Solver.cs:203-219 | descending into a child keeps the walk invariant (stack depth = builder length + 1, top node spelled by the builder, output + pending = enumeration) and shrinks the measure |
| RowSearch.WalkStart | WordGrid/Solver.cs:193-195 | the initial stacks satisfy the walk invariant |
| RowSearch.WalkDequeue | WordGrid/Solver.cs:200-214 | dequeuing a letter with no child, or one that completes the row, yields the row unless it is already one of `rows`, and keeps the invariant |
| RowSearch.WalkPush | WordGrid/Solver.cs:203-219 | descending keeps the invariant, and the new top node is the one spelled by the longer builder |
| RowSearch.WalkPop | WordGrid/Solver.cs:222-227 | popping an exhausted frame keeps the invariant |
| RowSearch.WalkDone | WordGrid/Solver.cs:196 | an emptied stack means everything has been yielded |
| RowSearch.RowDequeue | WordGrid/Solver.cs:200-214 | a dequeue that does not descend moves that letter's share of the output out of the stack |
| RowSearch.RowPush | WordGrid/Solver.cs:215-219 | pushing the next column's letters that the child can continue with does not change what the stack yields |
| RowSearch.RowPop | WordGrid/Solver.cs:222-227 | popping an exhausted frame does not change what the stack yields |
| RowSearch.PartMembers | WordGrid/Solver.cs:202-219 | a dequeued letter yields exactly the full-length words through it that the later columns allow and that are not among `rows` |
| RowSearch.PartFull | WordGrid/Solver.cs:207-214 | at full length the letter yields the builder plus that letter, unless it is a known row |
| RowSearch.PartInner | WordGrid/Solver.cs:215-219 | below full length the letter yields what its child's frame yields |
| RowSearch.EnumRowMembers | WordGrid/Solver.cs:196-228 | a frame yields exactly the allowed words whose next letter is in its queue |
| RowSearch.RowPairOrdered | WordGrid/Solver.cs:196-228 | a word yielded for the queue's head sorts before one yielded for a later letter |
| RowSearch.RowAscending | WordGrid/Solver.cs:196-228 | with ascending letter lists a frame yields strictly ascending words |
| RowSearch.RowSolutionsMembers | WordGrid/Solver.cs:171-229 | nothing when some column allows no letter; otherwise exactly the spelled full-length words not among `rows` whose every letter its column allows |
| RowSearch.RootEnumMembers | WordGrid/Solver.cs:193-228 | the walk from the root yields exactly the spelled full-length words not among `rows` with one of its column's letters at each position |
| RowSearch.RowSolutionsAscending | WordGrid/Solver.cs:171-229 | the words come out strictly ascending, so each at most once |
| RowSearch.RowSolutionsLengths | WordGrid/Solver.cs:207-211 | every word yielded has the solver's size |
| RowSearch.RowSolutionsSound | WordGrid/Solver.cs:171-229 | every yielded word is loaded, not among `rows`, and has every preset letter of its row. It extends each column's prefix to a spelled one, except (as written) in a column its row presets; under the corrected rule, in every column |
| RowSearch.CandidateByColumns | WordGrid/Solver.cs:171-229 | a spelled full-length word outside `rows` whose every letter its column's rule allows is a candidate under that rule |
| RowSearch.ColumnSound | WordGrid/Solver.cs:178-190 | a letter a column allows keeps the row's preset there, and extends the column's prefix to a spelled one unless only an unchecked preset allowed it |
| RowSearch.NoPresetsAlike | WordGrid/Solver.cs:178-181 | when the row has no presets the as-written and corrected searches agree |
| RowSearch.Tree3Built | WordGrid/Solver.cs:47-58 | loading ac, bd and cd builds the tree of the finding's example |
| RowSearch.PresetColumnUnchecked | WordGrid/Solver.cs:178-181 | as written, with the presets of the example the second row may be "bd", although "bd" is not a candidate there: column 0 would read "ab" |
| RowSearch.Row1Checked | WordGrid/Solver.cs:178-181 | with the check, the preset 'b' under column prefix "a" ends the search for that row |
| RowSearch.Row1Rejected | WordGrid/Solver.cs:178-181 | "bd" after "ac" is no candidate |
| Solvers.Solver.FindRowSolutions | WordGrid/Solver.cs:171-229 | the words are those of the reference definition RowSolutions under the as-written preset rule |
| Search.StepFull | WordGrid/Solver.cs:138-146 | a candidate that completes the board is yielded exactly when no row equals a column, then dropped again |
| Search.StepPush | WordGrid/Solver.cs:148-151 | a candidate below the last row pushes the next row's candidates without changing what the stack yields |
| Search.StepPop | WordGrid/Solver.cs:153-160 | popping an exhausted queue drops the row it was filling (never below empty) without changing what the stack yields |
| Search.MachineStart | WordGrid/Solver.cs:132-133 | the initial rows and stack satisfy the loop invariant (stack depth = rows + 1, output + pending = search) |
| Search.MachineFull | WordGrid/Solver.cs:138-146 | the full-board step keeps the invariant and shrinks the measure |
| Search.MachinePush | WordGrid/Solver.cs:148-151 | the push step keeps the invariant and shrinks the measure |
| Search.MachinePop | WordGrid/Solver.cs:153-160 | the pop step keeps the invariant and shrinks the measure |
| Search.MachineDone | WordGrid/Solver.cs:134 | an emptied stack means every board has been yielded |
| Search.SolutionsConcat | WordGrid/Solver.cs:130-162 | the search of a concatenation of queues is the concatenation of their searches |
| Search.FitsGrow | WordGrid/Solver.cs:148-150 | a candidate for the next row keeps the rows fitting (spelled, distinct, preset-respecting, with spelled column prefixes) |
| Search.SolvedHere | WordGrid/Solver.cs:139-144 | a last-row candidate that passes the disjointness test completes a solved board, since the board's columns are the column prefixes the candidate extends |
| Search.NextCandidates | WordGrid/Solver.cs:150 | every word pushed for the next row is a candidate under the same rule |
| Search.SolutionsSound | WordGrid/Solver.cs:130-162 | every board the search yields has `size` distinct loaded rows carrying the presets and no row equal to a column. Each column is a loaded word, except (as written) one whose cell in the last row is preset; under the corrected rule, every column |
| Search.SearchSound | WordGrid/Solver.cs:83-87 | every board FindSolutions' search yields is solved in that sense, under either rule |
| Search.SearchAlike | WordGrid/Solver.cs:130-162 | on a board without presets the as-written and corrected searches yield the same boards |
| Search.ExampleBoard | WordGrid/Solver.cs:139-142 | the board ac/bd has columns "ab" and "cd", so it passes the test of line 142 |
| Search.Row0Both | WordGrid/Solver.cs:171-229 | on the example, row 0 is "ac" alone under either rule |
| Search.Row1SearchAsWritten | WordGrid/Solver.cs:138-146 | on the example, the frame of row 1 after "ac" yields the board ac/bd |
| Search.SolutionAsWritten | WordGrid/Solver.cs:83-87 | as written, FindSolutions on the example yields exactly the board ac/bd, whose column 0 "ab" the tree does not spell |
| Search.SolutionChecked | WordGrid/Solver.cs:83-87 | with the corrected rule, the example has no solution |
| Solvers.DisjointBoard | WordGrid/Solver.cs:141-142 | the full-board test keeps a board exactly when no row equals a column |
| Solvers.Solver.ProcessSolutions | WordGrid/Solver.cs:130-162 | the stack loop yields exactly the reference search Solutions under the as-written rule |
| Solvers.Solver.FindSolutions | WordGrid/Solver.cs:83-87 | the as-written search of the first-row candidates. Every board is solved in the as-written sense: its rows are loaded words, and so is each column whose cell in the last row is not preset. On a board without presets the result equals the corrected search's |
| Solvers.SolutionsWords | WordGrid/Solver.cs:35-62 | on the tree of a word list, a solved board's rows are words of the list, and so are its columns as far as the rule promises them spelled |
| Solvers.SolvedWords | WordGrid/Solver.cs:35-62 | SolutionsWords for one board |
| Search.Deal | WordGrid/Solver.cs:110-115 | dealing onto P queues gives P queues |
| Search.DealOrder | WordGrid/Solver.cs:110-115 | candidate k sits in queue k mod P behind the earlier candidates dealt there, so each queue keeps the original order |
| Search.DealMembers | WordGrid/Solver.cs:110-115 | every queue holds candidates only |
| Search.DealPartition | WordGrid/Solver.cs:110-115 | the queues together hold each candidate exactly as often as the list does |
| Search.ConcatUpdate | WordGrid/Solver.cs:121 | appending to one list appends to the concatenation, up to order |
| Search.Searched | WordGrid/Solver.cs:117-120 | queue i's result is that queue's search |
| Search.SearchedUpdate | WordGrid/Solver.cs:117-120 | one more candidate on a queue adds its boards to that queue's result |
| Search.DealSearched | WordGrid/Solver.cs:110-121 | searching the dealt queues and concatenating finds the same boards as searching all candidates, up to order |
| Solvers.NextCore | WordGrid/Solver.cs:114 | the round-robin counter `(core + 1) % P` stays equal to the candidate index mod P |
| Solvers.DealQueues | WordGrid/Solver.cs:102-115 | the loop fills fresh queues with the round-robin deal |
| Solvers.Solver.SearchQueues | WordGrid/Solver.cs:117-120 | each queue's result is its ProcessSolutions search (as written) |
| Solvers.Flatten | WordGrid/Solver.cs:121 | the results concatenated in queue order |
| Solvers.Solver.FindAllSolutions | WordGrid/Solver.cs:98-122 | the concatenation of the dealt queues' as-written searches, which is a permutation of FindSolutions' boards |

## Left out

- File reading in `Initialize` is not modelled: it takes the file's lines as a sequence of strings.
- `string.Trim` and `ToLowerInvariant` are modelled on ASCII only: white space is space, tab, LF,
  VT, FF and CR, and upper case is A–Z. Unicode white space and case mapping are library behaviour.
- `Parallel.For` and `Environment.ProcessorCount` are not modelled. The number of cores is the
  parameter `cores`, and the queues are searched one after another.
- Lazy `yield return` is not modelled: every enumeration is a finished sequence, so resumption and
  interleaving with the caller are not captured.
- `GetEnumerator` of `Prefix` and `Solver`, and `Prefix.ToString`, are thin wrappers and are left
  out. So are the `Size` property and the `Prefix()`/`Prefix(c)` constructors, which become the
  value `Prefix(c, [])`.
- Nodes are values, not objects. `Add` and the indexer set return the updated node, and insertion
  stores the updated child back into its parent. Aliasing of subtrees and update in place are not
  captured.
- `Tries.Set` does not promise `Keyed` when the new child's character differs from its key. The
  source leaves that to its caller.
- `FindRowSolutions` is modelled for row index `|rows|`, the value both callers pass.
- Solutions are sequences of rows, not `Board` objects. The board built at line 141 appears only
  in `DisjointBoard`.
- Boards of size 0 are left out. The row walk would read `nextLetters[0]` out of range. The solver
  methods require size at least 1 and a board of the solver's size.
- The corrected preset rule (`checked == true`) is a specification only. No method computes it;
  the solver's methods compute the rule as written.
- The UI, view models, selection behaviour, start-up code and window are not part of this model.
- `Search.SolutionsSound`: about boards with presets, it states the presets of each row, not the
  presets of the columns. This holds because the maps are consistent. Boards whose maps disagree
  are outside `Consistent`.

## Findings

| source | as written | input that shows it | evidently intended | confidence | as-written member | corrected member |
|---|---|---|---|---|---|---|
| WordGrid/Solver.cs:178-181 | A preset letter of the row becomes its column's only letter. It is never checked against the column's prefix in the tree. | Size 2, words ac, bd and cd, presets (0,0)='a' and (1,0)='b'. Row 0 is "ac", and row 1 may then be "bd". Column 0 then reads "ab", which no word begins with, yet the board ac/bd passes the test at line 142. | A preset letter that does not continue the column's prefix ends the search, so every column of a solution is a word. | not executed | Search.SolutionAsWritten | Search.SearchSound |
| WordGrid/Board.cs:87-93 | The copy constructor reads `_chars.Length` of the new board before `_chars` is assigned. | Any board: `Clone()` throws NullReferenceException. | `Clone` returns a deep copy with the same size, cells and constraint maps. | not executed | Boards.CopyAsWrittenFails | Boards.Board.Clone |
