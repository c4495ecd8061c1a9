# Directory sizes from a terminal log

This project models `index.ts` in Dafny and proves properties of that model.
`index.ts` reads a terminal log of `cd` and `ls` commands and rebuilds the
directory tree the log shows. It then computes the total size of every
directory. Finally it answers a capacity question. The disk holds 70000000
and an update needs 30000000 free. Which directory is the smallest one whose
deletion frees enough?

The model follows the program's own parts:

- `wrappers.dfy` (`Wrappers`): `Option` and `Result`.
- `text.dfy` (`Text`): the string operations the parser uses, with
  JavaScript's meaning. These are `split` on a literal separator,
  `slice(0, n)`, `replace` of the first `"\n"`, the filter of empty lines,
  and the size token read as a number.
- `aggregator.dfy` (`SizeRecorder`): the `Aggregator` class. It holds a
  running total `count` and the list `sizes` of every recorded directory
  size. It sorts that list in place, ascending.
- `dir_tree.dfy` (`DirTree`): `DirNode` and its operations.
  - The nodes live in an arena, `FileTree.nodes : seq<DirNode>`. A node is
    named by its index, and the root `/` is index 0.
  - A parent link is an optional index. The children and files are maps
    from names to indices and to sizes.
  - `WellFormed` is the arena invariant. Parents come earlier and children
    later. A child's parent and name match the link that leads to it.
  - `getSize` is the method `FileTree.GetSize`. It runs the two loops of the
    source and recurses into each child, and it records every total in the
    aggregator. It is proved against the ghost function `Size`, the
    recursive sum of a directory's files and its children's sizes.
- `log_parser.dfy` (`LogParser`): the `commands.forEach` loop.
  - `Replay` and `ApplyBlock` state, as functions, what reading a log does
    to the tree and to the cursor (`currentNode`, a node index).
  - `BuildTree` and `ReadListing` do it step by step on a `FileTree`. Each
    is proved equal to the functions.
- `capacity.dfy` (`Capacity`): the final query and the whole program.
  - `Analyze` builds the tree and sizes it from `/`. It then sorts the
    record and looks for the first record entry that frees enough.
  - It is proved to give the size of `/` and the smallest size, among the
    directories under `/`, whose deletion frees enough. It gives nothing
    when no directory frees enough.

The program reads `./prod.txt`. Here the log is a parameter of `Analyze`
and of `BuildTree`. The printed line is the `Report` that `Analyze`
returns.

Two points of the source's behaviour are easy to miss, and the model keeps both.

- A listing block keeps every line after its first line and then drops
  the empty ones (`slice(1)`, then `filter`). The first line is dropped
  even if it is empty.
- `getSize` records only the directories reachable from `/` through child
  links. Suppose `dir x` is listed twice in the same directory. The second
  listing replaces the link, and the first node stays in the arena but is
  reachable from nowhere. Its size is never recorded. This matches the
  source, where that old `DirNode` is simply dropped.

## Model

| member | source | states |
|---|---|---|
| Text.Slice | index.ts:87 | `slice(0, n)` is a prefix of the text, of length `n`, or the whole text when it is shorter |
| Text.JoinSplit | index.ts:78 | splitting the log at `"$ "` loses nothing: joining the pieces with the separator gives the log back |
| Text.SplitAtFirst | index.ts:92 | splitting at any separator whose first character does not occur in the head cuts exactly after the head |
| Text.SplitNone | index.ts:105 | a text that does not contain the first character of the separator splits into itself alone |
| Text.SplitJoin | index.ts:102 | pieces that do not contain the first character of a separator, joined by it, split back into exactly those pieces |
| Text.RemoveFirst | index.ts:92 | `replace("\n", "")` leaves a text without a line break unchanged, and otherwise removes exactly one character |
| Text.RemoveFirstOccurrence | index.ts:92 | the character removed is the first line break: what comes before it and what comes after it are kept |
| Text.RemoveFirstPast | index.ts:92 | a first character other than the one removed stays in front of the rest |
| Text.NonEmpty | index.ts:102 | the filter gives no more lines than it was given |
| Text.NonEmptyCounts | index.ts:102 | the filter keeps every non-empty line exactly as often as it occurs, and no empty line |
| Text.NonEmptyAppend | index.ts:102 | the filter keeps order: filtering a concatenation is concatenating the filtered parts |
| Text.NonEmptyOne | index.ts:102 | a single line survives the filter exactly when it is non-empty |
| Text.ParseDecimal | index.ts:110 | a size token gives a number exactly when it is a non-empty string of decimal digits; the number is the one the digits denote, and a token without a leading zero is the decimal rendering of that number |
| Text.DecimalOfDecimalValue | index.ts:110 | a digit string without a leading zero is the decimal rendering of the number it denotes |
| Text.DecimalLeadingNonZero | index.ts:110 | a digit string whose first digit is not zero denotes a positive number |
| Text.Decimal | index.ts:110 | the rendering of a size is a non-empty string of decimal digits |
| Text.ParseDecimalOfDecimal | index.ts:110 | parsing the decimal rendering of a size gives that size back |
| SizeRecorder.SumPermutation | index.ts:16-25 | two lists that are permutations of each other have the same sum, so sorting cannot change the overall usage |
| SizeRecorder.Insert | index.ts:21-24 | inserting into an ascending list keeps it ascending and adds exactly that one value |
| SizeRecorder.SortAscending | index.ts:21-24 | the result is in non-decreasing numeric order and is a permutation of the input |
| SizeRecorder.Aggregator.constructor | index.ts:3-9 | a new aggregator has recorded nothing and has a total of 0 |
| SizeRecorder.Aggregator.Record | index.ts:11-14 | `record` appends the size at the end of the list and adds it to the total; the total stays the sum of the list |
| SizeRecorder.Aggregator.ReportOverallUsage | index.ts:16-18 | the value is the sum of every size recorded so far |
| SizeRecorder.Aggregator.ReportSizes | index.ts:20-25 | the list is sorted in place into non-decreasing order and stays a permutation of what was recorded; the returned list is the same list, and the total is unchanged |
| DirTree.NavToParent | index.ts:50-52 | `navToParent` gives the recorded parent of any node other than the root, and the root itself exactly at the root; the result is an earlier node of the arena |
| DirTree.NavToChild | index.ts:53-59 | `navToChild` succeeds exactly when a child of that name exists, and then gives that child; otherwise it fails with an error naming the child |
| DirTree.ChildThenParent | index.ts:42-59 | the child reached by a name carries that name, and going to its parent returns to where one started |
| DirTree.AddChildUpsert | index.ts:42-45 | after `addChild(n)` the name `n` leads to a new empty directory whose parent is the current one; the other links of the current directory, its files, its name, its parent and every other node are unchanged, and the arena stays well-formed |
| DirTree.AddFileUpsert | index.ts:47-49 | after `addFile(n, s)`, `files[n] == s`; every other file, the links of the directory and every other node are unchanged, and the arena stays well-formed |
| DirTree.FileTree.constructor | index.ts:82 | a new tree holds only the root `/`, which has no parent and no entries |
| DirTree.FileTree.AddChild | index.ts:42-45 | changes the arena exactly as `WithChild` says, so everything in `AddChildUpsert` holds of the new state |
| DirTree.FileTree.AddFile | index.ts:47-49 | changes the arena exactly as `WithFile` says, so everything in `AddFileUpsert` holds of the new state |
| DirTree.FileTree.GetSize | index.ts:61-73 | returns the size of the directory, which is the sum of its file sizes and its children's sizes; it appends one entry per directory of its subtree, in visiting order, with the directory's own total last; the aggregator's total stays the sum of its list |
| DirTree.FileTotalPick | index.ts:64-66 | the file sum does not depend on the order in which the map yields file sizes |
| DirTree.ChildTotalPick | index.ts:68-70 | the children's sum does not depend on the order in which the map yields children |
| DirTree.ChildIdsPick | index.ts:68-71 | the directories recorded for the children do not depend on the order of the children |
| DirTree.SubtreeIds | index.ts:61-73 | the directories sized by a call include the directory itself and are nodes of the arena at or after it |
| DirTree.ChildIds | index.ts:68-70 | the directories sized for the children are nodes strictly after the parent |
| DirTree.SubtreeBelow | index.ts:61-73 | every directory of a subtree lies below its top through parent links and is no larger than the top, so `/` is the largest directory |
| DirTree.SubtreeIdsOnce | index.ts:68-71 | no directory is sized twice in one call: each occurs at most once in a subtree |
| DirTree.ChildIdsOnce | index.ts:68-70 | the subtrees of different children share no directory |
| LogParser.ChangeDirectory | index.ts:91-99 | `cd` fails exactly when the operand is neither `/` nor `..` nor a child of the cursor, and the error names the operand; success changes only the cursor |
| LogParser.ApplyLine | index.ts:103-111 | applying one listing line keeps the arena well-formed and never removes a node |
| LogParser.ApplyListing | index.ts:102-111 | applying the lines of a listing keeps the arena well-formed and never removes a node |
| LogParser.ApplyBlock | index.ts:87-112 | every block keeps the tree well-formed and keeps the cursor on a node |
| LogParser.Replay | index.ts:86-113 | replaying blocks keeps the tree well-formed and keeps the cursor on a node |
| LogParser.LogOfBlocks | index.ts:78 | blocks without a `$`, joined by `"$ "`, split back into exactly those blocks, so the log they make replays exactly them |
| LogParser.ParseLog | index.ts:78-113 | a log that parses gives a well-formed tree and a cursor on one of its nodes |
| LogParser.EmptyBlockSkipped | index.ts:88-90 | an empty block leaves the tree and the cursor unchanged |
| LogParser.CdBlock | index.ts:91-92 | the block `cd <target>` on its own line moves as `cd` to exactly that target, without its line break |
| LogParser.CdRoot | index.ts:93-94 | `cd /` sets the cursor to the root and leaves the tree alone |
| LogParser.CdUp | index.ts:95-96 | `cd ..` sets the cursor to the parent, or leaves it at the root; the tree is unchanged |
| LogParser.CdChild | index.ts:97-98 | `cd <name>` sets the cursor to that child of the cursor, or fails naming it when there is no such child |
| LogParser.DirLine | index.ts:104-107 | a `dir <name>` line adds the directory `name` at the cursor |
| LogParser.FileLine | index.ts:109-110 | a `<size> <name>` line adds the file `name` with that size at the cursor |
| LogParser.ListingBlock | index.ts:101-111 | an `ls` block applies exactly its non-empty lines after the first, in order, at the cursor, and leaves the cursor where it was |
| LogParser.ReadListing | index.ts:102-111 | the loop over a listing's lines leaves the tree as `ApplyListing` says, and reports the failure of the first bad line |
| LogParser.BuildTree | index.ts:78-113 | the command loop succeeds exactly when the log parses; it then gives a new well-formed tree equal to the parsed one and sharing the given aggregator; otherwise it reports the same error |
| Capacity.FindDeletable | index.ts:121 | `find` gives nothing exactly when no size frees enough; otherwise it gives the first size that frees enough |
| Capacity.FindDeletableIsSmallest | index.ts:117-121 | on an ascending list, the first size that frees enough is the smallest such size |
| Capacity.FindDeletableOnRecord | index.ts:117-121 | on a sorted list that holds exactly a given set of sizes, `find` gives the smallest size of the set that frees enough, or nothing when none does |
| Capacity.DirectorySizes | index.ts:115 | the sizes of the directories under `/` include the size of `/` |
| Capacity.RecordedSizes | index.ts:71 | a permutation of the sizes recorded for a list of directories holds exactly the sizes of those directories |
| Capacity.RecordIsDirectorySizes | index.ts:115-117 | the sorted record made by sizing `/` holds exactly the sizes of the directories under `/` |
| Capacity.RecordAnswers | index.ts:115-121 | the query on the sorted record finds the smallest size under `/` that frees enough, or nothing when none does |
| Capacity.QueryOverRecord | index.ts:115-121 | sizing `/`, sorting the record and running the query answers the capacity question for the tree |
| Capacity.Summarize | index.ts:115-121 | on a built tree with an empty aggregator, this reports the size of `/` and the smallest directory size under `/` that frees enough, or nothing when none does |
| Capacity.Analyze | index.ts:78-121 | for a log that does not parse, this reports the parser's error; otherwise it reports the size of `/` and the smallest directory size under `/` that frees enough, or nothing when none does |

## Left out

- Reading `./prod.txt` (index.ts:76) and printing the result (index.ts:123): I/O. The log is a parameter and the result is the returned `Report`.
- JavaScript's number semantics: there is no NaN, no floating point and no overflow. A size is a `nat`.
- `+num` (index.ts:110) accepts many tokens (`""` gives 0, `"1e3"` gives 1000, `"x"` gives NaN). The model accepts only a non-empty run of decimal digits and fails with `NumericParseError` otherwise.
- A `dir` line or a file line without a second word: the source uses the key `undefined`. The model fails with `MissingOperand`.
- A `cd` block without a second word: the source throws a `TypeError` from `.replace`. The model fails with `MissingOperand`.
- Errors: the source throws, which aborts the program. The model returns a `Result`, and the first failing block or line ends the parse.
- SizeRecorder.SortAscending: this is an insertion sort, not the engine's `Array.prototype.sort`. The result is still the same: a sorted permutation of a sequence of integers is unique, so sortedness and permutation fix it. The comparator at index.ts:21-24 returns 1 for equal sizes, which is not a consistent comparator, but equal sizes are indistinguishable as integers.
- Map iteration order (index.ts:64, index.ts:68): the loops take names in an arbitrary order. `GetSize` states the recorded directories as a multiset and the sums up to order, so no contract depends on that order.
- Object identity of `DirNode`: nodes are arena indices, not heap objects. The `aggregator` reference that the source stores in each node is the single `FileTree.aggregator`.
