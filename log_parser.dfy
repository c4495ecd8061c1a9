/**
 * The tree builder (index.ts, the `commands.forEach` loop): the log is cut
 * into command blocks at every `"$ "`, and a cursor moves through the tree as
 * `cd` blocks are read while every other block is read as `ls` output.
 * `Replay` states what reading a log does; `BuildTree` does it step by step
 * on a `FileTree` and is proved to agree with `Replay`.
 */
module LogParser {
  import opened Wrappers
  import opened Text
  import opened SizeRecorder
  import opened DirTree

  /** The tree built so far and the cursor, the directory the next command applies to. */
  datatype Session = Session(nodes: seq<DirNode>, cursor: nat)

  /** Before the first command: only the root, and the cursor on it. */
  const Initial: Session := Session([RootNode], Root)

  ghost predicate Consistent(st: Session) {
    WellFormed(st.nodes) && st.cursor < |st.nodes|
  }

  /** `cd <loc>`: to the root, to the parent, or into the child named `loc`. */
  function ChangeDirectory(st: Session, loc: string): (r: Result<Session, ParseError>)
    requires Consistent(st)
    ensures r.Ok? ==> Consistent(r.value) && r.value.nodes == st.nodes
    ensures r.Err? <==> loc != "/" && loc != ".." && loc !in st.nodes[st.cursor].children
    ensures r.Err? ==> r.error == NavigationError(loc)
  {
    if loc == "/" then Ok(Session(st.nodes, Root))
    else if loc == ".." then Ok(Session(st.nodes, NavToParent(st.nodes, st.cursor)))
    else match NavToChild(st.nodes, st.cursor, loc)
      case Ok(child) => Ok(Session(st.nodes, child))
      case Err(e) => Err(e)
  }

  /** One line of `ls` output: `dir <name>` adds a directory, `<size> <name>` a file. */
  function ApplyLine(nodes: seq<DirNode>, at: nat, line: string): (r: Result<seq<DirNode>, ParseError>)
    requires WellFormed(nodes) && at < |nodes|
    ensures r.Ok? ==> WellFormed(r.value) && |nodes| <= |r.value|
  {
    var words := Split(line, " ");
    if Slice(line, 3) == "dir" then
      if |words| < 2 then Err(MissingOperand(line))
      else
        AddChildUpsert(nodes, at, words[1]);
        Ok(WithChild(nodes, at, words[1]))
    else if |words| < 2 then Err(MissingOperand(line))
    else match ParseDecimal(words[0])
      case None => Err(NumericParseError(words[0]))
      case Some(size) =>
        AddFileUpsert(nodes, at, words[1], size);
        Ok(WithFile(nodes, at, words[1], size))
  }

  /** The lines of one `ls` output, in order; the first failing line stops the run. */
  function ApplyListing(nodes: seq<DirNode>, at: nat, lines: seq<string>): (r: Result<seq<DirNode>, ParseError>)
    requires WellFormed(nodes) && at < |nodes|
    ensures r.Ok? ==> WellFormed(r.value) && |nodes| <= |r.value|
    decreases |lines|
  {
    if lines == [] then Ok(nodes)
    else match ApplyLine(nodes, at, lines[0])
      case Err(e) => Err(e)
      case Ok(next) => ApplyListing(next, at, lines[1..])
  }

  /**
   * One command block. An empty block does nothing; a block starting with `cd`
   * moves the cursor to its second word (without its line break); any other
   * block is `ls` output, whose lines after the first, empty lines dropped,
   * are applied at the cursor.
   */
  function ApplyBlock(st: Session, block: string): (r: Result<Session, ParseError>)
    requires Consistent(st)
    ensures r.Ok? ==> Consistent(r.value)
  {
    var head := Slice(block, 2);
    if |head| == 0 then Ok(st)
    else if head == "cd" then
      var words := Split(block, " ");
      if |words| < 2 then Err(MissingOperand(block))
      else ChangeDirectory(st, RemoveFirst(words[1], '\n'))
    else
      match ApplyListing(st.nodes, st.cursor, NonEmpty(Split(block, "\n")[1..]))
      case Err(e) => Err(e)
      case Ok(nodes) => Ok(Session(nodes, st.cursor))
  }

  /** The blocks in order; the first failing block stops the run. */
  function Replay(st: Session, blocks: seq<string>): (r: Result<Session, ParseError>)
    requires Consistent(st)
    ensures r.Ok? ==> Consistent(r.value)
    decreases |blocks|
  {
    if blocks == [] then Ok(st)
    else match ApplyBlock(st, blocks[0])
      case Err(e) => Err(e)
      case Ok(next) => Replay(next, blocks[1..])
  }

  const CommandMark: string := "$ "

  /** The whole log, from a tree holding only the root. */
  function ParseLog(log: string): (r: Result<Session, ParseError>)
    ensures r.Ok? ==> Consistent(r.value)
  {
    Replay(Initial, Split(log, CommandMark))
  }

  // ---------------------------------------------------------------- the log, text by text

  /**
   * A log written as command blocks, each preceded by `$ ` except the first,
   * splits back into exactly those blocks, and reading it replays them in order.
   */
  lemma LogOfBlocks(blocks: seq<string>)
    requires |blocks| >= 1
    requires forall k :: 0 <= k < |blocks| ==> '$' !in blocks[k]
    ensures Split(Join(blocks, CommandMark), CommandMark) == blocks
    ensures ParseLog(Join(blocks, CommandMark)) == Replay(Initial, blocks)
  {
    assert CommandMark[0] == '$';
    SplitJoin(blocks, CommandMark);
  }

  /** An empty block (the text before the first `$ `) changes nothing. */
  lemma EmptyBlockSkipped(st: Session)
    requires Consistent(st)
    ensures ApplyBlock(st, "") == Ok(st)
  {
  }

  /** `cd <target>` on its own line, for a target that is one word. */
  lemma {:induction false} CdBlock(st: Session, target: string)
    requires Consistent(st)
    requires ' ' !in target && '\n' !in target
    ensures ApplyBlock(st, "cd " + target + "\n") == ChangeDirectory(st, target)
  {
    var block := "cd " + target + "\n";
    var operand := target + "\n";
    assert Slice(block, 2) == "cd";
    assert block == "cd" + [' '] + operand;
    assert ' ' !in "cd";
    SplitAtFirst("cd", " ", operand);
    assert ' ' !in operand;
    SplitNone(operand, " ");
    assert Split(block, " ") == ["cd", operand];
    assert operand == target + ['\n'] + "";
    RemoveFirstOccurrence(target, '\n', "");
    assert RemoveFirst(operand, '\n') == target;
  }

  /** `cd /` sends the cursor to the root and leaves the tree alone. */
  lemma CdRoot(st: Session)
    requires Consistent(st)
    ensures ApplyBlock(st, "cd /\n") == Ok(Session(st.nodes, Root))
  {
    assert "cd /\n" == "cd " + "/" + "\n";
    CdBlock(st, "/");
  }

  /** `cd ..` sends the cursor to the parent; at the root it stays at the root. */
  lemma CdUp(st: Session)
    requires Consistent(st)
    ensures ApplyBlock(st, "cd ..\n").Ok?
    ensures var r := ApplyBlock(st, "cd ..\n").value;
      && r.nodes == st.nodes
      && (st.cursor == Root ==> r.cursor == Root)
      && (st.cursor != Root ==> Some(r.cursor) == st.nodes[st.cursor].parent)
  {
    assert "cd ..\n" == "cd " + ".." + "\n";
    CdBlock(st, "..");
  }

  /** `cd <name>` enters the child of that name, and fails naming it when there is none. */
  lemma CdChild(st: Session, name: string)
    requires Consistent(st)
    requires ' ' !in name && '\n' !in name && name != "/" && name != ".."
    ensures var r := ApplyBlock(st, "cd " + name + "\n");
      && (name in st.nodes[st.cursor].children ==> r == Ok(Session(st.nodes, st.nodes[st.cursor].children[name])))
      && (name !in st.nodes[st.cursor].children ==> r == Err(NavigationError(name)))
  {
    CdBlock(st, name);
  }

  /** A `dir <name>` line adds a directory `name` at the cursor. */
  lemma {:induction false} DirLine(nodes: seq<DirNode>, at: nat, name: string)
    requires WellFormed(nodes) && at < |nodes|
    requires ' ' !in name
    ensures ApplyLine(nodes, at, "dir " + name) == Ok(WithChild(nodes, at, name))
  {
    var line := "dir " + name;
    assert Slice(line, 3) == "dir";
    assert line == "dir" + [' '] + name;
    SplitAtFirst("dir", " ", name);
    SplitNone(name, " ");
  }

  /** A `<size> <name>` line adds a file `name` of that size at the cursor. */
  lemma {:induction false} FileLine(nodes: seq<DirNode>, at: nat, size: nat, name: string)
    requires WellFormed(nodes) && at < |nodes|
    requires ' ' !in name
    ensures ApplyLine(nodes, at, Decimal(size) + " " + name) == Ok(WithFile(nodes, at, name, size))
  {
    var digits := Decimal(size);
    var line := digits + " " + name;
    assert line[0] == digits[0] && IsDigit(digits[0]);
    assert Slice(line, 3) != "dir";
    assert ' ' !in digits by {
      forall i | 0 <= i < |digits| ensures digits[i] != ' ' {
        assert IsDigit(digits[i]);
      }
    }
    assert line == digits + [' '] + name;
    SplitAtFirst(digits, " ", name);
    SplitNone(name, " ");
    ParseDecimalOfDecimal(size);
  }

  /** A block `ls` followed by lines applies exactly its non-empty lines, in order, at the cursor. */
  lemma {:induction false} ListingBlock(st: Session, lines: seq<string>)
    requires Consistent(st)
    requires forall k :: 0 <= k < |lines| ==> '\n' !in lines[k]
    ensures ApplyBlock(st, Join(["ls"] + lines, "\n")) ==
      match ApplyListing(st.nodes, st.cursor, NonEmpty(lines))
      case Err(e) => Err(e)
      case Ok(nodes) => Ok(Session(nodes, st.cursor))
  {
    var all := ["ls"] + lines;
    var block := Join(all, "\n");
    forall k | 0 <= k < |all| ensures '\n' !in all[k] {
      if k > 0 { assert all[k] == lines[k - 1]; }
    }
    SplitJoin(all, "\n");
    assert all[1..] == lines;
    if |lines| == 0 {
      assert block == "ls";
    } else {
      assert block == "ls" + "\n" + Join(lines, "\n");
    }
    assert Slice(block, 2) == "ls";
  }

  // ---------------------------------------------------------------- the loop

  /** `splits.forEach(...)` over the lines of one listing, applied to the tree in place. */
  method ReadListing(tree: FileTree, at: nat, lines: seq<string>) returns (failure: Option<ParseError>)
    requires tree.Valid() && at < |tree.nodes|
    modifies tree
    ensures tree.Valid() && at < |tree.nodes|
    ensures var r := ApplyListing(old(tree.nodes), at, lines);
      && (failure.None? <==> r.Ok?)
      && (r.Ok? ==> tree.nodes == r.value)
      && (r.Err? ==> failure == Some(r.error))
  {
    for j := 0 to |lines|
      invariant tree.Valid() && at < |tree.nodes|
      invariant ApplyListing(old(tree.nodes), at, lines) == ApplyListing(tree.nodes, at, lines[j..])
    {
      assert lines[j..][1..] == lines[j + 1..];
      var line := lines[j];
      var words := Split(line, " ");
      if Slice(line, 3) == "dir" {
        if |words| < 2 {
          return Some(MissingOperand(line));
        }
        tree.AddChild(at, words[1]);
      } else {
        if |words| < 2 {
          return Some(MissingOperand(line));
        }
        var size := ParseDecimal(words[0]);
        if size.None? {
          return Some(NumericParseError(words[0]));
        }
        tree.AddFile(at, words[1], size.value);
      }
    }
    return None;
  }

  /** The command loop: reads every block of the log, moving `cursor` and growing the tree. */
  method BuildTree(log: string, aggregator: Aggregator) returns (built: Result<FileTree, ParseError>)
    ensures built.Ok? <==> ParseLog(log).Ok?
    ensures built.Ok? ==> && fresh(built.value) && built.value.Valid()
                          && built.value.nodes == ParseLog(log).value.nodes
                          && built.value.aggregator == aggregator
    ensures built.Err? ==> built.error == ParseLog(log).error
  {
    var commands := Split(log, CommandMark);
    var tree := new FileTree(aggregator);
    var cursor: nat := Root;
    for i := 0 to |commands|
      invariant fresh(tree) && tree.Valid() && cursor < |tree.nodes| && tree.aggregator == aggregator
      invariant ParseLog(log) == Replay(Session(tree.nodes, cursor), commands[i..])
    {
      assert commands[i..][1..] == commands[i + 1..];
      var c := commands[i];
      var slice := Slice(c, 2);
      if |slice| == 0 {
        continue;
      }
      if slice == "cd" {
        var words := Split(c, " ");
        if |words| < 2 {
          return Err(MissingOperand(c));
        }
        var loc := RemoveFirst(words[1], '\n');
        if loc == "/" {
          cursor := Root;
        } else if loc == ".." {
          cursor := NavToParent(tree.nodes, cursor);
        } else {
          var next := NavToChild(tree.nodes, cursor, loc);
          if next.Err? {
            return Err(next.error);
          }
          cursor := next.value;
        }
      } else {
        var lines := NonEmpty(Split(c, "\n")[1..]);
        var failure := ReadListing(tree, cursor, lines);
        if failure.Some? {
          return Err(failure.value);
        }
      }
    }
    return Ok(tree);
  }
}
