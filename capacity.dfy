/**
 * The capacity question (index.ts, after the tree is built): with the disk's
 * total size and the free space an update needs, which is the smallest
 * directory whose deletion frees enough?
 */
module Capacity {
  import opened Wrappers
  import opened SizeRecorder
  import opened DirTree
  import opened LogParser

  const SystemSize: int := 70000000
  const RequiredFree: int := 30000000

  /** Deleting a directory of `size` leaves at least the required free space. */
  predicate Frees(available: int, size: int) {
    available + size >= RequiredFree
  }

  /** `report.find(el => availSize + el >= 30000000)`: the first size that frees enough, if any. */
  function FindDeletable(sizes: seq<int>, available: int): (r: Option<int>)
    ensures r.None? <==> forall i :: 0 <= i < |sizes| ==> !Frees(available, sizes[i])
    ensures r.Some? ==> exists i :: && 0 <= i < |sizes| && sizes[i] == r.value && Frees(available, r.value)
                                    && forall j :: 0 <= j < i ==> !Frees(available, sizes[j])
    decreases |sizes|
  {
    if sizes == [] then None
    else if Frees(available, sizes[0]) then
      Some(sizes[0])
    else
      var r := FindDeletable(sizes[1..], available);
      assert r.Some? ==> exists i :: && 0 <= i < |sizes| && sizes[i] == r.value && Frees(available, r.value)
                                     && forall j :: 0 <= j < i ==> !Frees(available, sizes[j]) by {
        if r.Some? {
          var i :| && 0 <= i < |sizes| - 1 && sizes[1..][i] == r.value && Frees(available, r.value)
                   && forall j :: 0 <= j < i ==> !Frees(available, sizes[1..][j]);
          assert sizes[i + 1] == r.value;
          assert forall j :: 0 <= j < i + 1 ==> !Frees(available, sizes[j]) by {
            forall j | 0 <= j < i + 1 ensures !Frees(available, sizes[j]) {
              if j > 0 { assert sizes[j] == sizes[1..][j - 1]; }
            }
          }
        }
      }
      assert r.None? ==> forall i :: 0 <= i < |sizes| ==> !Frees(available, sizes[i]) by {
        if r.None? {
          forall i | 0 <= i < |sizes| ensures !Frees(available, sizes[i]) {
            if i > 0 { assert sizes[i] == sizes[1..][i - 1]; }
          }
        }
      }
      r
  }

  /** On an ascending list the first size that frees enough is the smallest such size. */
  lemma {:induction false} FindDeletableIsSmallest(sizes: seq<int>, available: int)
    requires SortedAscending(sizes)
    ensures var r := FindDeletable(sizes, available);
      r.Some? ==> forall x :: x in sizes && Frees(available, x) ==> r.value <= x
  {
    var r := FindDeletable(sizes, available);
    if r.Some? {
      var i :| && 0 <= i < |sizes| && sizes[i] == r.value && Frees(available, r.value)
               && forall j :: 0 <= j < i ==> !Frees(available, sizes[j]);
      forall x | x in sizes && Frees(available, x) ensures r.value <= x {
        var k :| 0 <= k < |sizes| && sizes[k] == x;
        if k >= i {
          assert sizes[i] <= sizes[k];
        } else {
          assert false;
        }
      }
    }
  }

  /** What the program reports: the size of `/` and the smallest deletable directory, if there is one. */
  datatype Report = Report(rootSize: nat, smallestDeletable: Option<int>)

  /** The sizes of the directories under `/`, `/` included. */
  ghost function DirectorySizes(nodes: seq<DirNode>): (sizes: set<int>)
    requires WellFormed(nodes)
    ensures Size(nodes, Root) in sizes
  {
    set j | j in SubtreeIds(nodes, Root) :: Size(nodes, j)
  }

  /**
   * What a report on a tree must say: the size of `/`, and the smallest size
   * among the directories under `/` whose deletion frees enough, or nothing
   * when none does.
   */
  ghost predicate Answers(nodes: seq<DirNode>, report: Report)
    requires WellFormed(nodes)
  {
    && report.rootSize == Size(nodes, Root)
    && SmallestFreeing(DirectorySizes(nodes), SystemSize - report.rootSize, report.smallestDeletable)
  }

  /** `answer` is the smallest size in `sizes` that frees enough, or nothing when none does. */
  ghost predicate SmallestFreeing(sizes: set<int>, available: int, answer: Option<int>) {
    && (answer.None? <==> forall x :: x in sizes ==> !Frees(available, x))
    && (answer.Some? ==>
          && answer.value in sizes
          && Frees(available, answer.value)
          && forall x :: x in sizes && Frees(available, x) ==> answer.value <= x)
  }

  /**
   * The whole program on a log: build the tree, then answer the capacity
   * question about it.
   */
  method Analyze(log: string) returns (outcome: Result<Report, ParseError>)
    ensures ParseLog(log).Err? ==> outcome == Err(ParseLog(log).error)
    ensures ParseLog(log).Ok? ==> outcome.Ok? && Answers(ParseLog(log).value.nodes, outcome.value)
  {
    var agg := new Aggregator();
    var built := BuildTree(log, agg);
    if built.Err? {
      return Err(built.error);
    }
    var report := Summarize(built.value);
    outcome := Ok(report);
  }

  /**
   * Size the tree once from `/` while recording every directory's size in
   * the tree's empty aggregator, sort the record and ask the capacity
   * question of it.
   */
  method Summarize(tree: FileTree) returns (report: Report)
    requires tree.Valid() && tree.aggregator.Valid() && tree.aggregator.sizes == []
    modifies tree.aggregator
    ensures Answers(tree.nodes, report)
  {
    ghost var nodes := tree.nodes;
    assert WellFormed(nodes);
    var size, visited := tree.GetSize(Root);
    assert tree.nodes == nodes && multiset(visited) == SubtreeIds(nodes, Root);
    ghost var sizes := tree.aggregator.sizes;
    assert sizes == SizesOf(nodes, visited);
    var recorded := tree.aggregator.ReportSizes();
    assert SortedAscending(recorded) && multiset(recorded) == multiset(sizes);
    var result := FindDeletable(recorded, SystemSize - size);
    QueryOverRecord(nodes, visited, recorded, size, result);
    report := Report(size, result);
  }

  /** Asking the question of the sorted record answers it for the tree. */
  lemma QueryOverRecord(nodes: seq<DirNode>, visited: seq<nat>, report: seq<int>, size: nat, result: Option<int>)
    requires WellFormed(nodes)
    requires forall k :: 0 <= k < |visited| ==> visited[k] < |nodes|
    requires multiset(visited) == SubtreeIds(nodes, Root)
    requires SortedAscending(report) && multiset(report) == multiset(SizesOf(nodes, visited))
    requires size == Size(nodes, Root)
    requires result == FindDeletable(report, SystemSize - size)
    ensures Answers(nodes, Report(size, result))
  {
    RecordAnswers(nodes, visited, report, SystemSize - size, result);
    ReportAnswers(nodes, size, result);
  }

  /** Asking the question of the sorted record finds the smallest freeing size among the tree's directories. */
  lemma RecordAnswers(nodes: seq<DirNode>, visited: seq<nat>, report: seq<int>, available: int, result: Option<int>)
    requires WellFormed(nodes)
    requires forall k :: 0 <= k < |visited| ==> visited[k] < |nodes|
    requires multiset(visited) == SubtreeIds(nodes, Root)
    requires SortedAscending(report) && multiset(report) == multiset(SizesOf(nodes, visited))
    requires result == FindDeletable(report, available)
    ensures SmallestFreeing(DirectorySizes(nodes), available, result)
  {
    RecordIsDirectorySizes(nodes, visited, report);
    FindDeletableOnRecord(report, DirectorySizes(nodes), available, result);
  }

  /** The size of `/` and the smallest freeing size among the directory sizes answer the question for the tree. */
  lemma ReportAnswers(nodes: seq<DirNode>, size: nat, result: Option<int>)
    requires WellFormed(nodes)
    requires size == Size(nodes, Root)
    requires SmallestFreeing(DirectorySizes(nodes), SystemSize - size, result)
    ensures Answers(nodes, Report(size, result))
  {
  }

  /** The record made while sizing from `/` holds exactly the sizes of the directories under `/`. */
  lemma RecordIsDirectorySizes(nodes: seq<DirNode>, visited: seq<nat>, report: seq<int>)
    requires WellFormed(nodes)
    requires forall k :: 0 <= k < |visited| ==> visited[k] < |nodes|
    requires multiset(visited) == SubtreeIds(nodes, Root)
    requires multiset(report) == multiset(SizesOf(nodes, visited))
    ensures forall x :: x in report <==> x in DirectorySizes(nodes)
  {
    RecordedSizes(nodes, visited, report);
    var sizes := DirectorySizes(nodes);
    forall x ensures x in report <==> x in sizes {
      if x in report {
        var j :| j in multiset(visited) && j < |nodes| && Size(nodes, j) == x;
        assert j in SubtreeIds(nodes, Root);
      }
    }
  }

  /** On a sorted list of exactly the sizes in `sizes`, the first that frees enough is the smallest such. */
  lemma FindDeletableOnRecord(report: seq<int>, sizes: set<int>, available: int, r: Option<int>)
    requires SortedAscending(report)
    requires forall x :: x in report <==> x in sizes
    requires r == FindDeletable(report, available)
    ensures SmallestFreeing(sizes, available, r)
  {
    FindDeletableIsSmallest(report, available);
    if r.None? {
      forall x | x in sizes ensures !Frees(available, x) {
        var k :| 0 <= k < |report| && report[k] == x;
      }
    } else {
      var i :| 0 <= i < |report| && report[i] == r.value && Frees(available, r.value);
    }
  }

  /** A list holding the recorded sizes of `visited`, in any order, holds exactly their sizes. */
  lemma RecordedSizes(nodes: seq<DirNode>, visited: seq<nat>, report: seq<int>)
    requires WellFormed(nodes)
    requires forall k :: 0 <= k < |visited| ==> visited[k] < |nodes|
    requires multiset(report) == multiset(SizesOf(nodes, visited))
    ensures forall x :: x in report <==> exists j :: j in multiset(visited) && j < |nodes| && Size(nodes, j) == x
  {
    SizesOfAt(nodes, visited);
    forall x ensures x in report <==> exists j :: j in multiset(visited) && j < |nodes| && Size(nodes, j) == x {
      if x in report {
        assert x in multiset(SizesOf(nodes, visited));
        var k :| 0 <= k < |visited| && SizesOf(nodes, visited)[k] == x;
        assert visited[k] in multiset(visited);
      }
      if exists j :: j in multiset(visited) && j < |nodes| && Size(nodes, j) == x {
        var j :| j in multiset(visited) && j < |nodes| && Size(nodes, j) == x;
        var k :| 0 <= k < |visited| && visited[k] == j;
        assert SizesOf(nodes, visited)[k] == x;
        assert x in multiset(SizesOf(nodes, visited));
      }
    }
  }
}
