/**
 * The directory tree (`DirNode`, index.ts). The nodes live in an arena: a node
 * is named by its index, the root is index 0, a parent link is an optional
 * index and a child link is an index stored under the child's name. A new
 * directory always gets the next free index, so links to children point
 * forward and links to parents point back, which is what makes the tree finite
 * and acyclic.
 */
module DirTree {
  import opened Wrappers
  import opened SizeRecorder

  /** One directory: its name, its parent, its sub-directories by name and its files' sizes by name. */
  datatype DirNode = DirNode(value: string, parent: Option<nat>, children: map<string, nat>, files: map<string, nat>)

  datatype ParseError =
    | NavigationError(name: string)   // `cd` into a directory the cursor does not have
    | NumericParseError(token: string) // a size token that is not a decimal number
    | MissingOperand(text: string)     // a command or listing line with no second word

  const Root: nat := 0

  /** A directory created by `dir <name>` under `parent`: no entries yet. */
  function EmptyDir(name: string, parent: Option<nat>): DirNode {
    DirNode(name, parent, map[], map[])
  }

  const RootNode: DirNode := EmptyDir("/", None)

  /**
   * The arena invariant: the root has no parent, every other node has an
   * earlier parent, and every child link points to a later node whose parent
   * is the linking node and whose name is the link's key.
   */
  ghost predicate WellFormed(nodes: seq<DirNode>) {
    && |nodes| > 0
    && nodes[Root].parent == None
    && (forall i :: 0 < i < |nodes| ==> nodes[i].parent.Some? && nodes[i].parent.value < i)
    && (forall i, n :: 0 <= i < |nodes| && n in nodes[i].children ==>
          && i < nodes[i].children[n] < |nodes|
          && nodes[nodes[i].children[n]].parent == Some(i)
          && nodes[nodes[i].children[n]].value == n)
  }

  // ---------------------------------------------------------------- navigation

  /** `navToParent`: the parent, or the node itself at the root. */
  function NavToParent(nodes: seq<DirNode>, at: nat): (p: nat)
    requires WellFormed(nodes) && at < |nodes|
    ensures p < |nodes|
    ensures p <= at
    ensures p == at <==> at == Root
    ensures at != Root ==> nodes[at].parent == Some(p)
  {
    match nodes[at].parent
    case None => at
    case Some(q) => q
  }

  /** `navToChild`: the child stored under `name`, or an error naming `name`. */
  function NavToChild(nodes: seq<DirNode>, at: nat, name: string): (r: Result<nat, ParseError>)
    requires WellFormed(nodes) && at < |nodes|
    ensures r.Ok? <==> name in nodes[at].children
    ensures r.Ok? ==> r.value == nodes[at].children[name] && at < r.value < |nodes|
    ensures r.Err? ==> r.error == NavigationError(name)
  {
    if name in nodes[at].children then Ok(nodes[at].children[name]) else Err(NavigationError(name))
  }

  /** Going into a child and back up returns to where one started; the child carries the name used. */
  lemma ChildThenParent(nodes: seq<DirNode>, at: nat, name: string)
    requires WellFormed(nodes) && at < |nodes|
    requires NavToChild(nodes, at, name).Ok?
    ensures nodes[NavToChild(nodes, at, name).value].value == name
    ensures NavToParent(nodes, NavToChild(nodes, at, name).value) == at
  {
  }

  // ---------------------------------------------------------------- upserts

  /** `addChild(name)` at `at`: a fresh empty node, linked under `name` (replacing any earlier link). */
  function WithChild(nodes: seq<DirNode>, at: nat, name: string): seq<DirNode>
    requires at < |nodes|
  {
    nodes[at := nodes[at].(children := nodes[at].children[name := |nodes|])] + [EmptyDir(name, Some(at))]
  }

  /** `addFile(name, size)` at `at`: sets the size stored under `name`. */
  function WithFile(nodes: seq<DirNode>, at: nat, name: string, size: nat): seq<DirNode>
    requires at < |nodes|
  {
    nodes[at := nodes[at].(files := nodes[at].files[name := size])]
  }

  /**
   * After `addChild`, `name` leads to a new empty directory whose parent is
   * `at`; every other link of `at`, its files and every other node are as
   * before, and the arena invariant still holds.
   */
  lemma AddChildUpsert(nodes: seq<DirNode>, at: nat, name: string)
    requires WellFormed(nodes) && at < |nodes|
    ensures var r := WithChild(nodes, at, name);
      && WellFormed(r)
      && |r| == |nodes| + 1
      && NavToChild(r, at, name) == Ok(|nodes|)
      && r[|nodes|] == EmptyDir(name, Some(at))
      && r[at].children.Keys == nodes[at].children.Keys + {name}
      && (forall m :: m in nodes[at].children && m != name ==> r[at].children[m] == nodes[at].children[m])
      && r[at].files == nodes[at].files && r[at].parent == nodes[at].parent && r[at].value == nodes[at].value
      && (forall i :: 0 <= i < |nodes| && i != at ==> r[i] == nodes[i])
  {
    var r := WithChild(nodes, at, name);
    var n := |nodes|;
    assert forall i :: 0 <= i < n ==> r[i].parent == nodes[i].parent && r[i].value == nodes[i].value;
    forall i, m | 0 <= i < |r| && m in r[i].children
      ensures i < r[i].children[m] < |r| && r[r[i].children[m]].parent == Some(i) && r[r[i].children[m]].value == m
    {
      if i == at && m == name {
        assert r[i].children[m] == n;
      } else {
        assert i < n && m in nodes[i].children && r[i].children[m] == nodes[i].children[m];
      }
    }
  }

  /**
   * After `addFile`, `name` maps to `size` in the files of `at`; every other
   * file, the links of `at` and every other node are as before.
   */
  lemma AddFileUpsert(nodes: seq<DirNode>, at: nat, name: string, size: nat)
    requires WellFormed(nodes) && at < |nodes|
    ensures var r := WithFile(nodes, at, name, size);
      && WellFormed(r)
      && |r| == |nodes|
      && r[at].files == nodes[at].files[name := size]
      && r[at].children == nodes[at].children && r[at].parent == nodes[at].parent && r[at].value == nodes[at].value
      && (forall i :: 0 <= i < |nodes| && i != at ==> r[i] == nodes[i])
  {
  }

  // ---------------------------------------------------------------- sizes

  /** Some element of a non-empty set; the sums below do not depend on which. */
  ghost function Pick(names: set<string>): (n: string)
    requires names != {}
    ensures n in names
  {
    var n :| n in names; n
  }

  /** The sum of the sizes stored under `names`. */
  ghost function FileTotal(files: map<string, nat>, names: set<string>): nat
    requires names <= files.Keys
    decreases names
  {
    if names == {} then 0
    else var n := Pick(names); files[n] + FileTotal(files, names - {n})
  }

  /** `getSize`: the files directly in `id` plus the sizes of its children. */
  ghost function Size(nodes: seq<DirNode>, id: nat): nat
    requires WellFormed(nodes) && id < |nodes|
    decreases |nodes| - id
  {
    FileTotal(nodes[id].files, nodes[id].files.Keys) + ChildTotal(nodes, id, nodes[id].children.Keys)
  }

  /** The sum of the sizes of the children of `id` linked under `names`. */
  ghost function ChildTotal(nodes: seq<DirNode>, id: nat, names: set<string>): nat
    requires WellFormed(nodes) && id < |nodes| && names <= nodes[id].children.Keys
    decreases |nodes| - id, names
  {
    if names == {} then 0
    else var n := Pick(names); Size(nodes, nodes[id].children[n]) + ChildTotal(nodes, id, names - {n})
  }

  /** The directories of the subtree rooted at `id`, as a multiset of indices. */
  ghost function SubtreeIds(nodes: seq<DirNode>, id: nat): (r: multiset<nat>)
    requires WellFormed(nodes) && id < |nodes|
    ensures id in r && forall j :: j in r ==> id <= j < |nodes|
    decreases |nodes| - id
  {
    multiset{id} + ChildIds(nodes, id, nodes[id].children.Keys)
  }

  /** The directories of the subtrees of the children of `id` linked under `names`. */
  ghost function ChildIds(nodes: seq<DirNode>, id: nat, names: set<string>): (r: multiset<nat>)
    requires WellFormed(nodes) && id < |nodes| && names <= nodes[id].children.Keys
    ensures forall j :: j in r ==> id < j < |nodes|
    decreases |nodes| - id, names
  {
    if names == {} then multiset{}
    else var n := Pick(names); SubtreeIds(nodes, nodes[id].children[n]) + ChildIds(nodes, id, names - {n})
  }

  // ---------------------------------------------------------------- shape of a subtree

  /** `j` is `a` or lies below it: the parent links from `j` lead to `a`. */
  ghost predicate Descends(nodes: seq<DirNode>, j: nat, a: nat)
    requires WellFormed(nodes) && j < |nodes|
    decreases j
  {
    j == a || (a < j && Descends(nodes, nodes[j].parent.value, a))
  }

  /** A member of the children's subtrees lies in the subtree of one particular child. */
  lemma {:induction false} ChildIdsMember(nodes: seq<DirNode>, id: nat, names: set<string>, j: nat)
    requires WellFormed(nodes) && id < |nodes| && names <= nodes[id].children.Keys
    requires j in ChildIds(nodes, id, names)
    ensures exists m :: m in names && j in SubtreeIds(nodes, nodes[id].children[m])
    decreases names
  {
    var n := Pick(names);
    if j !in SubtreeIds(nodes, nodes[id].children[n]) {
      ChildIdsMember(nodes, id, names - {n}, j);
    }
  }

  lemma {:induction false} DescendsThroughParent(nodes: seq<DirNode>, j: nat, c: nat, p: nat)
    requires WellFormed(nodes) && j < |nodes| && c < |nodes|
    requires p < c && nodes[c].parent == Some(p)
    requires Descends(nodes, j, c)
    ensures Descends(nodes, j, p)
    decreases j
  {
    if j != c {
      DescendsThroughParent(nodes, nodes[j].parent.value, c, p);
    }
  }

  /** Two directories above the same directory lie one above the other. */
  lemma {:induction false} DescendsComparable(nodes: seq<DirNode>, j: nat, a: nat, b: nat)
    requires WellFormed(nodes) && j < |nodes| && a < |nodes| && b < |nodes|
    requires Descends(nodes, j, a) && Descends(nodes, j, b)
    ensures Descends(nodes, a, b) || Descends(nodes, b, a)
    decreases j
  {
    if j != a && j != b {
      DescendsComparable(nodes, nodes[j].parent.value, a, b);
    }
  }

  /**
   * Every directory in the subtree of `id` is a node of the arena, lies below
   * `id`, and is no larger than `id` (so the root is the largest directory).
   */
  lemma {:induction false} SubtreeBelow(nodes: seq<DirNode>, id: nat, j: nat)
    requires WellFormed(nodes) && id < |nodes|
    requires j in SubtreeIds(nodes, id)
    ensures j < |nodes| && Descends(nodes, j, id) && Size(nodes, j) <= Size(nodes, id)
    decreases |nodes| - id
  {
    if j != id {
      var names := nodes[id].children.Keys;
      assert j in ChildIds(nodes, id, names);
      ChildIdsMember(nodes, id, names, j);
      var m :| m in names && j in SubtreeIds(nodes, nodes[id].children[m]);
      var c := nodes[id].children[m];
      SubtreeBelow(nodes, c, j);
      DescendsThroughParent(nodes, j, c, id);
      ChildTotalPick(nodes, id, names, m);
    }
  }

  /** Each directory of a subtree occurs in it once: no directory is recorded twice. */
  lemma {:induction false} SubtreeIdsOnce(nodes: seq<DirNode>, id: nat, j: nat)
    requires WellFormed(nodes) && id < |nodes|
    ensures SubtreeIds(nodes, id)[j] <= 1
    decreases |nodes| - id
  {
    if j != id {
      ChildIdsOnce(nodes, id, nodes[id].children.Keys, j);
    }
  }

  lemma {:induction false} ChildIdsOnce(nodes: seq<DirNode>, id: nat, names: set<string>, j: nat)
    requires WellFormed(nodes) && id < |nodes| && names <= nodes[id].children.Keys
    ensures ChildIds(nodes, id, names)[j] <= 1
    decreases |nodes| - id, names
  {
    if names != {} {
      var n := Pick(names);
      var c := nodes[id].children[n];
      SubtreeIdsOnce(nodes, c, j);
      ChildIdsOnce(nodes, id, names - {n}, j);
      if j in SubtreeIds(nodes, c) && j in ChildIds(nodes, id, names - {n}) {
        ChildIdsMember(nodes, id, names - {n}, j);
        var m :| m in names - {n} && j in SubtreeIds(nodes, nodes[id].children[m]);
        var d := nodes[id].children[m];
        SubtreeBelow(nodes, c, j);
        SubtreeBelow(nodes, d, j);
        ChildrenApart(nodes, id, n, m);
        DescendsComparable(nodes, j, c, d);
        assert false;
      }
    }
  }

  /** The directories linked under two different names of one directory lie apart. */
  lemma ChildrenApart(nodes: seq<DirNode>, id: nat, n: string, m: string)
    requires WellFormed(nodes) && id < |nodes|
    requires n in nodes[id].children && m in nodes[id].children && n != m
    ensures var c, d := nodes[id].children[n], nodes[id].children[m];
      !Descends(nodes, c, d) && !Descends(nodes, d, c)
  {
    var c, d := nodes[id].children[n], nodes[id].children[m];
    assert nodes[c].value == n && nodes[d].value == m;
    assert nodes[c].parent.value == id && nodes[d].parent.value == id;
    assert !Descends(nodes, id, d) && !Descends(nodes, id, c);
  }

  /** The size of each directory of a list, in the same order. */
  ghost function SizesOf(nodes: seq<DirNode>, ids: seq<nat>): seq<int>
    requires WellFormed(nodes)
    requires forall k :: 0 <= k < |ids| ==> ids[k] < |nodes|
  {
    if ids == [] then [] else SizesOf(nodes, ids[..|ids| - 1]) + [Size(nodes, ids[|ids| - 1])]
  }

  lemma {:induction false} SizesOfAt(nodes: seq<DirNode>, ids: seq<nat>)
    requires WellFormed(nodes)
    requires forall k :: 0 <= k < |ids| ==> ids[k] < |nodes|
    ensures |SizesOf(nodes, ids)| == |ids|
    ensures forall k :: 0 <= k < |ids| ==> SizesOf(nodes, ids)[k] == Size(nodes, ids[k])
    decreases |ids|
  {
    if ids != [] {
      SizesOfAt(nodes, ids[..|ids| - 1]);
    }
  }

  /** Files may be summed in any order: taking out any one of them first gives the same total. */
  lemma {:induction false} FileTotalPick(files: map<string, nat>, names: set<string>, n: string)
    requires names <= files.Keys && n in names
    ensures FileTotal(files, names) == files[n] + FileTotal(files, names - {n})
    decreases names
  {
    var m := Pick(names);
    if m != n {
      FileTotalPick(files, names - {m}, n);
      FileTotalPick(files, names - {n}, m);
      assert names - {m} - {n} == names - {n} - {m};
    }
  }

  /** Children may be summed in any order. */
  lemma {:induction false} ChildTotalPick(nodes: seq<DirNode>, id: nat, names: set<string>, n: string)
    requires WellFormed(nodes) && id < |nodes| && names <= nodes[id].children.Keys && n in names
    ensures ChildTotal(nodes, id, names) == Size(nodes, nodes[id].children[n]) + ChildTotal(nodes, id, names - {n})
    decreases names
  {
    var m := Pick(names);
    if m != n {
      ChildTotalPick(nodes, id, names - {m}, n);
      ChildTotalPick(nodes, id, names - {n}, m);
      assert names - {m} - {n} == names - {n} - {m};
    }
  }

  /** Subtrees of children may be collected in any order. */
  lemma {:induction false} ChildIdsPick(nodes: seq<DirNode>, id: nat, names: set<string>, n: string)
    requires WellFormed(nodes) && id < |nodes| && names <= nodes[id].children.Keys && n in names
    ensures ChildIds(nodes, id, names) == SubtreeIds(nodes, nodes[id].children[n]) + ChildIds(nodes, id, names - {n})
    decreases names
  {
    var m := Pick(names);
    if m != n {
      var a := SubtreeIds(nodes, nodes[id].children[m]);
      var b := SubtreeIds(nodes, nodes[id].children[n]);
      ChildIdsPick(nodes, id, names - {m}, n);
      ChildIdsPick(nodes, id, names - {n}, m);
      assert names - {m} - {n} == names - {n} - {m};
      MultisetSwap(a, b, ChildIds(nodes, id, names - {m} - {n}));
    }
  }

  lemma SizesOfAppend(nodes: seq<DirNode>, a: seq<nat>, b: seq<nat>)
    requires WellFormed(nodes)
    requires forall k :: 0 <= k < |a| ==> a[k] < |nodes|
    requires forall k :: 0 <= k < |b| ==> b[k] < |nodes|
    ensures forall k :: 0 <= k < |a + b| ==> (a + b)[k] < |nodes|
    ensures SizesOf(nodes, a + b) == SizesOf(nodes, a) + SizesOf(nodes, b)
  {
    var ab := a + b;
    assert forall k :: 0 <= k < |ab| ==> ab[k] == if k < |a| then a[k] else b[k - |a|];
    SizesOfAt(nodes, a);
    SizesOfAt(nodes, b);
    SizesOfAt(nodes, ab);
    var lhs, rhs := SizesOf(nodes, ab), SizesOf(nodes, a) + SizesOf(nodes, b);
    assert |lhs| == |rhs|;
    forall k | 0 <= k < |lhs| ensures lhs[k] == rhs[k] {
      if k < |a| {
        assert lhs[k] == Size(nodes, a[k]) == rhs[k];
      } else {
        assert lhs[k] == Size(nodes, b[k - |a|]) == rhs[k];
      }
    }
  }

  lemma MultisetSwap(a: multiset<nat>, b: multiset<nat>, c: multiset<nat>)
    ensures a + (b + c) == b + (a + c)
  {
  }

  lemma MultisetRegroup(a: multiset<nat>, b: multiset<nat>, c: multiset<nat>)
    ensures (a + b) + c == a + (b + c)
  {
  }

  lemma SeqAssociative(a: seq<int>, b: seq<int>, c: seq<int>)
    ensures a + (b + c) == (a + b) + c
  {
  }

  /**
   * The state of `getSize` on `id` while `pending` children are still to be
   * visited: `size` holds the files and the children done so far, and
   * `visited` the directories recorded for those children.
   */
  ghost predicate Accounted(nodes: seq<DirNode>, id: nat, pending: set<string>, size: nat, visited: seq<nat>)
    requires WellFormed(nodes) && id < |nodes| && pending <= nodes[id].children.Keys
  {
    && (forall k :: 0 <= k < |visited| ==> visited[k] < |nodes|)
    && size + ChildTotal(nodes, id, pending) == Size(nodes, id)
    && multiset(visited) + ChildIds(nodes, id, pending) == ChildIds(nodes, id, nodes[id].children.Keys)
  }

  /** Visiting one more child keeps the account. */
  lemma AccountChild(nodes: seq<DirNode>, id: nat, pending: set<string>, n: string,
                     size: nat, visited: seq<nat>, childSize: nat, childVisited: seq<nat>)
    requires WellFormed(nodes) && id < |nodes| && pending <= nodes[id].children.Keys && n in pending
    requires Accounted(nodes, id, pending, size, visited)
    requires childSize == Size(nodes, nodes[id].children[n])
    requires forall k :: 0 <= k < |childVisited| ==> childVisited[k] < |nodes|
    requires multiset(childVisited) == SubtreeIds(nodes, nodes[id].children[n])
    ensures Accounted(nodes, id, pending - {n}, size + childSize, visited + childVisited)
    ensures SizesOf(nodes, visited + childVisited) == SizesOf(nodes, visited) + SizesOf(nodes, childVisited)
  {
    ChildTotalPick(nodes, id, pending, n);
    ChildIdsPick(nodes, id, pending, n);
    MultisetRegroup(multiset(visited), SubtreeIds(nodes, nodes[id].children[n]), ChildIds(nodes, id, pending - {n}));
    assert multiset(visited + childVisited) == multiset(visited) + multiset(childVisited);
    SizesOfAppend(nodes, visited, childVisited);
  }

  /** Once every child is visited, recording `id` itself completes the subtree. */
  lemma AccountSelf(nodes: seq<DirNode>, id: nat, size: nat, visited: seq<nat>)
    requires WellFormed(nodes) && id < |nodes|
    requires Accounted(nodes, id, {}, size, visited)
    ensures size == Size(nodes, id)
    ensures forall k :: 0 <= k < |visited + [id]| ==> (visited + [id])[k] < |nodes|
    ensures multiset(visited + [id]) == SubtreeIds(nodes, id)
    ensures SizesOf(nodes, visited + [id]) == SizesOf(nodes, visited) + [size]
  {
    assert multiset(visited) == ChildIds(nodes, id, nodes[id].children.Keys);
    assert multiset(visited + [id]) == multiset{id} + multiset(visited);
    assert (visited + [id])[..|visited + [id]| - 1] == visited;
  }

  class FileTree {
    var nodes: seq<DirNode>
    const aggregator: Aggregator

    ghost predicate Valid()
      reads this
    {
      WellFormed(nodes)
    }

    /** A tree holding only the root `/`, reporting its sizes to `aggregator`. */
    constructor (aggregator: Aggregator)
      ensures Valid() && nodes == [RootNode] && this.aggregator == aggregator
    {
      nodes := [RootNode];
      this.aggregator := aggregator;
    }

    method AddChild(at: nat, name: string)
      requires Valid() && at < |nodes|
      modifies this
      ensures Valid()
      ensures nodes == WithChild(old(nodes), at, name)
    {
      AddChildUpsert(nodes, at, name);
      var node := nodes[at];
      var child := EmptyDir(name, Some(at));
      nodes := nodes[at := node.(children := node.children[name := |nodes|])] + [child];
    }

    method AddFile(at: nat, name: string, size: nat)
      requires Valid() && at < |nodes|
      modifies this
      ensures Valid()
      ensures nodes == WithFile(old(nodes), at, name, size)
    {
      AddFileUpsert(nodes, at, name, size);
      var node := nodes[at];
      nodes := nodes[at := node.(files := node.files[name := size])];
    }

    /**
     * `getSize`: sums the files of `id`, then the sizes of its children (one
     * recursive call each), records the total and returns it. `visited` lists
     * the directories whose sizes were appended, in the order they were.
     */
    method GetSize(id: nat) returns (size: nat, ghost visited: seq<nat>)
      requires Valid() && id < |nodes| && aggregator.Valid()
      modifies aggregator
      decreases |nodes| - id
      ensures aggregator.Valid()
      ensures size == Size(nodes, id)
      ensures forall k :: 0 <= k < |visited| ==> visited[k] < |nodes|
      ensures multiset(visited) == SubtreeIds(nodes, id)
      ensures |visited| > 0 && visited[|visited| - 1] == id
      ensures aggregator.sizes == old(aggregator.sizes) + SizesOf(nodes, visited)
      ensures |aggregator.sizes| > |old(aggregator.sizes)| && aggregator.sizes[|aggregator.sizes| - 1] == size
    {
      var node := nodes[id];
      size := 0;
      var fileNames := node.files.Keys;
      while fileNames != {}
        invariant fileNames <= node.files.Keys
        invariant unchanged(aggregator)
        invariant size + FileTotal(node.files, fileNames) == FileTotal(node.files, node.files.Keys)
        decreases fileNames
      {
        var n :| n in fileNames;
        FileTotalPick(node.files, fileNames, n);
        size := size + node.files[n];
        fileNames := fileNames - {n};
      }
      visited := [];
      var childNames := node.children.Keys;
      while childNames != {}
        invariant childNames <= node.children.Keys
        invariant aggregator.Valid()
        invariant Accounted(nodes, id, childNames, size, visited)
        invariant aggregator.sizes == old(aggregator.sizes) + SizesOf(nodes, visited)
        decreases childNames
      {
        var n :| n in childNames;
        var childSize, childVisited := GetSize(node.children[n]);
        AccountChild(nodes, id, childNames, n, size, visited, childSize, childVisited);
        SeqAssociative(old(aggregator.sizes), SizesOf(nodes, visited), SizesOf(nodes, childVisited));
        size := size + childSize;
        visited := visited + childVisited;
        childNames := childNames - {n};
      }
      aggregator.Record(size);
      AccountSelf(nodes, id, size, visited);
      SeqAssociative(old(aggregator.sizes), SizesOf(nodes, visited), [size]);
      visited := visited + [id];
    }
  }
}
