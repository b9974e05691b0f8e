/**
 * The inode store of SimpleFileSystem: the INode record, the map from id to
 * INode, the tree invariant the operations keep, and the derived notions the
 * operations are specified with (subtrees, absolute paths, the recursive
 * listing, child lookup by name).
 */
module INodeTree {
  import opened Wrappers

  /** One inode. Timestamps are abstract clock values; `blocks` is not modelled. */
  datatype INode = INode(
    id: int,
    name: string,
    isDirectory: bool,
    size: int,
    creationTime: int,
    modificationTime: int,
    permissions: string,
    children: seq<int>,
    parent: int)

  /** All inodes of the file system, keyed by id. */
  type Store = map<int, INode>

  const RootId: int := 0
  const RootName: string := "/"
  const DefaultPermissions: string := "rwxr-xr-x"

  /** An inode as the INode default constructor leaves it, given its id, name, kind and parent. */
  function NewINode(id: int, name: string, isDirectory: bool, parent: int, now: int): INode
  {
    INode(id, name, isDirectory, 0, now, now, DefaultPermissions, [], parent)
  }

  /** The root directory the SimpleFileSystem constructor installs. */
  function RootINode(now: int): INode
  {
    NewINode(RootId, RootName, true, RootId, now)
  }

  /** The entries listed in `cs` carry pairwise distinct names. */
  predicate UniqueNames(m: Store, cs: seq<int>)
  {
    forall i, j | 0 <= i < j < |cs| && cs[i] in m && cs[j] in m :: m[cs[i]].name != m[cs[j]].name
  }

  /**
   * The invariant of one entry: its id is its key; the root is a directory
   * and its own parent; every other entry has a directory parent with a
   * smaller id that lists it; files have no children; every child is stored,
   * is not the root, and names this entry as its parent; sibling names are
   * distinct.
   */
  predicate NodeOk(m: Store, k: int)
    requires k in m
  {
    && m[k].id == k
    && (k == RootId ==> m[k].parent == RootId && m[k].isDirectory)
    && (k != RootId ==>
          && 0 <= m[k].parent < k
          && m[k].parent in m
          && m[m[k].parent].isDirectory
          && k in m[m[k].parent].children)
    && (!m[k].isDirectory ==> m[k].children == [])
    && (forall c | c in m[k].children :: c != RootId && c in m && m[c].parent == k)
    && UniqueNames(m, m[k].children)
  }

  /** The tree invariant: the root is present and every entry satisfies NodeOk. */
  predicate ValidStore(m: Store)
  {
    RootId in m && forall k {:trigger NodeOk(m, k)} | k in m :: NodeOk(m, k)
  }

  lemma ChildrenDistinct(m: Store, x: int, i: int, j: int)
    requires ValidStore(m) && x in m
    requires 0 <= i < j < |m[x].children|
    ensures m[x].children[i] != m[x].children[j]
  {
    assert NodeOk(m, x);
    assert m[x].children[i] in m[x].children && m[x].children[j] in m[x].children;
  }

  // ---------------------------------------------------------------------
  // Subtrees

  /** `x` lies on the parent chain of `k` (k itself included). */
  predicate InSubtree(m: Store, x: int, k: int)
    decreases k
  {
    k == x || (k in m && 0 <= m[k].parent < k && InSubtree(m, x, m[k].parent))
  }

  /** The entries in the subtree rooted at `x`. */
  function Subtree(m: Store, x: int): set<int>
  {
    set k | k in m && InSubtree(m, x, k)
  }

  /** The union of the subtrees of the roots in `roots`. */
  function Forest(m: Store, roots: seq<int>): set<int>
  {
    if roots == [] then {} else Forest(m, roots[..|roots| - 1]) + Subtree(m, roots[|roots| - 1])
  }

  /** The sum of the subtree sizes of the roots in `roots`. */
  function SizeSum(m: Store, roots: seq<int>): nat
  {
    if roots == [] then 0 else SizeSum(m, roots[..|roots| - 1]) + |Subtree(m, roots[|roots| - 1])|
  }

  lemma {:induction false} SubtreeAbove(m: Store, x: int, k: int)
    requires InSubtree(m, x, k)
    ensures x <= k
    decreases k
  {
    if k != x {
      SubtreeAbove(m, x, m[k].parent);
    }
  }

  lemma {:induction false} SubtreeTransitive(m: Store, a: int, b: int, k: int)
    requires InSubtree(m, a, b) && InSubtree(m, b, k)
    ensures InSubtree(m, a, k)
    decreases k
  {
    if k != b {
      SubtreeTransitive(m, a, b, m[k].parent);
    }
  }

  lemma {:induction false} SubtreeLinear(m: Store, a: int, b: int, k: int)
    requires InSubtree(m, a, k) && InSubtree(m, b, k)
    ensures InSubtree(m, a, b) || InSubtree(m, b, a)
    decreases k
  {
    if k != a && k != b {
      SubtreeLinear(m, a, b, m[k].parent);
    }
  }

  /** In a valid store, a child's id is larger than its parent's. */
  lemma ChildAbove(m: Store, x: int, c: int)
    requires ValidStore(m) && x in m && c in m[x].children
    ensures c in m && m[c].parent == x && x < c && InSubtree(m, x, c)
  {
    assert NodeOk(m, x);
    assert NodeOk(m, c);
  }

  /** A strict descendant of `x` lies below one of x's children. */
  lemma {:induction false} ChildOnPath(m: Store, x: int, k: int) returns (i: nat)
    requires ValidStore(m) && x in m
    requires InSubtree(m, x, k) && k != x
    ensures i < |m[x].children| && InSubtree(m, m[x].children[i], k)
    decreases k
  {
    var p := m[k].parent;
    assert NodeOk(m, k);
    if p == x {
      assert k in m[x].children;
      i :| 0 <= i < |m[x].children| && m[x].children[i] == k;
    } else {
      i := ChildOnPath(m, x, p);
    }
  }

  lemma {:induction false} ForestMember(m: Store, roots: seq<int>, k: int)
    ensures k in Forest(m, roots) <==> exists i | 0 <= i < |roots| :: k in Subtree(m, roots[i])
  {
    if roots != [] {
      var init := roots[..|roots| - 1];
      ForestMember(m, init, k);
      if k in Forest(m, init) {
        var i :| 0 <= i < |init| && k in Subtree(m, init[i]);
        assert roots[i] == init[i];
      }
      if exists i | 0 <= i < |roots| :: k in Subtree(m, roots[i]) {
        var i :| 0 <= i < |roots| && k in Subtree(m, roots[i]);
        if i < |init| {
          assert init[i] == roots[i];
        }
      }
    }
  }

  lemma {:induction false} ForestAppend(m: Store, a: seq<int>, b: seq<int>)
    ensures Forest(m, a + b) == Forest(m, a) + Forest(m, b)
    ensures SizeSum(m, a + b) == SizeSum(m, a) + SizeSum(m, b)
    decreases |b|
  {
    if b != [] {
      var b' := b[..|b| - 1];
      assert (a + b)[..|a + b| - 1] == a + b';
      ForestAppend(m, a, b');
    } else {
      assert a + b == a;
    }
  }

  /** The subtree of `x` is `x` together with the subtrees of its children. */
  lemma Decompose(m: Store, x: int)
    requires ValidStore(m) && x in m
    ensures Subtree(m, x) == {x} + Forest(m, m[x].children)
  {
    var cs := m[x].children;
    forall k | k in Subtree(m, x)
      ensures k in {x} + Forest(m, cs)
    {
      if k != x {
        var i := ChildOnPath(m, x, k);
        ForestMember(m, cs, k);
      }
    }
    forall k | k in Forest(m, cs)
      ensures k in Subtree(m, x)
    {
      ForestMember(m, cs, k);
      var i :| 0 <= i < |cs| && k in Subtree(m, cs[i]);
      ChildAbove(m, x, cs[i]);
      SubtreeTransitive(m, x, cs[i], k);
    }
  }

  /** Subtrees of two distinct siblings do not overlap. */
  lemma SiblingsDisjoint(m: Store, x: int, c1: int, c2: int)
    requires ValidStore(m) && x in m
    requires c1 in m[x].children && c2 in m[x].children && c1 != c2
    ensures Subtree(m, c1) !! Subtree(m, c2)
  {
    ChildAbove(m, x, c1);
    ChildAbove(m, x, c2);
    forall k | k in Subtree(m, c1) && k in Subtree(m, c2)
      ensures false
    {
      SubtreeLinear(m, c1, c2, k);
      if InSubtree(m, c1, c2) {
        SubtreeAbove(m, c1, m[c2].parent);
      } else {
        SubtreeAbove(m, c2, m[c1].parent);
      }
    }
  }

  lemma {:induction false} ForestBound(m: Store, roots: seq<int>)
    ensures |Forest(m, roots)| <= SizeSum(m, roots)
    decreases |roots|
  {
    if roots != [] {
      ForestBound(m, roots[..|roots| - 1]);
    }
  }

  /** The subtrees of a prefix of x's children are pairwise disjoint, so their sizes add up. */
  lemma {:induction false} ChildForestSize(m: Store, x: int, n: nat)
    requires ValidStore(m) && x in m && n <= |m[x].children|
    ensures |Forest(m, m[x].children[..n])| == SizeSum(m, m[x].children[..n])
    ensures x !in Forest(m, m[x].children[..n])
    decreases n
  {
    var cs := m[x].children;
    if n > 0 {
      var c := cs[n - 1];
      assert cs[..n][..n - 1] == cs[..n - 1];
      ChildForestSize(m, x, n - 1);
      ChildAbove(m, x, c);
      forall k | k in Forest(m, cs[..n - 1]) && k in Subtree(m, c)
        ensures false
      {
        ForestMember(m, cs[..n - 1], k);
        var i :| 0 <= i < n - 1 && k in Subtree(m, cs[..n - 1][i]);
        ChildrenDistinct(m, x, i, n - 1);
        SiblingsDisjoint(m, x, cs[i], c);
      }
      if x in Subtree(m, c) {
        SubtreeAbove(m, c, x);
      }
    }
  }

  /** The size of a subtree is one plus the sizes of the children's subtrees. */
  lemma SubtreeSize(m: Store, x: int)
    requires ValidStore(m) && x in m
    ensures |Subtree(m, x)| == 1 + SizeSum(m, m[x].children)
  {
    var cs := m[x].children;
    Decompose(m, x);
    ChildForestSize(m, x, |cs|);
    assert cs[..|cs|] == cs;
  }

  /**
   * One step of a worklist traversal: popping `s` off the top of the stack
   * and pushing its children (a file pushes nothing) trades s's subtree for
   * {s} plus the children's subtrees, and shrinks the size sum by one.
   */
  lemma WorklistStep(m: Store, rest: seq<int>, s: int)
    requires ValidStore(m) && s in m
    ensures var kids := if m[s].isDirectory then m[s].children else [];
      && Forest(m, rest + [s]) == Forest(m, rest + kids) + {s}
      && SizeSum(m, rest + [s]) == SizeSum(m, rest + kids) + 1
      && s !in Forest(m, kids)
  {
    var kids := if m[s].isDirectory then m[s].children else [];
    assert NodeOk(m, s);
    assert kids == m[s].children;
    Decompose(m, s);
    SubtreeSize(m, s);
    ChildForestSize(m, s, |kids|);
    assert kids[..|kids|] == kids;
    ReplaceTop(m, rest, s, kids);
  }

  /** Replacing the top `s` of a stack by roots whose forest, with `s`, is s's subtree. */
  lemma ReplaceTop(m: Store, rest: seq<int>, s: int, kids: seq<int>)
    requires Subtree(m, s) == {s} + Forest(m, kids) && s !in Forest(m, kids)
    requires |Subtree(m, s)| == 1 + SizeSum(m, kids)
    ensures Forest(m, rest + [s]) == Forest(m, rest + kids) + {s}
    ensures SizeSum(m, rest + [s]) == SizeSum(m, rest + kids) + 1
  {
    assert (rest + [s])[..|rest|] == rest;
    assert Forest(m, rest + [s]) == Forest(m, rest) + Subtree(m, s);
    ForestAppend(m, rest, kids);
  }

  /**
   * Worklist accounting: when the finished set and the stack's subtrees
   * cover `whole` and their sizes add up to |whole|, nothing is counted
   * twice, so the finished set and the stack's subtrees are disjoint.
   */
  lemma WorklistTight(m: Store, done: set<int>, stack: seq<int>, whole: set<int>)
    requires done + Forest(m, stack) == whole
    requires |done| + SizeSum(m, stack) == |whole|
    ensures done !! Forest(m, stack)
  {
    ForestBound(m, stack);
    var f := Forest(m, stack);
    assert |done + f| + |done * f| == |done| + |f|;
  }

  // ---------------------------------------------------------------------
  // Absolute paths

  /** The names on the way from the root down to `id`, the root excluded. */
  function PathNames(m: Store, id: int): (r: seq<string>)
    requires ValidStore(m) && id in m
    ensures |r| == 0 <==> id == RootId
    decreases id
  {
    assert NodeOk(m, id);
    if id == RootId then [] else PathNames(m, m[id].parent) + [m[id].name]
  }

  /** Names joined with "/" between them. */
  function Join(parts: seq<string>): string
  {
    if |parts| == 0 then ""
    else if |parts| == 1 then parts[0]
    else Join(parts[..|parts| - 1]) + "/" + parts[|parts| - 1]
  }

  /** The absolute path of an entry: "/" for the root, else "/" and the joined names. */
  function AbsolutePath(m: Store, id: int): string
    requires ValidStore(m) && id in m
  {
    if id == RootId then "/" else "/" + Join(PathNames(m, id))
  }

  /** The recursive characterisation of absolute paths along parent links. */
  lemma AbsolutePathStep(m: Store, id: int)
    requires ValidStore(m) && id in m
    ensures id == RootId ==> AbsolutePath(m, id) == "/"
    ensures id != RootId ==>
      var p := m[id].parent;
      p in m &&
      AbsolutePath(m, id) ==
        if p == RootId then "/" + m[id].name else AbsolutePath(m, p) + "/" + m[id].name
  {
    if id != RootId {
      assert NodeOk(m, id);
      var p := m[id].parent;
      var ps := PathNames(m, p);
      assert PathNames(m, id) == ps + [m[id].name];
      assert (ps + [m[id].name])[..|ps|] == ps;
    }
  }

  // ---------------------------------------------------------------------
  // Child lookup

  /** The entry stored under `c` answers to `name` (and, when `dirOnly`, is a directory). */
  predicate Matches(m: Store, c: int, name: string, dirOnly: bool)
  {
    c in m && m[c].name == name && (dirOnly ==> m[c].isDirectory)
  }

  /** The position of the first entry of `cs` that matches, if any. */
  function FirstMatch(m: Store, cs: seq<int>, name: string, dirOnly: bool): (r: Option<nat>)
    ensures r.Some? ==>
      && r.value < |cs|
      && Matches(m, cs[r.value], name, dirOnly)
      && forall j | 0 <= j < r.value :: !Matches(m, cs[j], name, dirOnly)
    ensures r.None? <==> forall j | 0 <= j < |cs| :: !Matches(m, cs[j], name, dirOnly)
  {
    if cs == [] then None
    else if Matches(m, cs[0], name, dirOnly) then Some(0)
    else match FirstMatch(m, cs[1..], name, dirOnly)
      case None => None
      case Some(i) => Some(i + 1)
  }

  /** No child of `x` is named `name` when a lookup by that name finds nothing. */
  lemma NoMatchFreshName(m: Store, x: int, name: string)
    requires x in m && FirstMatch(m, m[x].children, name, false).None?
    ensures forall c | c in m[x].children && c in m :: m[c].name != name
  {
    forall c | c in m[x].children && c in m
      ensures m[c].name != name
    {
      var j :| 0 <= j < |m[x].children| && m[x].children[j] == c;
      assert !Matches(m, m[x].children[j], name, false);
    }
  }

  /** Among siblings with distinct names, a lookup by name finds the one child with that name. */
  lemma FirstMatchUnique(m: Store, x: int, name: string, i: nat)
    requires ValidStore(m) && x in m
    requires i < |m[x].children| && Matches(m, m[x].children[i], name, false)
    ensures FirstMatch(m, m[x].children, name, false) == Some(i)
  {
    assert NodeOk(m, x);
  }

  lemma ChildrenStored(m: Store, x: int)
    requires ValidStore(m) && x in m
    ensures forall j | 0 <= j < |m[x].children| :: m[x].children[j] in m
  {
    assert NodeOk(m, x);
    assert forall c | c in m[x].children :: c in m;
    forall j | 0 <= j < |m[x].children|
      ensures m[x].children[j] in m
    {
      assert m[x].children[j] in m[x].children;
    }
  }

  // ---------------------------------------------------------------------
  // Recursive listing

  /** The ids that occur in a listing. */
  function Ids(r: seq<(int, nat)>): set<int>
  {
    if r == [] then {} else {r[0].0} + Ids(r[1..])
  }

  lemma {:induction false} IdsAppend(a: seq<(int, nat)>, b: seq<(int, nat)>)
    ensures Ids(a + b) == Ids(a) + Ids(b)
    decreases |a|
  {
    if a != [] {
      assert (a + b)[1..] == a[1..] + b;
      IdsAppend(a[1..], b);
    } else {
      assert a + b == b;
    }
  }

  /**
   * The depth-first pre-order listing of the subtree at `id`: `id` at
   * `depth`, then, for a directory, the listing of each child in `children`
   * order one level deeper.
   */
  function RecursiveList(m: Store, id: int, depth: nat): (r: seq<(int, nat)>)
    requires ValidStore(m) && id in m
    ensures r != [] && r[0] == (id, depth)
    decreases |Subtree(m, id)|, 0
  {
    assert NodeOk(m, id);
    SubtreeSize(m, id);
    var kids := if m[id].isDirectory then m[id].children else [];
    assert kids == m[id].children;
    [(id, depth)] + ListChildren(m, id, kids, depth + 1)
  }

  /** The listings of the children `cs` of `x`, one after the other. */
  function ListChildren(m: Store, x: int, cs: seq<int>, depth: nat): (r: seq<(int, nat)>)
    requires ValidStore(m) && x in m
    requires forall c | c in cs :: c in m[x].children
    decreases SizeSum(m, cs), 1
  {
    if cs == [] then []
    else
      ForestCons(m, x, cs);
      RecursiveList(m, cs[0], depth) + ListChildren(m, x, cs[1..], depth)
  }

  /** Splitting the first child off a list of children of `x`. */
  lemma ForestCons(m: Store, x: int, cs: seq<int>)
    requires ValidStore(m) && x in m && cs != []
    requires forall c | c in cs :: c in m[x].children
    ensures cs[0] in m && cs[0] in Subtree(m, cs[0])
    ensures Forest(m, cs) == Subtree(m, cs[0]) + Forest(m, cs[1..])
    ensures SizeSum(m, cs) == |Subtree(m, cs[0])| + SizeSum(m, cs[1..])
  {
    var c := cs[0];
    ChildAbove(m, x, c);
    ForestAppend(m, [c], cs[1..]);
    assert [c] + cs[1..] == cs;
    assert [c][..0] == [];
  }

  /**
   * The listing of `id` holds every entry of its subtree exactly once: as
   * many items as entries, and every entry occurs.
   */
  lemma {:induction false} RecursiveListCovers(m: Store, id: int, depth: nat)
    requires ValidStore(m) && id in m
    ensures |RecursiveList(m, id, depth)| == |Subtree(m, id)|
    ensures Ids(RecursiveList(m, id, depth)) == Subtree(m, id)
    decreases |Subtree(m, id)|, 0
  {
    assert NodeOk(m, id);
    SubtreeSize(m, id);
    Decompose(m, id);
    var kids := if m[id].isDirectory then m[id].children else [];
    assert kids == m[id].children;
    var rest := ListChildren(m, id, kids, depth + 1);
    ListChildrenCovers(m, id, kids, depth + 1);
    IdsAppend([(id, depth)], rest);
  }

  lemma {:induction false} ListChildrenCovers(m: Store, x: int, cs: seq<int>, depth: nat)
    requires ValidStore(m) && x in m
    requires forall c | c in cs :: c in m[x].children
    ensures |ListChildren(m, x, cs, depth)| == SizeSum(m, cs)
    ensures Ids(ListChildren(m, x, cs, depth)) == Forest(m, cs)
    decreases SizeSum(m, cs), 1
  {
    if cs != [] {
      var c := cs[0];
      ForestCons(m, x, cs);
      var head := RecursiveList(m, c, depth);
      var tail := ListChildren(m, x, cs[1..], depth);
      RecursiveListCovers(m, c, depth);
      ListChildrenCovers(m, x, cs[1..], depth);
      IdsAppend(head, tail);
    }
  }

  /**
   * Every item of the listing `r` is an entry of `m` whose indentation is
   * `depth` plus its depth in the tree below `base`.
   */
  predicate IndentedBelow(m: Store, r: seq<(int, nat)>, base: int, depth: int)
    requires ValidStore(m) && base in m
  {
    forall i | 0 <= i < |r| ::
      r[i].0 in m && r[i].1 == depth + |PathNames(m, r[i].0)| - |PathNames(m, base)|
  }

  /** Every item of the listing of `id` is indented by its depth in the tree below `id`, plus `depth`. */
  lemma {:induction false} RecursiveListDepths(m: Store, id: int, depth: nat)
    requires ValidStore(m) && id in m
    ensures IndentedBelow(m, RecursiveList(m, id, depth), id, depth)
    decreases |Subtree(m, id)|, 0
  {
    assert NodeOk(m, id);
    SubtreeSize(m, id);
    var kids := if m[id].isDirectory then m[id].children else [];
    assert kids == m[id].children;
    var rest := ListChildren(m, id, kids, depth + 1);
    ListChildrenDepths(m, id, kids, depth + 1);
    assert IndentedBelow(m, rest, id, depth);
    var r := RecursiveList(m, id, depth);
    assert r == [(id, depth)] + rest;
    forall i | 0 <= i < |r|
      ensures r[i].0 in m && r[i].1 == depth + |PathNames(m, r[i].0)| - |PathNames(m, id)|
    {
      if i > 0 {
        assert r[i] == rest[i - 1];
      }
    }
  }

  /** The listings of children of `x` are indented one level less than their depth below `x`. */
  lemma {:induction false} ListChildrenDepths(m: Store, x: int, cs: seq<int>, depth: nat)
    requires ValidStore(m) && x in m
    requires forall c | c in cs :: c in m[x].children
    ensures IndentedBelow(m, ListChildren(m, x, cs, depth), x, depth - 1)
    decreases SizeSum(m, cs), 1
  {
    if cs != [] {
      var c := cs[0];
      ChildAbove(m, x, c);
      assert NodeOk(m, c);
      ForestCons(m, x, cs);
      assert |PathNames(m, c)| == |PathNames(m, x)| + 1;
      var head := RecursiveList(m, c, depth);
      var tail := ListChildren(m, x, cs[1..], depth);
      RecursiveListDepths(m, c, depth);
      ListChildrenDepths(m, x, cs[1..], depth);
      assert IndentedBelow(m, head, c, depth);
      assert IndentedBelow(m, tail, x, depth - 1);
      var r := ListChildren(m, x, cs, depth);
      assert r == head + tail;
      forall i | 0 <= i < |r|
        ensures r[i].0 in m && r[i].1 == depth - 1 + |PathNames(m, r[i].0)| - |PathNames(m, x)|
      {
        if i < |head| {
          assert r[i] == head[i];
        } else {
          assert r[i] == tail[i - |head|];
        }
      }
    }
  }
}
