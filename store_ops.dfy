/**
 * What each mutator of SimpleFileSystem does to the inode store, as pure
 * functions of the old store, and the facts that make them safe: every one
 * keeps the tree invariant ValidStore, and touches only the entries the
 * source touches.
 */
module StoreOps {
  import opened Wrappers
  import opened INodeTree

  // ---------------------------------------------------------------------
  // Helpers about sibling names and ids

  /** Every id in a valid store is non-negative, and every non-root id is positive. */
  lemma IdsNonNegative(m: Store, k: int)
    requires ValidStore(m) && k in m
    ensures k >= 0 && (k != RootId ==> k > 0)
  {
    assert NodeOk(m, k);
  }

  /** Distinct names among stored siblings survive a store change that keeps those names. */
  lemma UniqueNamesKept(m: Store, r: Store, cs: seq<int>)
    requires UniqueNames(m, cs)
    requires forall i | 0 <= i < |cs| :: cs[i] in m && cs[i] in r && r[cs[i]].name == m[cs[i]].name
    ensures UniqueNames(r, cs)
  {
  }

  /** Appending an entry whose name differs from every sibling's keeps sibling names distinct. */
  lemma UniqueNamesAppend(m: Store, cs: seq<int>, c: int)
    requires UniqueNames(m, cs) && c in m
    requires forall i | 0 <= i < |cs| && cs[i] in m :: m[cs[i]].name != m[c].name
    ensures UniqueNames(m, cs + [c])
  {
    var ds := cs + [c];
    forall i, j | 0 <= i < j < |ds| && ds[i] in m && ds[j] in m
      ensures m[ds[i]].name != m[ds[j]].name
    {
      if j < |cs| {
        assert ds[i] == cs[i] && ds[j] == cs[j];
      } else {
        assert ds[i] == cs[i] && ds[j] == c;
      }
    }
  }

  /** The children sequence with the entry at position `i` erased. */
  function EraseAt(cs: seq<int>, i: nat): (r: seq<int>)
    requires i < |cs|
    ensures |r| == |cs| - 1
    ensures forall j | 0 <= j < |r| :: r[j] == if j < i then cs[j] else cs[j + 1]
  {
    cs[..i] + cs[i + 1..]
  }

  /** Erasing one sibling keeps the remaining names distinct. */
  lemma UniqueNamesErase(m: Store, cs: seq<int>, i: nat)
    requires UniqueNames(m, cs) && i < |cs|
    ensures UniqueNames(m, EraseAt(cs, i))
  {
    var ds := EraseAt(cs, i);
    forall a, b | 0 <= a < b < |ds| && ds[a] in m && ds[b] in m
      ensures m[ds[a]].name != m[ds[b]].name
    {
      var a' := if a < i then a else a + 1;
      var b' := if b < i then b else b + 1;
      assert ds[a] == cs[a'] && ds[b] == cs[b'] && a' < b';
    }
  }

  /** An id other than the erased one that occurs in `cs` still occurs after the erase. */
  lemma EraseKeeps(cs: seq<int>, i: nat, k: int)
    requires i < |cs| && k in cs && k != cs[i]
    ensures k in EraseAt(cs, i)
  {
    var j :| 0 <= j < |cs| && cs[j] == k;
    var ds := EraseAt(cs, i);
    if j < i {
      assert ds[j] == k;
    } else {
      assert ds[j - 1] == k;
    }
  }

  // ---------------------------------------------------------------------
  // Stamping an entry: updateModificationTime (main.cpp:192-194)

  /** The store with entry `k` stamped with modification time `now`. */
  function Touched(m: Store, k: int, now: int): Store
    requires k in m
  {
    m[k := m[k].(modificationTime := now)]
  }

  /**
   * Replacing an entry by one with the same id, name, kind, children and
   * parent (a new modification time, permissions or size) keeps the store
   * valid and changes no other entry.
   */
  lemma ReplaceSameShape(m: Store, k: int, n: INode)
    requires ValidStore(m) && k in m
    requires n.id == m[k].id && n.name == m[k].name && n.isDirectory == m[k].isDirectory
    requires n.children == m[k].children && n.parent == m[k].parent
    ensures ValidStore(m[k := n])
    ensures m[k := n].Keys == m.Keys
  {
    var r := m[k := n];
    forall j | j in r
      ensures NodeOk(r, j)
    {
      assert NodeOk(m, j);
      if j != RootId {
        assert r[m[j].parent].children == m[m[j].parent].children;
      }
      assert forall c | c in r[j].children :: c in m && r[c].parent == m[c].parent;
      UniqueNamesKept(m, r, m[j].children);
    }
  }

  /** Stamping an entry keeps the store valid; only that entry's modification time changes. */
  lemma TouchedValid(m: Store, k: int, now: int)
    requires ValidStore(m) && k in m
    ensures ValidStore(Touched(m, k, now))
    ensures Touched(m, k, now).Keys == m.Keys
    ensures Touched(m, k, now)[k].modificationTime == now
    ensures forall j | j in m && j != k :: Touched(m, k, now)[j] == m[j]
  {
    ReplaceSameShape(m, k, m[k].(modificationTime := now));
  }

  // ---------------------------------------------------------------------
  // Creating an entry: mkdir and touch (main.cpp:207-219, 234-246)

  /** The store with the new entry `n` listed last among p's children and stored, then p stamped. */
  function AddChild(m: Store, p: int, n: INode, now: int): Store
    requires p in m
  {
    Touched(m[p := m[p].(children := m[p].children + [n.id])][n.id := n], p, now)
  }

  /**
   * Adding a fresh entry (an id above every stored id, no children, parent
   * `p`, a name no child of `p` has) under a directory `p` keeps the store
   * valid. The store grows by exactly that entry, p's children gain it at
   * the end, and every other entry is unchanged.
   */
  lemma AddChildValid(m: Store, p: int, n: INode, now: int)
    requires ValidStore(m) && p in m && m[p].isDirectory
    requires forall k | k in m :: k < n.id
    requires n.parent == p && n.children == []
    requires FirstMatch(m, m[p].children, n.name, false).None?
    ensures ValidStore(AddChild(m, p, n, now))
    ensures AddChild(m, p, n, now).Keys == m.Keys + {n.id}
    ensures |AddChild(m, p, n, now)| == |m| + 1
    ensures AddChild(m, p, n, now)[n.id] == n
    ensures AddChild(m, p, n, now)[p] == m[p].(children := m[p].children + [n.id], modificationTime := now)
    ensures forall k | k in m && k != p :: AddChild(m, p, n, now)[k] == m[k]
  {
    NoMatchFreshName(m, p, n.name);
    var r := AddChild(m, p, n, now);
    assert n.id !in m;
    forall k | k in r
      ensures NodeOk(r, k)
    {
      AddChildNodeOk(m, p, n, now, k);
    }
  }

  /** One entry of the store after AddChild satisfies the entry invariant. */
  lemma AddChildNodeOk(m: Store, p: int, n: INode, now: int, k: int)
    requires ValidStore(m) && p in m && m[p].isDirectory
    requires forall k | k in m :: k < n.id
    requires n.parent == p && n.children == []
    requires forall c | c in m[p].children && c in m :: m[c].name != n.name
    requires k in AddChild(m, p, n, now)
    ensures NodeOk(AddChild(m, p, n, now), k)
  {
    var id := n.id;
    var r := AddChild(m, p, n, now);
    assert id !in m;
    if k == id {
      IdsNonNegative(m, p);
      assert RootId in m;
      assert UniqueNames(r, []);
    } else {
      assert NodeOk(m, k);
      assert forall c | c in m[k].children :: c in m && c != id && r[c].parent == m[c].parent;
      assert forall c | c in m :: r[c].name == m[c].name;
      UniqueNamesKept(m, r, m[k].children);
      if k == p {
        assert forall c | c in m[p].children && c in r :: r[c].name != r[id].name;
        UniqueNamesAppend(r, m[p].children, id);
      }
      if k != RootId {
        var q := m[k].parent;
        assert k in r[q].children;
      }
    }
  }

  /**
   * After adding, a lookup by the new name in p's children finds the new
   * entry at the end; so creating the same name again is refused.
   */
  lemma AddChildFound(m: Store, p: int, n: INode, now: int)
    requires ValidStore(m) && p in m && m[p].isDirectory
    requires forall k | k in m :: k < n.id
    requires n.parent == p && n.children == []
    requires FirstMatch(m, m[p].children, n.name, false).None?
    ensures var r := AddChild(m, p, n, now);
      FirstMatch(r, r[p].children, n.name, false) == Some(|m[p].children|)
  {
    AddChildValid(m, p, n, now);
    var r := AddChild(m, p, n, now);
    assert r[p].children[|m[p].children|] == n.id;
    FirstMatchUnique(r, p, n.name, |m[p].children|);
  }

  // ---------------------------------------------------------------------
  // Renaming: mv (main.cpp:376-378)

  /** The store with entry `x` renamed to `name` and stamped, then `p` stamped. */
  function Renamed(m: Store, p: int, x: int, name: string, now: int): Store
    requires p in m && x in m
  {
    Touched(m[x := m[x].(name := name, modificationTime := now)], p, now)
  }

  /**
   * Renaming the child `x` of `p` to a name no child of `p` has keeps the
   * store valid; only x's name and time and p's time change.
   */
  lemma RenamedValid(m: Store, p: int, x: int, name: string, now: int)
    requires ValidStore(m) && p in m && x in m[p].children
    requires FirstMatch(m, m[p].children, name, false).None?
    ensures x in m && ValidStore(Renamed(m, p, x, name, now))
    ensures Renamed(m, p, x, name, now).Keys == m.Keys
    ensures Renamed(m, p, x, name, now)[x] == m[x].(name := name, modificationTime := now)
    ensures Renamed(m, p, x, name, now)[p] == m[p].(modificationTime := now)
    ensures forall k | k in m && k != p && k != x :: Renamed(m, p, x, name, now)[k] == m[k]
  {
    ChildAbove(m, p, x);
    var r := m[x := m[x].(name := name, modificationTime := now)];
    forall k | k in r
      ensures NodeOk(r, k)
    {
      RenamedNodeOk(m, p, x, r[x], k);
    }
    TouchedValid(r, p, now);
  }

  /** One entry of the store after renaming the child `x` of `p` to `n.name` satisfies the entry invariant. */
  lemma RenamedNodeOk(m: Store, p: int, x: int, n: INode, k: int)
    requires ValidStore(m) && p in m && x in m[p].children
    requires FirstMatch(m, m[p].children, n.name, false).None?
    requires x in m && n == m[x].(name := n.name, modificationTime := n.modificationTime)
    requires k in m
    ensures NodeOk(m[x := n], k)
  {
    NoMatchFreshName(m, p, n.name);
    ChildAbove(m, p, x);
    var r := m[x := n];
    assert NodeOk(m, k);
    var cs := m[k].children;
    assert forall c | c in cs :: c in m && r[c].parent == m[c].parent;
    if k == p {
      forall i, j | 0 <= i < j < |cs| && cs[i] in r && cs[j] in r
        ensures r[cs[i]].name != r[cs[j]].name
      {
        assert cs[i] in cs && cs[j] in cs;
        ChildrenDistinct(m, p, i, j);
      }
    } else {
      assert forall c | c in cs :: c != x by {
        forall c | c in cs
          ensures c != x
        {
          assert m[c].parent == k;
        }
      }
      UniqueNamesKept(m, r, cs);
    }
    if k != RootId {
      assert k in r[m[k].parent].children;
    }
  }

  /**
   * Renaming a child back is allowed (its old name is free again) and
   * restores the store except for the two stamps: the child's and p's
   * modification times.
   */
  lemma RenameBack(m: Store, p: int, x: int, name: string, t1: int, t2: int)
    requires ValidStore(m) && p in m && x in m[p].children
    requires FirstMatch(m, m[p].children, name, false).None?
    ensures x in m && x != p
    ensures var r := Renamed(m, p, x, name, t1);
      && FirstMatch(r, r[p].children, m[x].name, false).None?
      && Renamed(r, p, x, m[x].name, t2) == Touched(Touched(m, x, t2), p, t2)
  {
    ChildAbove(m, p, x);
    RenamedValid(m, p, x, name, t1);
    var r := Renamed(m, p, x, name, t1);
    var cs := m[p].children;
    assert NodeOk(m, p);
    var ix :| 0 <= ix < |cs| && cs[ix] == x;
    assert !Matches(m, cs[ix], name, false);
    forall j | 0 <= j < |cs|
      ensures !Matches(r, cs[j], m[x].name, false)
    {
      if cs[j] != x {
        assert cs[j] in cs;
        assert m[cs[j]].parent == p;
        if j < ix {
          ChildrenDistinct(m, p, j, ix);
        } else {
          ChildrenDistinct(m, p, ix, j);
        }
      }
    }
    var l := Renamed(r, p, x, m[x].name, t2);
    var e := Touched(Touched(m, x, t2), p, t2);
    assert l.Keys == e.Keys;
    assert forall k | k in l :: l[k] == e[k];
  }

  // ---------------------------------------------------------------------
  // Removing: rm (main.cpp:321-360)

  /** The store with the entry at position `i` erased from p's children. */
  function Unlinked(m: Store, p: int, i: nat): Store
    requires p in m && i < |m[p].children|
  {
    m[p := m[p].(children := EraseAt(m[p].children, i))]
  }

  /**
   * The store after a removal: the child at position `i` of `p` unlinked
   * from p's children, it and every entry below it erased, and `p` stamped.
   */
  function RemovedTree(m: Store, p: int, i: nat, now: int): Store
    requires ValidStore(m) && p in m && i < |m[p].children|
  {
    ParentOutsideSubtree(m, p, i);
    Touched(Unlinked(m, p, i) - Subtree(m, m[p].children[i]), p, now)
  }

  /** A directory is not inside the subtree of any of its children. */
  lemma ParentOutsideSubtree(m: Store, p: int, i: nat)
    requires ValidStore(m) && p in m && i < |m[p].children|
    ensures m[p].children[i] in m && p !in Subtree(m, m[p].children[i])
  {
    var x := m[p].children[i];
    ChildAbove(m, p, x);
    if p in Subtree(m, x) {
      SubtreeAbove(m, x, p);
    }
  }

  /** An entry whose parent is outside the subtree of `x` is either `x` or outside it too. */
  lemma OutsideSubtree(m: Store, x: int, k: int)
    requires k in m && 0 <= m[k].parent < k && !InSubtree(m, x, m[k].parent)
    ensures InSubtree(m, x, k) <==> k == x
  {
  }

  /**
   * Removing the child at position `i` of `p` keeps the store valid. Exactly
   * the entries of that child's subtree leave the store, so it shrinks by
   * the subtree's size; p loses that one child and gets the new time, and
   * every other remaining entry is unchanged.
   */
  lemma RemovedTreeValid(m: Store, p: int, i: nat, now: int)
    requires ValidStore(m) && p in m && i < |m[p].children|
    ensures var x := m[p].children[i];
      && x in m
      && ValidStore(RemovedTree(m, p, i, now))
      && RemovedTree(m, p, i, now).Keys == m.Keys - Subtree(m, x)
      && |RemovedTree(m, p, i, now)| == |m| - |Subtree(m, x)|
      && RemovedTree(m, p, i, now)[p] ==
           m[p].(children := EraseAt(m[p].children, i), modificationTime := now)
      && forall k | k in m && k !in Subtree(m, x) && k != p :: RemovedTree(m, p, i, now)[k] == m[k]
  {
    var x := m[p].children[i];
    var s := Subtree(m, x);
    ParentOutsideSubtree(m, p, i);
    ChildAbove(m, p, x);
    var u := Unlinked(m, p, i) - s;
    assert u.Keys == m.Keys - s;
    forall k | k in u
      ensures NodeOk(u, k)
    {
      RemovedNodeOk(m, p, i, k);
    }
    TouchedValid(u, p, now);
    assert |u.Keys| == |m.Keys| - |s|;
  }

  /**
   * Removing a file or an empty directory takes exactly that one entry out
   * of the store and out of p's children.
   */
  lemma RemovedLeaf(m: Store, p: int, i: nat, now: int)
    requires ValidStore(m) && p in m && i < |m[p].children|
    requires var x := m[p].children[i]; x in m && (!m[x].isDirectory || m[x].children == [])
    ensures var x := m[p].children[i];
      && RemovedTree(m, p, i, now).Keys == m.Keys - {x}
      && |RemovedTree(m, p, i, now)| == |m| - 1
  {
    RemovedTreeValid(m, p, i, now);
    LeafSubtree(m, m[p].children[i]);
  }

  /** One entry left after unlinking and erasing a subtree satisfies the entry invariant. */
  lemma RemovedNodeOk(m: Store, p: int, i: nat, k: int)
    requires ValidStore(m) && p in m && i < |m[p].children|
    requires k in Unlinked(m, p, i) - Subtree(m, m[p].children[i])
    ensures NodeOk(Unlinked(m, p, i) - Subtree(m, m[p].children[i]), k)
  {
    var x := m[p].children[i];
    var s := Subtree(m, x);
    var u := Unlinked(m, p, i) - s;
    ChildAbove(m, p, x);
    assert NodeOk(m, k);
    assert k != x;
    var cs := u[k].children;
    if k != RootId {
      var q := m[k].parent;
      assert q in u by {
        if q in s {
          assert InSubtree(m, x, k);
        }
      }
      if q == p {
        assert k in m[p].children;
        EraseKeeps(m[p].children, i, k);
      }
    }
    forall c | c in cs
      ensures c != RootId && c in u && u[c].parent == k
    {
      ChildStays(m, p, i, k, c);
    }
    if k == p {
      assert cs == EraseAt(m[p].children, i);
      UniqueNamesErase(m, m[p].children, i);
    } else {
      assert cs == m[k].children;
    }
    assert forall j | 0 <= j < |cs| :: cs[j] in cs;
    assert forall c | c in u :: u[c].name == m[c].name;
    UniqueNamesKept(m, u, cs);
  }

  /** A child of a remaining entry is not in the erased subtree. */
  lemma ChildStays(m: Store, p: int, i: nat, k: int, c: int)
    requires ValidStore(m) && p in m && i < |m[p].children|
    requires k in m && k !in Subtree(m, m[p].children[i])
    requires c in (if k == p then EraseAt(m[p].children, i) else m[k].children)
    ensures c in m && c != RootId && m[c].parent == k && c !in Subtree(m, m[p].children[i])
  {
    var x := m[p].children[i];
    assert NodeOk(m, k);
    var cs := m[k].children;
    if k == p {
      var ds := EraseAt(cs, i);
      var j :| 0 <= j < |ds| && ds[j] == c;
      var j' := if j < i then j else j + 1;
      assert cs[j'] == c;
      if j' < i {
        ChildrenDistinct(m, p, j', i);
      } else {
        ChildrenDistinct(m, p, i, j');
      }
      assert c in cs;
    }
    assert m[c].parent == k;
    assert NodeOk(m, c);
    assert !InSubtree(m, x, k);
    if c in Subtree(m, x) {
      OutsideSubtree(m, x, c);
      ChildAbove(m, p, x);
    }
  }

  /** A file or an empty directory is its own whole subtree, so rm erases that one entry. */
  lemma LeafSubtree(m: Store, x: int)
    requires ValidStore(m) && x in m
    requires !m[x].isDirectory || m[x].children == []
    ensures Subtree(m, x) == {x}
  {
    assert NodeOk(m, x);
    Decompose(m, x);
  }
}
