/**
 * rm as its deletion loop is written: the child's position is erased from
 * the working directory's children first, and the erased position is read
 * afterwards to seed the deletion stack. With the usual vector layout that
 * position then holds the next sibling, or, when the removed child was the
 * last one, its old value. StoreOps.RemovedTree is the intended removal the
 * rest of the model uses; this module shows where the two part ways.
 */
module RmFinding {
  import opened INodeTree
  import opened StoreOps

  /** The id the deletion loop starts from: what sits at position `i` after the erase. */
  function StaleVictim(cs: seq<int>, i: nat): int
    requires i < |cs|
  {
    if i + 1 < |cs| then cs[i + 1] else cs[i]
  }

  /**
   * The store after rm as written: the child at position `i` of `p` is
   * unlinked, the subtree of the stale victim is erased, and `p` is stamped.
   */
  function RmAsWritten(m: Store, p: int, i: nat, now: int): Store
    requires ValidStore(m) && p in m && i < |m[p].children|
  {
    var v := StaleVictim(m[p].children, i);
    ParentOutsideSubtree(m, p, if i + 1 < |m[p].children| then i + 1 else i);
    Touched(Unlinked(m, p, i) - Subtree(m, v), p, now)
  }

  /** A child id at position `i` is not among the children left after erasing that position. */
  lemma ErasedGone(m: Store, p: int, i: nat)
    requires ValidStore(m) && p in m && i < |m[p].children|
    ensures m[p].children[i] !in EraseAt(m[p].children, i)
  {
    var cs := m[p].children;
    var ds := EraseAt(cs, i);
    forall j | 0 <= j < |ds|
      ensures ds[j] != cs[i]
    {
      if j < i {
        ChildrenDistinct(m, p, j, i);
      } else {
        ChildrenDistinct(m, p, i, j + 1);
      }
    }
  }

  /**
   * Whenever the removed child has a next sibling, rm as written leaves the
   * removed child in the store with a parent that no longer lists it, so
   * the store is no longer a tree, and the sibling is gone instead.
   */
  lemma RmAsWrittenOrphans(m: Store, p: int, i: nat, now: int)
    requires ValidStore(m) && p in m && i + 1 < |m[p].children|
    ensures var x := m[p].children[i];
      var r := RmAsWritten(m, p, i, now);
      && x in r && r[x].parent == p && x !in r[p].children
      && m[p].children[i + 1] !in r
      && !ValidStore(r)
  {
    var cs := m[p].children;
    var x := cs[i];
    var v := cs[i + 1];
    var r := RmAsWritten(m, p, i, now);
    assert NodeOk(m, p);
    assert x in cs && v in cs;
    assert NodeOk(m, x);
    ParentOutsideSubtree(m, p, i + 1);
    ChildrenDistinct(m, p, i, i + 1);
    OutsideSubtree(m, v, x);
    assert v in Subtree(m, v);
    ErasedGone(m, p, i);
    assert x in r && r[x] == m[x];
    assert !NodeOk(r, x);
  }

  /** When the removed child is the last one, the stale read sees it, and rm as written removes what was intended. */
  lemma RmAsWrittenLastAgrees(m: Store, p: int, i: nat, now: int)
    requires ValidStore(m) && p in m && i + 1 == |m[p].children|
    ensures RmAsWritten(m, p, i, now) == RemovedTree(m, p, i, now)
  {
  }

  /** The root holding the files "a" (id 1) and "b" (id 2), in that order. */
  function TwoFiles(): (m: Store)
    ensures ValidStore(m)
    ensures m.Keys == {RootId, 1, 2} && m[RootId].children == [1, 2]
    ensures m[1].name == "a" && m[2].name == "b"
    ensures Subtree(m, 1) == {1} && Subtree(m, 2) == {2}
  {
    var m := map[
      RootId := RootINode(0).(children := [1, 2]),
      1 := NewINode(1, "a", false, RootId, 0),
      2 := NewINode(2, "b", false, RootId, 0)];
    assert NodeOk(m, RootId) && NodeOk(m, 1) && NodeOk(m, 2);
    LeafSubtree(m, 1);
    LeafSubtree(m, 2);
    m
  }

  /**
   * Removing "a" from that root as written erases "b" and leaves "a"
   * stored but unlisted, so the store is no longer a tree.
   */
  lemma RmAsWrittenExample(now: int)
    ensures RmAsWritten(TwoFiles(), RootId, 0, now).Keys == {RootId, 1}
    ensures RmAsWritten(TwoFiles(), RootId, 0, now)[RootId].children == [2]
    ensures !ValidStore(RmAsWritten(TwoFiles(), RootId, 0, now))
  {
    var m := TwoFiles();
    RmAsWrittenOrphans(m, RootId, 0, now);
    assert EraseAt([1, 2], 0) == [2];
  }

  /** The intended removal of "a" from that root erases "a", keeps "b", and keeps a tree. */
  lemma RemovedTreeExample(now: int)
    ensures RemovedTree(TwoFiles(), RootId, 0, now).Keys == {RootId, 2}
    ensures RemovedTree(TwoFiles(), RootId, 0, now)[RootId].children == [2]
    ensures ValidStore(RemovedTree(TwoFiles(), RootId, 0, now))
  {
    var m := TwoFiles();
    RemovedTreeValid(m, RootId, 0, now);
    assert EraseAt([1, 2], 0) == [2];
  }
}
