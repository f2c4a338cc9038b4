/** What a split and its upward cascade do to the node cache. */
module SplitStore {
  import opened Types
  import opened Entries
  import opened TreeModel
  import opened TreeSplit
  import opened TreeStore

  /** How often an id occurs once `l` and `r` stand in for the subtree at `p`. */
  ghost function Total(t: Tree, p: Path, l: Tree, r: Tree, x: NodeId): int
    requires ValidPath(t, p)
  {
    Count(t, x) - Count(Sub(t, p), x) + Count(l, x) + Count(r, x)
  }

  /**
   * The state in which `insert_child` is called: the subtree at `p` is gone from the cache, its two
   * halves are in it, and the parent still points at the old child.
   */
  ghost predicate Splitting(c: Store, t: Tree, p: Path, l: Tree, r: Tree, next: NodeId) {
    && RootOk(t) && Distinct(t) && ValidPath(t, p) && RepHole(c, t, p)
    && Rep(c, l) && Rep(c, r) && SplitOf(Sub(t, p), l, r)
    && (forall x: NodeId :: Total(t, p, l, r, x) <= 1 && (x in c <==> Total(t, p, l, r, x) > 0))
    && (forall x :: x in c ==> x < next)
  }

  /** The cache once a node has been replaced by two new ones. */
  function Replaced(c: Store, x: NodeId, l: SSTNode, r: SSTNode): Store {
    (c - {x})[l.id := l][r.id := r]
  }

  // ----- starting a split -----

  lemma LeafStart(c: Store, t: Tree, p: Path, next: NodeId)
    requires Holds(c, t, next) && ValidPath(t, p) && Sub(t, p).kids == [] && Sub(t, p).node.level == 0
    requires CleanCut(StableSort(Sub(t, p).node.buffer))
    ensures var leaf := Sub(t, p);
            var l, r := LeftLeaf(leaf, next), RightLeaf(leaf, next);
            Splitting(Replaced(c, leaf.node.id, l.node, r.node), t, p, l, r, next + 2)
  {
    var leaf := Sub(t, p);
    LeafSplitOk(leaf, next);
    LeafIds(leaf, next);
    StartSplit(c, t, p, LeftLeaf(leaf, next), RightLeaf(leaf, next), next);
  }

  lemma StartSplit(c: Store, t: Tree, p: Path, l: Tree, r: Tree, next: NodeId)
    requires Holds(c, t, next) && ValidPath(t, p) && Sub(t, p).kids == [] && SplitOf(Sub(t, p), l, r)
    requires l.kids == [] && r.kids == [] && l.node.id == next && r.node.id == next + 1
    ensures Splitting(Replaced(c, Sub(t, p).node.id, l.node, r.node), t, p, l, r, next + 2)
  {
    hide RootOk;
    hide SplitOf;
    RepOpen(c, t, p);
    var d := Replaced(c, Sub(t, p).node.id, l.node, r.node);
    forall x: NodeId ensures Total(t, p, l, r, x) <= 1 && (x in d <==> Total(t, p, l, r, x) > 0)
                     ensures x in c && Count(t, x) > Count(Sub(t, p), x) ==> x in d && d[x] == c[x] {
      LeafTotal(c, t, p, l, r, next, x);
    }
    RepHoleFrame(c, d, t, p);
  }

  lemma LeafTotal(c: Store, t: Tree, p: Path, l: Tree, r: Tree, next: NodeId, x: NodeId)
    requires Holds(c, t, next) && ValidPath(t, p) && Sub(t, p).kids == [] && l.kids == [] && r.kids == []
    requires l.node.id == next && r.node.id == next + 1
    ensures Total(t, p, l, r, x) == if x == Sub(t, p).node.id then 0 else if x == next || x == next + 1 then 1 else if x in c then 1 else 0
    ensures Sub(t, p).node.id < next && (x in c && Count(t, x) > Count(Sub(t, p), x) ==> x != Sub(t, p).node.id && x < next)
  {
    hide RootOk;
    var y := Sub(t, p).node.id;
    CountUpdate(t, p, t, x);
    CountUpdate(t, p, t, y);
    assert Count(t, x) <= 1 && Count(t, y) <= 1 && Count(Sub(t, p), y) == 1;
    assert y in c && next !in c && next + 1 !in c;
  }

  lemma LeafIds(leaf: Tree, next: NodeId)
    ensures LeftLeaf(leaf, next).node.id == next && LeftLeaf(leaf, next).kids == []
    ensures RightLeaf(leaf, next).node.id == next + 1 && RightLeaf(leaf, next).kids == []
  {
    hide SortBuffer;
    hide StableSort;
  }

  // ----- the parent has room -----

  lemma AdoptIds(q: Tree, i: nat, l: Tree, r: Tree)
    requires i < |q.kids|
    ensures Adopt(q, i, l, r).node.id == q.node.id && Adopt(q, i, l, r).kids == Two(q.kids, i, l, r)
  {
    hide SortBuffer;
  }

  lemma AdoptHolds(c: Store, t: Tree, p: Path, l: Tree, r: Tree, next: NodeId)
    requires Splitting(c, t, p, l, r, next) && p != [] && ValidPath(t, Parent(p))
    requires Last(p) < |Sub(t, Parent(p)).kids| < MAX_FANOUT && Sub(t, Parent(p)).kids[Last(p)] == Sub(t, p)
    ensures var q := Sub(t, Parent(p));
            var a := Adopt(q, Last(p), l, r);
            && q.node.id in c && c[q.node.id] == q.node
            && Holds(c[q.node.id := a.node], Update(t, Parent(p), a), next)
  {
    hide Adopt;
    hide RootOk;
    hide SplitOf;
    var q, i := Sub(t, Parent(p)), Last(p);
    var a := Adopt(q, i, l, r);
    var d, u := c[q.node.id := a.node], Update(t, Parent(p), a);
    AdoptIds(q, i, l, r);
    RepHoleParent(c, t, p);
    AdoptStep(t, p, l, r);
    forall x: NodeId ensures Count(u, x) == Total(t, p, l, r, x) {
      CountUpdate(t, Parent(p), a, x);
      CountTwo(q.kids, i, l, r, x);
    }
    assert Count(q, q.node.id) >= 1;
    AdoptRep(c, t, p, l, r, next);
  }

  lemma AdoptRep(c: Store, t: Tree, p: Path, l: Tree, r: Tree, next: NodeId)
    requires Splitting(c, t, p, l, r, next) && p != [] && ValidPath(t, Parent(p))
    requires Last(p) < |Sub(t, Parent(p)).kids| && Sub(t, Parent(p)).kids[Last(p)] == Sub(t, p)
    ensures var q := Sub(t, Parent(p));
            var a := Adopt(q, Last(p), l, r);
            Rep(c[q.node.id := a.node], Update(t, Parent(p), a))
  {
    hide Adopt;
    hide RootOk;
    hide SplitOf;
    var q, i := Sub(t, Parent(p)), Last(p);
    var a := Adopt(q, i, l, r);
    var d := c[q.node.id := a.node];
    AdoptIds(q, i, l, r);
    RepHoleParent(c, t, p);
    ParentIdOnce(c, t, p, l, r, next);
    forall x | x in c && Count(t, x) > Count(q, x) ensures x in d && d[x] == c[x] {
      assert Count(q, q.node.id) >= 1 && Count(t, q.node.id) <= 1;
    }
    RepHoleFrame(c, d, t, Parent(p));
    TwoRep(c, d, q, i, l, r);
    RepFill(d, t, Parent(p), a);
  }

  /** Changing the cache at the parent's id alone leaves both halves and the other children represented. */
  lemma TwoRep(c: Store, d: Store, q: Tree, i: nat, l: Tree, r: Tree)
    requires i < |q.kids| && Rep(c, l) && Rep(c, r) && forall j :: 0 <= j < |q.kids| && j != i ==> Rep(c, q.kids[j])
    requires forall x :: x in c && x != q.node.id ==> x in d && d[x] == c[x]
    requires Count(l, q.node.id) == 0 && Count(r, q.node.id) == 0 && CountKids(q.kids, q.node.id) == 0
    ensures forall j :: 0 <= j < |q.kids| + 1 ==> Rep(d, Two(q.kids, i, l, r)[j])
  {
    RepFrame(c, d, l);
    RepFrame(c, d, r);
    forall j | 0 <= j < |q.kids| && j != i ensures Rep(d, q.kids[j]) {
      CountKid(q, j, q.node.id);
      RepFrame(c, d, q.kids[j]);
    }
    var ks := Two(q.kids, i, l, r);
    forall j | 0 <= j < |ks| ensures Rep(d, ks[j]) {
      assert ks[j] == if j < i then q.kids[j] else if j == i then l else if j == i + 1 then r else q.kids[j - 1];
    }
  }

  /** The parent's id occurs at the parent only: not below it, and not in the two halves. */
  lemma ParentIdOnce(c: Store, t: Tree, p: Path, l: Tree, r: Tree, next: NodeId)
    requires Splitting(c, t, p, l, r, next) && p != [] && ValidPath(t, Parent(p))
    requires Last(p) < |Sub(t, Parent(p)).kids| && Sub(t, Parent(p)).kids[Last(p)] == Sub(t, p)
    ensures var q := Sub(t, Parent(p));
            Count(l, q.node.id) == 0 && Count(r, q.node.id) == 0 && CountKids(q.kids, q.node.id) == 0
            && Count(Sub(t, p), q.node.id) == 0
  {
    hide RootOk;
    hide SplitOf;
    var q := Sub(t, Parent(p));
    var x := q.node.id;
    CountUpdate(t, Parent(p), t, x);
    CountKid(q, Last(p), x);
    assert Count(t, x) <= 1 && Total(t, p, l, r, x) <= 1;
  }

  // ----- the parent is full -----

  lemma HalfIds(q: Tree, i: nat, l: Tree, r: Tree, next: NodeId)
    requires i < |q.kids|
    ensures var a, b := LeftHalf(q, i, l, r, next), RightHalf(q, i, l, r, next);
            && a.node.id == next && b.node.id == next + 1 && a.kids + b.kids == Two(q.kids, i, l, r)
            && a.kids != [] && b.kids != []
  {
    hide SortBuffer;
    hide KeysBelow;
    hide KeysFrom;
  }

  lemma HalfCount(q: Tree, i: nat, l: Tree, r: Tree, next: NodeId, x: NodeId)
    requires i < |q.kids|
    ensures Count(LeftHalf(q, i, l, r, next), x) + Count(RightHalf(q, i, l, r, next), x)
            == CountKids(q.kids, x) - Count(q.kids[i], x) + Count(l, x) + Count(r, x)
               + (if x == next || x == next + 1 then 1 else 0)
  {
    HalfIds(q, i, l, r, next);
    hide LeftHalf;
    hide RightHalf;
    var a, b := LeftHalf(q, i, l, r, next), RightHalf(q, i, l, r, next);
    CountAppend(a.kids, b.kids, x);
    CountTwo(q.kids, i, l, r, x);
  }

  lemma CascadeStep(c: Store, t: Tree, p: Path, l: Tree, r: Tree, next: NodeId)
    requires Splitting(c, t, p, l, r, next) && p != [] && ValidPath(t, Parent(p))
    requires Last(p) < |Sub(t, Parent(p)).kids| == MAX_FANOUT && Sub(t, Parent(p)).kids[Last(p)] == Sub(t, p)
    ensures var q := Sub(t, Parent(p));
            var a, b := LeftHalf(q, Last(p), l, r, next), RightHalf(q, Last(p), l, r, next);
            && q.node.id in c && c[q.node.id] == q.node
            && Splitting(Replaced(c, q.node.id, a.node, b.node), t, Parent(p), a, b, next + 2)
  {
    hide LeftHalf;
    hide RightHalf;
    hide SplitOf;
    var q, i := Sub(t, Parent(p)), Last(p);
    var a, b := LeftHalf(q, i, l, r, next), RightHalf(q, i, l, r, next);
    var d := Replaced(c, q.node.id, a.node, b.node);
    HalfIds(q, i, l, r, next);
    RepHoleParent(c, t, p);
    CascadeSplit(t, p, l, r, next);
    CascadeRep(c, t, p, l, r, next);
    forall x: NodeId ensures Total(t, Parent(p), a, b, x) <= 1 && (x in d <==> Total(t, Parent(p), a, b, x) > 0) {
      CascadeTotal(c, t, p, l, r, next, x);
    }
  }

  lemma CascadeTotal(c: Store, t: Tree, p: Path, l: Tree, r: Tree, next: NodeId, x: NodeId)
    requires Splitting(c, t, p, l, r, next) && p != [] && ValidPath(t, Parent(p))
    requires Last(p) < |Sub(t, Parent(p)).kids| && Sub(t, Parent(p)).kids[Last(p)] == Sub(t, p)
    ensures var q := Sub(t, Parent(p));
            var a, b := LeftHalf(q, Last(p), l, r, next), RightHalf(q, Last(p), l, r, next);
            Total(t, Parent(p), a, b, x) == if x == q.node.id then 0 else if x == next || x == next + 1 then 1 else if x in c then 1 else 0
    ensures Sub(t, Parent(p)).node.id < next
  {
    hide LeftHalf;
    hide RightHalf;
    hide SplitOf;
    hide RootOk;
    var q := Sub(t, Parent(p));
    HalfCount(q, Last(p), l, r, next, x);
    ParentIdOnce(c, t, p, l, r, next);
    CountUpdate(t, p, t, x);
    CountUpdate(t, Parent(p), t, q.node.id);
    assert Count(t, q.node.id) <= 1 && Count(q, q.node.id) >= 1;
    assert Total(t, p, l, r, x) <= 1 && Total(t, p, l, r, q.node.id) == 1;
    assert next !in c && next + 1 !in c;
  }

  lemma CascadeSplit(t: Tree, p: Path, l: Tree, r: Tree, next: NodeId)
    requires RootOk(t) && p != [] && ValidPath(t, p) && ValidPath(t, Parent(p)) && SplitOf(Sub(t, p), l, r)
    requires Last(p) < |Sub(t, Parent(p)).kids| == MAX_FANOUT && Sub(t, Parent(p)).kids[Last(p)] == Sub(t, p)
    ensures var q := Sub(t, Parent(p));
            SplitOf(q, LeftHalf(q, Last(p), l, r, next), RightHalf(q, Last(p), l, r, next))
  {
    hide LeftHalf;
    hide RightHalf;
    hide SplitOf;
    if Parent(p) != [] { SubGood(t, Parent(p)); }
    ParentSplitOk(Sub(t, Parent(p)), Last(p), l, r, next);
  }

  lemma CascadeRep(c: Store, t: Tree, p: Path, l: Tree, r: Tree, next: NodeId)
    requires Splitting(c, t, p, l, r, next) && p != [] && ValidPath(t, Parent(p))
    requires Last(p) < |Sub(t, Parent(p)).kids| && Sub(t, Parent(p)).kids[Last(p)] == Sub(t, p)
    ensures var q := Sub(t, Parent(p));
            var a, b := LeftHalf(q, Last(p), l, r, next), RightHalf(q, Last(p), l, r, next);
            var d := Replaced(c, q.node.id, a.node, b.node);
            RepHole(d, t, Parent(p)) && Rep(d, a) && Rep(d, b)
  {
    hide LeftHalf;
    hide RightHalf;
    hide SplitOf;
    hide RootOk;
    var q, i := Sub(t, Parent(p)), Last(p);
    var a, b := LeftHalf(q, i, l, r, next), RightHalf(q, i, l, r, next);
    var d := Replaced(c, q.node.id, a.node, b.node);
    HalfIds(q, i, l, r, next);
    RepHoleParent(c, t, p);
    ParentIdOnce(c, t, p, l, r, next);
    forall x | x in c && Count(t, x) > Count(q, x) ensures x in d && d[x] == c[x] {
      assert Count(q, q.node.id) >= 1 && Count(t, q.node.id) <= 1;
    }
    RepHoleFrame(c, d, t, Parent(p));
    TwoRep(c, d, q, i, l, r);
    HalvesRep(d, a, b, Two(q.kids, i, l, r));
  }

  lemma HalvesRep(d: Store, a: Tree, b: Tree, ks: seq<Tree>)
    requires a.kids + b.kids == ks && forall j :: 0 <= j < |ks| ==> Rep(d, ks[j])
    requires a.node.id in d && d[a.node.id] == a.node && b.node.id in d && d[b.node.id] == b.node
    ensures Rep(d, a) && Rep(d, b)
  {
    forall j | 0 <= j < |a.kids| ensures Rep(d, a.kids[j]) { assert a.kids[j] == ks[j]; }
    forall j | 0 <= j < |b.kids| ensures Rep(d, b.kids[j]) { assert b.kids[j] == ks[|a.kids| + j]; }
  }

  // ----- a new root -----

  lemma NewRootIds(l: Tree, r: Tree, next: NodeId)
    ensures NewRoot(l, r, next).node.id == next && NewRoot(l, r, next).kids == [l, r]
  {
    hide SortBuffer;
  }

  lemma NewRootHolds(c: Store, t: Tree, l: Tree, r: Tree, next: NodeId)
    requires Splitting(c, t, [], l, r, next)
    ensures Holds(c[next := NewRoot(l, r, next).node], NewRoot(l, r, next), next + 1)
  {
    var u := NewRoot(l, r, next);
    NewRootOk(t, l, r, next);
    NewRootIds(l, r, next);
    hide NewRoot;
    hide RootOk;
    hide SplitOf;
    var d := c[next := u.node];
    forall x: NodeId ensures Count(u, x) <= 1 && (x in d <==> Count(u, x) > 0) {
      CountPair(l, r, x);
      assert Total(t, [], l, r, x) <= 1;
    }
    RepFrame(c, d, l);
    RepFrame(c, d, r);
  }

  // ----- what insert_child reads from the cache -----

  /** The parent's children once the two halves are in: all of them are cached. */
  lemma KidsCached(c: Store, t: Tree, p: Path, l: Tree, r: Tree, next: NodeId, j: nat)
    requires Splitting(c, t, p, l, r, next) && p != [] && ValidPath(t, Parent(p))
    requires Last(p) < |Sub(t, Parent(p)).kids| && j < |Sub(t, Parent(p)).kids| + 1
    ensures var n := Two(Sub(t, Parent(p)).kids, Last(p), l, r)[j].node;
            n.id in c && c[n.id] == n
  {
    hide RootOk;
    hide SplitOf;
    hide Distinct;
    RepHoleParent(c, t, p);
    var q, i := Sub(t, Parent(p)), Last(p);
    var ks := Two(q.kids, i, l, r);
    assert ks[j] == if j < i then q.kids[j] else if j == i then l else if j == i + 1 then r else q.kids[j - 1];
  }

  lemma TwoIds(q: Tree, i: nat, l: Tree, r: Tree)
    requires i < |q.kids|
    ensures KidIds(Two(q.kids, i, l, r)) == KidIds(q.kids)[..i] + [l.node.id, r.node.id] + KidIds(q.kids)[i + 1..]
  {
  }

  lemma ParentShape(t: Tree, p: Path)
    requires RootOk(t) && p != [] && ValidPath(t, p)
    ensures ValidPath(t, Parent(p)) && Last(p) < |Sub(t, Parent(p)).kids| <= MAX_FANOUT
    ensures Sub(t, Parent(p)).kids[Last(p)] == Sub(t, p)
    ensures Sub(t, Parent(p)).node.childIds == KidIds(Sub(t, Parent(p)).kids) && Sub(t, Parent(p)).node.level > 0
    ensures Sub(t, p).node.level == Sub(t, Parent(p)).node.level - 1
  {
    ParentPath(t, p);
    if Parent(p) != [] { SubGood(t, Parent(p)); }
  }

  /** An id in a list without repetitions is found at one place only. */
  lemma KidIndex(t: Tree, p: Path)
    requires RootOk(t) && Distinct(t) && p != [] && ValidPath(t, p)
    ensures ValidPath(t, Parent(p)) && Last(p) < |Sub(t, Parent(p)).kids|
    ensures var ids := KidIds(Sub(t, Parent(p)).kids);
            ids[Last(p)] == Sub(t, p).node.id && forall j :: 0 <= j < |ids| && ids[j] == Sub(t, p).node.id ==> j == Last(p)
  {
    hide RootOk;
    ParentShape(t, p);
    SubDistinct(t, Parent(p));
    var q := Sub(t, Parent(p));
    forall j | 0 <= j < |q.kids| && j != Last(p) ensures q.kids[j].node.id != Sub(t, p).node.id {
      var x := q.kids[j].node.id;
      CountKid(q, j, x);
      assert Count(q, x) <= 1 && Count(q.kids[j], x) >= 1;
      assert Count(q.kids[j], x) + Count(q.kids[Last(p)], x) <= CountKids(q.kids, x);
    }
  }

  /** The parent itself is cached, below the bound, and everything above it is in place. */
  lemma ParentCached(c: Store, t: Tree, p: Path, l: Tree, r: Tree, next: NodeId)
    requires Splitting(c, t, p, l, r, next) && p != []
    ensures ValidPath(t, p) && ValidPath(t, Parent(p)) && Last(p) < |Sub(t, Parent(p)).kids| && Sub(t, Parent(p)).kids[Last(p)] == Sub(t, p)
    ensures var n := Sub(t, Parent(p)).node; n.id in c && c[n.id] == n && n.id < next
    ensures RepHole(c, t, Parent(p)) && Linked(t) && Distinct(t)
    ensures forall x :: x in c ==> x < next
  {
    hide SplitOf;
    GoodLinked(t);
    hide RootOk;
    ParentShape(t, p);
    RepHoleParent(c, t, p);
  }

  /** Everything `insert_child` reads: the parent, the old child's slot, and the children it ends up with. */
  lemma ParentView(c: Store, t: Tree, p: Path, l: Tree, r: Tree, next: NodeId)
    requires Splitting(c, t, p, l, r, next) && p != []
    ensures ValidPath(t, p) && ValidPath(t, Parent(p)) && Last(p) < |Sub(t, Parent(p)).kids| <= MAX_FANOUT
    ensures var q, i := Sub(t, Parent(p)), Last(p);
            var ids, ks := KidIds(q.kids), Two(q.kids, Last(p), l, r);
            && q.kids[i] == Sub(t, p) && q.node.id in c && c[q.node.id] == q.node && q.node.childIds == ids
            && ids[i] == Sub(t, p).node.id && (forall j :: 0 <= j < |ids| && ids[j] == Sub(t, p).node.id ==> j == i)
            && KidIds(ks) == ids[..i] + [l.node.id, r.node.id] + ids[i + 1..]
            && (forall j :: 0 <= j < |ks| ==> KidIds(ks)[j] in c && c[KidIds(ks)[j]] == ks[j].node)
    ensures RepHole(c, t, Parent(p)) && Linked(t) && Distinct(t) && Sub(t, Parent(p)).node.id < next
    ensures forall x :: x in c ==> x < next
  {
    hide SplitOf;
    GoodLinked(t);
    hide RootOk;
    hide Rep;
    hide Two;
    hide Total;
    ParentShape(t, p);
    KidIndex(t, p);
    RepHoleParent(c, t, p);
    var q := Sub(t, Parent(p));
    TwoIds(q, Last(p), l, r);
    SlotsCached(c, t, p, l, r, next);
  }

  lemma SlotsCached(c: Store, t: Tree, p: Path, l: Tree, r: Tree, next: NodeId)
    requires Splitting(c, t, p, l, r, next) && p != [] && ValidPath(t, Parent(p)) && Last(p) < |Sub(t, Parent(p)).kids|
    ensures var ks := Two(Sub(t, Parent(p)).kids, Last(p), l, r);
            forall j :: 0 <= j < |ks| ==> KidIds(ks)[j] in c && c[KidIds(ks)[j]] == ks[j].node
  {
    hide Splitting;
    var ks := Two(Sub(t, Parent(p)).kids, Last(p), l, r);
    forall j | 0 <= j < |ks| ensures KidIds(ks)[j] in c && c[KidIds(ks)[j]] == ks[j].node {
      KidsCached(c, t, p, l, r, next, j);
    }
  }

  lemma HalvesCached(c: Store, t: Tree, p: Path, l: Tree, r: Tree, next: NodeId)
    requires Splitting(c, t, p, l, r, next)
    ensures ValidPath(t, p) && l.node.id in c && c[l.node.id] == l.node && r.node.id in c && c[r.node.id] == r.node
    ensures l.node.level == r.node.level == Sub(t, p).node.level && next !in c
  {
    hide RootOk;
    hide RepHole;
  }

  lemma AdoptEmpty(q: Tree, i: nat, l: Tree, r: Tree)
    requires i < |q.kids| && q.node.buffer == []
    ensures Adopt(q, i, l, r).node.buffer == []
  {
    SortBufferOfStrict([]);
  }

  lemma AdoptRootId(t: Tree, p: Path, l: Tree, r: Tree)
    requires p != [] && ValidPath(t, Parent(p)) && Last(p) < |Sub(t, Parent(p)).kids|
    ensures Update(t, Parent(p), Adopt(Sub(t, Parent(p)), Last(p), l, r)).node.id == t.node.id
  {
    hide Adopt;
    AdoptIds(Sub(t, Parent(p)), Last(p), l, r);
  }

  /** The files and the cache, swapped in their own order, end up equal. */
  lemma ReplacedLast(c: Store, live: Store, x: NodeId, l: SSTNode, r: SSTNode)
    requires l.id != x && r.id != x && x in c && live[x := c[x]] == c
    ensures c[l.id := l][r.id := r] - {x} == Replaced(c, x, l, r) == (live - {x})[l.id := l][r.id := r]
  {
    assert live - {x} == c - {x};
  }

  lemma AdoptNode(q: Tree, i: nat, l: Tree, r: Tree)
    requires i < |q.kids|
    ensures var ks := Two(q.kids, i, l, r);
            Adopt(q, i, l, r).node == FlushToDisk(q.node.(childIds := KidIds(ks),
                                        minKey := ks[0].node.minKey, maxKey := ks[|ks| - 1].node.maxKey))
  {
    hide FlushToDisk;
  }

  lemma HalfNode(id: NodeId, level: nat, buffer: seq<Entry>, ks: seq<Tree>)
    requires ks != []
    ensures Half(id, level, buffer, ks).node == FlushToDisk(Create(id, level, buffer, KidIds(ks)).(
                                                   minKey := ks[0].node.minKey, maxKey := ks[|ks| - 1].node.maxKey))
  {
    hide FlushToDisk;
    hide Create;
  }

  lemma HalfNodes(q: Tree, i: nat, l: Tree, r: Tree, next: NodeId)
    requires i < |q.kids|
    ensures var ks := Two(q.kids, i, l, r);
            var h, m := |ks| / 2, ks[|ks| / 2].node.minKey;
            && LeftHalf(q, i, l, r, next).node == FlushToDisk(Create(next, q.node.level, KeysBelow(q.node.buffer, m), KidIds(ks)[..h]).(
                                                    minKey := ks[0].node.minKey, maxKey := ks[h - 1].node.maxKey))
            && RightHalf(q, i, l, r, next).node == FlushToDisk(Create(next + 1, q.node.level, KeysFrom(q.node.buffer, m), KidIds(ks)[h..]).(
                                                     minKey := ks[h].node.minKey, maxKey := ks[|ks| - 1].node.maxKey))
  {
    hide FlushToDisk;
    hide Create;
    hide KeysBelow;
    hide KeysFrom;
    var ks := Two(q.kids, i, l, r);
    var h := |ks| / 2;
    assert KidIds(ks[..h]) == KidIds(ks)[..h] && KidIds(ks[h..]) == KidIds(ks)[h..];
    HalfNode(next, q.node.level, KeysBelow(q.node.buffer, ks[h].node.minKey), ks[..h]);
    HalfNode(next + 1, q.node.level, KeysFrom(q.node.buffer, ks[h].node.minKey), ks[h..]);
  }

  lemma NewRootNode(l: Tree, r: Tree, next: NodeId)
    ensures NewRoot(l, r, next).node == FlushToDisk(Create(next, l.node.level + 1, [], [l.node.id, r.node.id]).(
                                          minKey := l.node.minKey, maxKey := r.node.maxKey))
  {
    hide FlushToDisk;
    hide Create;
    assert KidIds([l, r]) == [l.node.id, r.node.id];
  }

  // ----- the path that path_to returns -----

  function IdsAlong(t: Tree, q: Path): (r: seq<NodeId>)
    requires ValidPath(t, q)
    ensures |r| == |q| + 1
  {
    [t.node.id] + if q == [] then [] else IdsAlong(t.kids[q[0]], q[1..])
  }

  lemma {:induction false} SecondLast(t: Tree, q: Path)
    requires q != [] && ValidPath(t, q) && ValidPath(t, Parent(q))
    ensures IdsAlong(t, q)[|q| - 1] == Sub(t, Parent(q)).node.id
  {
    if |q| > 1 {
      assert Parent(q)[1..] == Parent(q[1..]);
      SecondLast(t.kids[q[0]], q[1..]);
    }
  }

  /** In a tree with distinct ids the target's id is at the target only. */
  lemma OnlyAtTarget(t: Tree, q: Path, target: NodeId)
    requires Distinct(t) && ValidPath(t, q) && Sub(t, q).node.id == target
    ensures t.node.id == target <==> q == []
    ensures q != [] ==> forall j :: 0 <= j < |t.kids| && j != q[0] ==> Count(t.kids[j], target) == 0
  {
    if q != [] {
      CountUpdate(t.kids[q[0]], q[1..], t, target);
      CountKid(t, q[0], target);
      assert Count(Sub(t, q), target) >= 1 && Count(t, target) <= 1;
    }
  }

  lemma KidDistinct(t: Tree, i: nat)
    requires Distinct(t) && i < |t.kids|
    ensures Distinct(t.kids[i])
  {
    forall x: NodeId ensures Count(t.kids[i], x) <= 1 {
      CountKid(t, i, x);
      assert Count(t, x) <= 1;
    }
  }

  // ----- what a split leaves alone -----

  /** Cached nodes outside the listed ids are untouched, ids that enter the cache are fresh, empty buffers stay empty. */
  ghost predicate KeptBut(c: Store, d: Store, ids: seq<NodeId>, next: NodeId) {
    && (forall x :: x in c && x !in ids ==> x in d && d[x] == c[x])
    && (forall x :: x in d ==> x in c || x >= next)
    && (forall x :: x in c && x in d && c[x].buffer == [] ==> d[x].buffer == [])
  }

  lemma {:induction false} AlongParent(t: Tree, p: Path)
    requires p != [] && ValidPath(t, p) && ValidPath(t, Parent(p))
    ensures IdsAlong(t, p) == IdsAlong(t, Parent(p)) + [Sub(t, p).node.id]
    ensures Sub(t, Parent(p)).node.id in IdsAlong(t, Parent(p))
  {
    if |p| > 1 {
      assert Parent(p)[1..] == Parent(p[1..]);
      AlongParent(t.kids[p[0]], p[1..]);
    }
  }

  lemma KeptOne(c: Store, d: Store, t: Tree, p: Path, n: SSTNode, next: NodeId)
    requires p != [] && ValidPath(t, p) && ValidPath(t, Parent(p))
    requires Sub(t, Parent(p)).node.id in c && d == c[Sub(t, Parent(p)).node.id := n]
    requires c[Sub(t, Parent(p)).node.id].buffer == [] ==> n.buffer == []
    ensures KeptBut(c, d, IdsAlong(t, p), next)
  {
    AlongParent(t, p);
  }

  lemma KeptReplaced(c: Store, d: Store, t: Tree, p: Path, a: SSTNode, b: SSTNode, next: NodeId)
    requires ValidPath(t, p) && Sub(t, p).node.id in c && a.id !in c && b.id !in c && a.id >= next && b.id >= next
    requires d == Replaced(c, Sub(t, p).node.id, a, b)
    ensures KeptBut(c, d, IdsAlong(t, p), next) && Sub(t, p).node.id !in d
  {
    AlongEnds(t, p);
  }

  lemma KeptTrans(c: Store, d: Store, e: Store, t: Tree, p: Path, next: NodeId, mid: NodeId)
    requires p != [] && ValidPath(t, p) && ValidPath(t, Parent(p)) && next <= mid
    requires KeptBut(c, d, IdsAlong(t, Parent(p)), next) && KeptBut(d, e, IdsAlong(t, Parent(p)), mid)
    requires forall x :: x in c ==> x < next
    ensures KeptBut(c, e, IdsAlong(t, p), next)
    ensures forall x :: x !in d && x < mid ==> x !in e
  {
    AlongParent(t, p);
  }

  lemma {:induction false} AlongEnds(t: Tree, p: Path)
    requires ValidPath(t, p)
    ensures Sub(t, p).node.id in IdsAlong(t, p)
  {
    if p != [] { AlongEnds(t.kids[p[0]], p[1..]); }
  }

  lemma LeafCached(c: Store, t: Tree, p: Path, next: NodeId)
    requires Holds(c, t, next) && ValidPath(t, p)
    ensures var n := Sub(t, p).node; n.id in c && c[n.id] == n && n.id < next
  {
    hide RootOk;
    RepOpen(c, t, p);
  }

  lemma KeptChain(c: Store, d: Store, e: Store, ids: seq<NodeId>, next: NodeId, mid: NodeId)
    requires KeptBut(c, d, ids, next) && KeptBut(d, e, ids, mid) && next <= mid && forall x :: x in c ==> x < next
    ensures KeptBut(c, e, ids, next)
  {
  }
}
