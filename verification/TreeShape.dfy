/** Shape of the tree: levels, the in-order leaf sequence, and the number of leaves. */
module TreeShape {
  import opened Types
  import opened Entries
  import opened TreeModel
  import opened TreeSplit

  // ----- levels -----

  /** A child's level is its parent's minus one, so a node's level fixes its depth. */
  lemma {:induction false} LevelIsDepth(t: Tree, p: Path)
    requires (RootOk(t) || Good(t)) && ValidPath(t, p)
    ensures Sub(t, p).node.level + |p| == t.node.level
    ensures Sub(t, p).kids == [] <==> |p| == t.node.level
  {
    if p != [] {
      LevelIsDepth(t.kids[p[0]], p[1..]);
    }
  }

  // ----- leaves -----

  function Leaves(t: Tree): seq<Tree>
    decreases t, 1
  {
    if t.kids == [] then [t] else LeavesOf(t.kids)
  }

  function LeavesOf(ks: seq<Tree>): seq<Tree>
    decreases ks, 0
  {
    if ks == [] then [] else Leaves(ks[0]) + LeavesOf(ks[1..])
  }

  /** The leaves strictly left and strictly right of the subtree at `p`. */
  function LeavesLeft(t: Tree, p: Path): seq<Tree>
    requires ValidPath(t, p)
  {
    if p == [] then [] else LeavesOf(t.kids[..p[0]]) + LeavesLeft(t.kids[p[0]], p[1..])
  }

  function LeavesRight(t: Tree, p: Path): seq<Tree>
    requires ValidPath(t, p)
  {
    if p == [] then [] else LeavesRight(t.kids[p[0]], p[1..]) + LeavesOf(t.kids[p[0] + 1..])
  }

  lemma {:induction false} LeavesAppend(a: seq<Tree>, b: seq<Tree>)
    ensures LeavesOf(a + b) == LeavesOf(a) + LeavesOf(b)
  {
    if a == [] {
      assert a + b == b;
    } else {
      hide Leaves;
      LeavesAppend(a[1..], b);
      assert (a + b)[0] == a[0] && (a + b)[1..] == a[1..] + b;
      Assoc(Leaves(a[0]), LeavesOf(a[1..]), LeavesOf(b));
    }
  }

  lemma LeavesAt(ks: seq<Tree>, i: nat)
    requires i < |ks|
    ensures LeavesOf(ks) == LeavesOf(ks[..i]) + Leaves(ks[i]) + LeavesOf(ks[i + 1..])
  {
    hide Leaves;
    assert ks == ks[..i] + ks[i..];
    LeavesAppend(ks[..i], ks[i..]);
    assert ks[i..][0] == ks[i] && ks[i..][1..] == ks[i + 1..];
    Assoc(LeavesOf(ks[..i]), Leaves(ks[i]), LeavesOf(ks[i + 1..]));
  }

  lemma LeavesTwo(ks: seq<Tree>, i: nat, l: Tree, r: Tree)
    requires i < |ks|
    ensures LeavesOf(Two(ks, i, l, r)) == LeavesOf(ks[..i]) + (Leaves(l) + Leaves(r)) + LeavesOf(ks[i + 1..])
  {
    LeavesAppend(ks[..i], [l, r]);
    LeavesAppend(ks[..i] + [l, r], ks[i + 1..]);
    LeavesPair(l, r);
  }

  lemma LeavesPair(l: Tree, r: Tree)
    ensures LeavesOf([l, r]) == Leaves(l) + Leaves(r)
  {
    LeavesAppend([l], [r]);
    assert [l] + [r] == [l, r];
    assert LeavesOf([l]) == Leaves(l) + LeavesOf([]);
    assert LeavesOf([r]) == Leaves(r) + LeavesOf([]);
  }

  lemma {:induction false} UpdateLeaves(t: Tree, p: Path, s: Tree)
    requires ValidPath(t, p)
    ensures Leaves(Update(t, p, s)) == LeavesLeft(t, p) + Leaves(s) + LeavesRight(t, p)
  {
    if p != [] {
      var c := Update(t.kids[p[0]], p[1..], s);
      var ks := t.kids[p[0] := c];
      UpdateLeaves(t.kids[p[0]], p[1..], s);
      LeavesAt(ks, p[0]);
      assert ks[..p[0]] == t.kids[..p[0]] && ks[p[0] + 1..] == t.kids[p[0] + 1..];
      Regroup(LeavesOf(ks[..p[0]]), LeavesLeft(t.kids[p[0]], p[1..]), Leaves(s),
              LeavesRight(t.kids[p[0]], p[1..]), LeavesOf(ks[p[0] + 1..]));
    }
  }

  lemma Regroup<T>(a: seq<T>, b: seq<T>, c: seq<T>, d: seq<T>, e: seq<T>)
    ensures a + (b + c + d) + e == (a + b) + c + (d + e)
  {
  }

  lemma {:induction false} LeavesLeftOf(t: Tree, p: Path)
    requires p != [] && ValidPath(t, p) && ValidPath(t, Parent(p)) && Last(p) < |Sub(t, Parent(p)).kids|
    ensures LeavesLeft(t, p) == LeavesLeft(t, Parent(p)) + LeavesOf(Sub(t, Parent(p)).kids[..Last(p)])
  {
    if |p| == 1 {
      assert p[1..] == [] && Parent(p) == [];
    } else {
      var c, q := t.kids[p[0]], p[1..];
      assert Parent(p)[1..] == Parent(q) && Parent(p)[0] == p[0] && Last(p) == Last(q);
      LeavesLeftOf(c, q);
      Assoc(LeavesOf(t.kids[..p[0]]), LeavesLeft(c, Parent(q)), LeavesOf(Sub(c, Parent(q)).kids[..Last(q)]));
    }
  }

  lemma {:induction false} LeavesRightOf(t: Tree, p: Path)
    requires p != [] && ValidPath(t, p) && ValidPath(t, Parent(p)) && Last(p) < |Sub(t, Parent(p)).kids|
    ensures LeavesRight(t, p) == LeavesOf(Sub(t, Parent(p)).kids[Last(p) + 1..]) + LeavesRight(t, Parent(p))
  {
    if |p| == 1 {
      assert p[1..] == [] && Parent(p) == [];
    } else {
      var c, q := t.kids[p[0]], p[1..];
      assert Parent(p)[1..] == Parent(q) && Parent(p)[0] == p[0] && Last(p) == Last(q);
      LeavesRightOf(c, q);
      Assoc(LeavesOf(Sub(c, Parent(q)).kids[Last(q) + 1..]), LeavesRight(c, Parent(q)), LeavesOf(t.kids[p[0] + 1..]));
    }
  }

  /**
   * Net effect of `insert_child` on the leaf sequence: the replaced subtree's leaves give way to
   * the left half's then the right half's, and all other leaves keep their order, however far the
   * split climbs.
   */
  lemma {:induction false} InsertAtLeaves(t: Tree, p: Path, l: Tree, r: Tree, next: NodeId)
    requires ValidPath(t, p)
    ensures Leaves(InsertAt(t, p, l, r, next).0) == LeavesLeft(t, p) + (Leaves(l) + Leaves(r)) + LeavesRight(t, p)
    decreases |p|
  {
    if p == [] {
      LeavesPair(l, r);
    } else {
      ParentPath(t, p);
      var q, i := Sub(t, Parent(p)), Last(p);
      ReplacedLeaves(t, p, l, r);
      if |q.kids| < MAX_FANOUT {
        UpdateLeaves(t, Parent(p), Adopt(q, i, l, r));
      } else {
        HalfLeaves(q.node, Two(q.kids, i, l, r), next);
        InsertAtLeaves(t, Parent(p), LeftHalf(q, i, l, r, next), RightHalf(q, i, l, r, next), next + 2);
      }
    }
  }

  lemma ReplacedLeaves(t: Tree, p: Path, l: Tree, r: Tree)
    requires p != [] && ValidPath(t, p) && ValidPath(t, Parent(p)) && Last(p) < |Sub(t, Parent(p)).kids|
    ensures LeavesLeft(t, Parent(p)) + LeavesOf(Two(Sub(t, Parent(p)).kids, Last(p), l, r)) + LeavesRight(t, Parent(p))
            == LeavesLeft(t, p) + (Leaves(l) + Leaves(r)) + LeavesRight(t, p)
  {
    var ks, i := Sub(t, Parent(p)).kids, Last(p);
    LeavesLeftOf(t, p);
    LeavesRightOf(t, p);
    LeavesTwo(ks, i, l, r);
    Regroup(LeavesLeft(t, Parent(p)), LeavesOf(ks[..i]), Leaves(l) + Leaves(r),
            LeavesOf(ks[i + 1..]), LeavesRight(t, Parent(p)));
  }

  lemma HalfLeaves(n: SSTNode, ks: seq<Tree>, next: NodeId)
    requires |ks| >= 2
    ensures Leaves(LeftOf(n, ks, next)) + Leaves(RightOf(n, ks, next)) == LeavesOf(ks)
  {
    var h := |ks| / 2;
    assert ks == ks[..h] + ks[h..];
    LeavesAppend(ks[..h], ks[h..]);
  }

  /** Splitting a leaf replaces that leaf by its two halves and leaves the rest alone. */
  lemma SplitLeafLeaves(t: Tree, p: Path, next: NodeId)
    requires ValidPath(t, p) && Sub(t, p).kids == []
    ensures Leaves(t) == LeavesLeft(t, p) + [Sub(t, p)] + LeavesRight(t, p)
    ensures var l, r := LeftLeaf(Sub(t, p), next), RightLeaf(Sub(t, p), next);
            Leaves(InsertAt(t, p, l, r, next + 2).0) == LeavesLeft(t, p) + [l, r] + LeavesRight(t, p)
  {
    var leaf := Sub(t, p);
    UpdateLeaves(t, p, leaf);
    UpdateSelf(t, p);
    var l, r := LeftLeaf(leaf, next), RightLeaf(leaf, next);
    InsertAtLeaves(t, p, l, r, next + 2);
    assert Leaves(l) + Leaves(r) == [l, r];
  }

  lemma {:induction false} UpdateSelf(t: Tree, p: Path)
    requires ValidPath(t, p)
    ensures Update(t, p, Sub(t, p)) == t
  {
    if p != [] {
      UpdateSelf(t.kids[p[0]], p[1..]);
      assert t.kids[p[0] := t.kids[p[0]]] == t.kids;
    }
  }

  // ----- height -----

  function Pow8(n: nat): nat {
    if n == 0 then 1 else 8 * Pow8(n - 1)
  }

  lemma {:induction false} SubtreeLeafCount(t: Tree)
    requires Good(t)
    ensures |Leaves(t)| >= Pow8(t.node.level)
    decreases t, 1
  {
    if t.kids != [] {
      KidsLeafCount(t.kids, t.node.level - 1);
      assert |t.kids| * Pow8(t.node.level - 1) >= 8 * Pow8(t.node.level - 1);
    }
  }

  lemma {:induction false} KidsLeafCount(ks: seq<Tree>, level: nat)
    requires forall i :: 0 <= i < |ks| ==> Good(ks[i]) && ks[i].node.level == level
    ensures |LeavesOf(ks)| >= |ks| * Pow8(level)
    decreases ks, 0
  {
    if ks != [] {
      SubtreeLeafCount(ks[0]);
      KidsLeafCount(ks[1..], level);
      assert |ks| * Pow8(level) == Pow8(level) + |ks[1..]| * Pow8(level);
    }
  }

  lemma AtLeastTwice(n: nat, p: nat)
    requires n >= 2
    ensures n * p >= 2 * p
  {
  }

  lemma RootLeaves(t: Tree)
    requires t.kids != []
    ensures Leaves(t) == LeavesOf(t.kids)
  {
  }

  /** A root at level h >= 1 has at least 2 * 8^(h-1) leaves, so the height is logarithmic. */
  lemma RootLeafCount(t: Tree)
    requires RootOk(t) && t.node.level >= 1
    ensures |Leaves(t)| >= 2 * Pow8(t.node.level - 1)
  {
    hide Good;
    hide Leaves;
    hide Pow8;
    KidsLeafCount(t.kids, t.node.level - 1);
    AtLeastTwice(|t.kids|, Pow8(t.node.level - 1));
    RootLeaves(t);
  }
}
