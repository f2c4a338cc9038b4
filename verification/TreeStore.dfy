/** The node cache: how a map from ids to nodes represents a tree. */
module TreeStore {
  import opened Types
  import opened TreeModel
  import opened TreeSplit

  type Store = map<NodeId, SSTNode>

  // ----- ids -----

  /** How often an id occurs in a tree. */
  function Count(t: Tree, x: NodeId): nat
    decreases t, 1
  {
    (if t.node.id == x then 1 else 0) + CountKids(t.kids, x)
  }

  function CountKids(ks: seq<Tree>, x: NodeId): nat
    decreases ks, 0
  {
    if ks == [] then 0 else Count(ks[0], x) + CountKids(ks[1..], x)
  }

  ghost predicate Distinct(t: Tree) {
    forall x: NodeId :: Count(t, x) <= 1
  }

  lemma {:induction false} CountAppend(a: seq<Tree>, b: seq<Tree>, x: NodeId)
    ensures CountKids(a + b, x) == CountKids(a, x) + CountKids(b, x)
  {
    if a == [] {
      assert a + b == b;
    } else {
      CountAppend(a[1..], b, x);
      assert (a + b)[1..] == a[1..] + b;
    }
  }

  lemma CountAt(ks: seq<Tree>, i: nat, x: NodeId)
    requires i < |ks|
    ensures CountKids(ks, x) == CountKids(ks[..i], x) + Count(ks[i], x) + CountKids(ks[i + 1..], x)
  {
    assert ks == ks[..i] + ks[i..];
    CountAppend(ks[..i], ks[i..], x);
    assert ks[i..][1..] == ks[i + 1..];
  }

  lemma CountTwo(ks: seq<Tree>, i: nat, l: Tree, r: Tree, x: NodeId)
    requires i < |ks|
    ensures CountKids(Two(ks, i, l, r), x) == CountKids(ks, x) - Count(ks[i], x) + Count(l, x) + Count(r, x)
  {
    CountAt(ks, i, x);
    CountAppend(ks[..i], [l, r], x);
    CountAppend(ks[..i] + [l, r], ks[i + 1..], x);
    CountPair(l, r, x);
  }

  lemma CountPair(l: Tree, r: Tree, x: NodeId)
    ensures CountKids([l, r], x) == Count(l, x) + Count(r, x)
  {
    CountAppend([l], [r], x);
    assert [l] + [r] == [l, r];
    assert CountKids([l], x) == Count(l, x) + CountKids([], x);
    assert CountKids([r], x) == Count(r, x) + CountKids([], x);
  }

  lemma {:induction false} CountUpdate(t: Tree, p: Path, s: Tree, x: NodeId)
    requires ValidPath(t, p)
    ensures Count(Sub(t, p), x) <= Count(t, x)
    ensures Count(Update(t, p, s), x) == Count(t, x) - Count(Sub(t, p), x) + Count(s, x)
  {
    if p != [] {
      CountUpdate(t.kids[p[0]], p[1..], s, x);
      var c := Update(t.kids[p[0]], p[1..], s);
      var ks := t.kids[p[0] := c];
      CountAt(t.kids, p[0], x);
      CountAt(ks, p[0], x);
      assert ks[..p[0]] == t.kids[..p[0]] && ks[p[0] + 1..] == t.kids[p[0] + 1..];
    }
  }

  lemma CountKid(t: Tree, i: nat, x: NodeId)
    requires i < |t.kids|
    ensures Count(t.kids[i], x) <= CountKids(t.kids, x)
    ensures forall j :: 0 <= j < |t.kids| && j != i ==> Count(t.kids[i], x) + Count(t.kids[j], x) <= CountKids(t.kids, x)
  {
    CountAt(t.kids, i, x);
    forall j | 0 <= j < |t.kids| && j != i
      ensures Count(t.kids[i], x) + Count(t.kids[j], x) <= CountKids(t.kids, x)
    {
      if j < i {
        CountAt(t.kids[..i], j, x);
      } else {
        CountAt(t.kids[i + 1..], j - i - 1, x);
      }
    }
  }

  // ----- representation -----

  ghost predicate Rep(c: Store, t: Tree) {
    && t.node.id in c && c[t.node.id] == t.node
    && forall i :: 0 <= i < |t.kids| ==> Rep(c, t.kids[i])
  }

  /** `c` represents everything of `t` except the subtree at `p`. */
  ghost predicate RepHole(c: Store, t: Tree, p: Path)
    requires ValidPath(t, p)
  {
    p == [] || (
      && t.node.id in c && c[t.node.id] == t.node
      && (forall i :: 0 <= i < |t.kids| && i != p[0] ==> Rep(c, t.kids[i]))
      && RepHole(c, t.kids[p[0]], p[1..]))
  }

  lemma {:induction false} RepFrame(c: Store, d: Store, t: Tree)
    requires Rep(c, t)
    requires forall x :: x in c && Count(t, x) > 0 ==> x in d && d[x] == c[x]
    ensures Rep(d, t)
  {
    assert Count(t, t.node.id) > 0;
    forall i | 0 <= i < |t.kids| ensures Rep(d, t.kids[i]) {
      forall x | x in c && Count(t.kids[i], x) > 0 ensures x in d && d[x] == c[x] {
        CountKid(t, i, x);
      }
      RepFrame(c, d, t.kids[i]);
    }
  }

  lemma {:induction false} RepHas(c: Store, t: Tree, x: NodeId)
    requires Rep(c, t) && Count(t, x) > 0
    ensures x in c
    decreases t, 1
  {
    if t.node.id != x { KidsHave(c, t.kids, x); }
  }

  lemma {:induction false} KidsHave(c: Store, ks: seq<Tree>, x: NodeId)
    requires (forall i :: 0 <= i < |ks| ==> Rep(c, ks[i])) && CountKids(ks, x) > 0
    ensures x in c
    decreases ks, 0
  {
    if Count(ks[0], x) > 0 { RepHas(c, ks[0], x); } else { KidsHave(c, ks[1..], x); }
  }

  lemma {:induction false} RepOpen(c: Store, t: Tree, p: Path)
    requires Rep(c, t) && ValidPath(t, p)
    ensures RepHole(c, t, p) && Rep(c, Sub(t, p))
  {
    if p != [] { RepOpen(c, t.kids[p[0]], p[1..]); }
  }

  /** Filling the hole with any represented subtree gives a represented tree. */
  lemma {:induction false} RepFill(c: Store, t: Tree, p: Path, s: Tree)
    requires ValidPath(t, p) && RepHole(c, t, p) && Rep(c, s)
    ensures Rep(c, Update(t, p, s))
  {
    if p != [] { RepFill(c, t.kids[p[0]], p[1..], s); }
  }

  lemma {:induction false} RepHoleFrame(c: Store, d: Store, t: Tree, p: Path)
    requires ValidPath(t, p) && RepHole(c, t, p)
    requires forall x :: x in c && Count(t, x) > Count(Sub(t, p), x) ==> x in d && d[x] == c[x]
    ensures RepHole(d, t, p)
  {
    if p != [] {
      var i := p[0];
      forall x ensures Count(Sub(t, p), x) <= Count(t.kids[i], x) <= CountKids(t.kids, x) {
        CountUpdate(t.kids[i], p[1..], t, x);
        CountKid(t, i, x);
      }
      forall j | 0 <= j < |t.kids| && j != i ensures Rep(d, t.kids[j]) {
        forall x | x in c && Count(t.kids[j], x) > 0 ensures x in d && d[x] == c[x] {
          CountKid(t, i, x);
        }
        RepFrame(c, d, t.kids[j]);
      }
      RepHoleFrame(c, d, t.kids[i], p[1..]);
    }
  }

  /** Widening the hole from a child to its parent; the parent and its other children were represented. */
  lemma {:induction false} RepHoleParent(c: Store, t: Tree, p: Path)
    requires p != [] && ValidPath(t, p) && RepHole(c, t, p)
    ensures ValidPath(t, Parent(p)) && RepHole(c, t, Parent(p))
    ensures var q := Sub(t, Parent(p));
            q.node.id in c && c[q.node.id] == q.node && Last(p) < |q.kids|
            && forall i :: 0 <= i < |q.kids| && i != Last(p) ==> Rep(c, q.kids[i])
  {
    if |p| > 1 {
      RepHoleParent(c, t.kids[p[0]], p[1..]);
      assert Parent(p)[1..] == Parent(p[1..]);
    }
  }

  /** Every id in the tree has a position. */
  lemma {:induction false} Locate(t: Tree, x: NodeId) returns (p: Path)
    requires Count(t, x) > 0
    ensures ValidPath(t, p) && Sub(t, p).node.id == x
    decreases t, 1
  {
    if t.node.id == x {
      p := [];
    } else {
      var i, q := LocateKid(t.kids, x);
      p := [i] + q;
    }
  }

  lemma {:induction false} LocateKid(ks: seq<Tree>, x: NodeId) returns (i: nat, p: Path)
    requires CountKids(ks, x) > 0
    ensures i < |ks| && ValidPath(ks[i], p) && Sub(ks[i], p).node.id == x
    decreases ks, 0
  {
    if Count(ks[0], x) > 0 {
      i := 0;
      p := Locate(ks[0], x);
    } else {
      i, p := LocateKid(ks[1..], x);
      i := i + 1;
    }
  }

  // ----- one representation, one tree -----

  /** Child ids agree with the children throughout. */
  ghost predicate Linked(t: Tree) {
    t.node.childIds == KidIds(t.kids) && forall i :: 0 <= i < |t.kids| ==> Linked(t.kids[i])
  }

  lemma {:induction false} GoodLinked(t: Tree)
    requires Good(t) || RootOk(t)
    ensures Linked(t)
  {
    forall i | 0 <= i < |t.kids| ensures Linked(t.kids[i]) { GoodLinked(t.kids[i]); }
  }

  lemma {:induction false} SubLinked(t: Tree, p: Path)
    requires Linked(t) && ValidPath(t, p)
    ensures Linked(Sub(t, p))
  {
    if p != [] { SubLinked(t.kids[p[0]], p[1..]); }
  }

  lemma {:induction false} RepUnique(c: Store, t: Tree, u: Tree)
    requires Rep(c, t) && Rep(c, u) && Linked(t) && Linked(u) && t.node.id == u.node.id
    ensures t == u
  {
    assert |t.kids| == |u.kids|;
    forall i | 0 <= i < |t.kids| ensures t.kids[i] == u.kids[i] {
      assert KidIds(t.kids)[i] == KidIds(u.kids)[i];
      RepUnique(c, t.kids[i], u.kids[i]);
    }
  }

  /** The cache holds exactly the nodes of a well-formed tree, under distinct ids below `next`. */
  ghost predicate Holds(c: Store, t: Tree, next: NodeId) {
    && RootOk(t) && Rep(c, t) && Distinct(t)
    && (forall x: NodeId :: x in c <==> Count(t, x) > 0)
    && (forall x :: x in c ==> x < next)
  }

  lemma HoldsParts(c: Store, t: Tree, next: NodeId)
    requires Holds(c, t, next)
    ensures RootOk(t) && Rep(c, t) && Distinct(t) && forall x :: x in c ==> x < next
  {
  }

  lemma EmptyTree(id: NodeId)
    ensures var n := SSTNode(id, 0, [], [], [], []);
            Holds(map[id := n], Tree(n, []), id + 1) && E(Tree(n, [])) == [] && VersionOrder(Tree(n, []))
  {
    var n := SSTNode(id, 0, [], [], [], []);
    assert forall x: NodeId :: Count(Tree(n, []), x) == if x == id then 1 else 0;
  }

  lemma SubDistinct(t: Tree, p: Path)
    requires Distinct(t) && ValidPath(t, p)
    ensures Distinct(Sub(t, p)) && forall x: NodeId :: Count(Sub(t, p), x) <= Count(t, x)
  {
    forall x: NodeId ensures Count(Sub(t, p), x) <= Count(t, x) <= 1 { CountUpdate(t, p, t, x); }
  }
}
