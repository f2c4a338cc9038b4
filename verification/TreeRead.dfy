/** The read path: the nodes that find_path visits, and the lookups of get along them. */
module TreeRead {
  import opened Types
  import opened Entries
  import opened TreeModel
  import opened TreeSplit
  import opened TreeStore
  import opened SplitStore

  /** The way down that `find_path` takes. */
  function RoutePath(t: Tree, k: Key): (q: Path)
    ensures ValidPath(t, q)
  {
    var r := ScanUp(KidMins(t.kids), k, 0);
    if r < |t.kids| then [r] + RoutePath(t.kids[r], k) else []
  }

  /** The lookups of `get`, node after node. */
  function FirstHit(c: Store, ids: seq<NodeId>, k: Key): Option<Entry>
    requires forall x :: x in ids ==> x in c
  {
    if ids == [] then None
    else
      var hit := NodeGet(c[ids[0]].buffer, k);
      if hit.Some? then hit else FirstHit(c, ids[1..], k)
  }

  /** The nodes on the path are cached, and the first hit on it is what `Lookup` finds. */
  lemma {:induction false} LookupAlong(c: Store, t: Tree, k: Key)
    requires Rep(c, t)
    ensures forall x :: x in IdsAlong(t, RoutePath(t, k)) ==> x in c
    ensures FirstHit(c, IdsAlong(t, RoutePath(t, k)), k) == Lookup(t, k)
  {
    hide NodeGet;
    if t.kids != [] { ScanEnd(KidMins(t.kids), k, 0); }
    var q := RoutePath(t, k);
    var ids := IdsAlong(t, q);
    assert ids[0] == t.node.id;
    if q != [] {
      var r := q[0];
      LookupAlong(c, t.kids[r], k);
      assert q[1..] == RoutePath(t.kids[r], k);
      assert ids[1..] == IdsAlong(t.kids[r], q[1..]);
    } else {
      assert ids[1..] == [];
    }
  }

  lemma {:induction false} ScanEnd(mins: seq<Key>, k: Key, i: nat)
    requires i <= |mins| && mins != []
    ensures ScanUp(mins, k, i) < |mins|
    decreases |mins| - i
  {
    if i < |mins| && !KeyLess(k, mins[i]) { ScanEnd(mins, k, i + 1); }
  }

  /** Routing over whole paths: a node that holds a version of `k` is on the way that `find_path(k)` takes. */
  lemma {:induction false} OnPath(t: Tree, k: Key, p: Path, e: Entry)
    requires (RootOk(t) || Good(t)) && ValidPath(t, p) && e in Sub(t, p).node.buffer && e.key == k
    ensures p <= RoutePath(t, k)
  {
    hide RootOk;
    hide Good;
    hide E;
    hide ScanUp;
    if p != [] {
      var i := p[0];
      SubWithin(t.kids[i], p[1..]);
      OwnEntries(Sub(t.kids[i], p[1..]), e);
      RoutedTo(t, k, i, e);
      NodeShape(t);
      OnPath(t.kids[i], k, p[1..], e);
      assert p == [i] + p[1..];
    }
  }

  lemma OwnEntries(t: Tree, e: Entry)
    requires e in t.node.buffer
    ensures e in E(t)
  {
  }

  /** The scan picks the one child that holds the key. */
  lemma RoutedTo(t: Tree, k: Key, i: nat, e: Entry)
    requires (RootOk(t) || Good(t)) && i < |t.kids| && e in E(t.kids[i]) && e.key == k
    ensures ScanUp(KidMins(t.kids), k, 0) == i
  {
    hide E;
    hide ScanUp;
    assert GoodKids(t.kids, t.node.level - 1);
    var r := KidRoute(t.kids, t.node.level - 1, k);
    if i != r { OffPath(t.kids, t.node.level - 1, k, r, i); }
  }

  lemma {:induction false} PrefixAlong(t: Tree, p: Path, q: Path)
    requires ValidPath(t, q) && p <= q
    ensures ValidPath(t, p) && Sub(t, p).node.id in IdsAlong(t, q)
  {
    if p != [] { PrefixAlong(t.kids[q[0]], p[1..], q[1..]); }
  }

  /** Every cached node that holds a version of `k` is on the path. */
  lemma VersionsOnPath(c: Store, t: Tree, next: NodeId, k: Key)
    requires Holds(c, t, next)
    ensures forall x, e :: x in c && e in c[x].buffer && e.key == k ==> x in IdsAlong(t, RoutePath(t, k))
  {
    forall x, e | x in c && e in c[x].buffer && e.key == k ensures x in IdsAlong(t, RoutePath(t, k)) {
      var p := Locate(t, x);
      RepOpen(c, t, p);
      OnPath(t, k, p, e);
      PrefixAlong(t, p, RoutePath(t, k));
    }
  }

  /** One level of the descent. */
  lemma RouteStep(t: Tree, k: Key)
    requires t.kids != []
    ensures var r := ScanUp(KidMins(t.kids), k, 0);
            r < |t.kids| && IdsAlong(t, RoutePath(t, k)) == [t.node.id] + IdsAlong(t.kids[r], RoutePath(t.kids[r], k))
  {
    ScanEnd(KidMins(t.kids), k, 0);
    var r := ScanUp(KidMins(t.kids), k, 0);
    assert ([r] + RoutePath(t.kids[r], k))[1..] == RoutePath(t.kids[r], k);
  }

  lemma RouteLeaf(t: Tree, k: Key)
    requires t.kids == []
    ensures RoutePath(t, k) == [] && IdsAlong(t, RoutePath(t, k)) == [t.node.id]
  {
  }

  lemma EmptyMisses(k: Key)
    ensures NodeGet([], k) == None
  {
  }

  lemma NodeShape(t: Tree)
    requires RootOk(t) || Good(t)
    ensures t.node.childIds == KidIds(t.kids) && (t.node.level == 0 <==> t.kids == [])
    ensures forall i :: 0 <= i < |t.kids| ==> Good(t.kids[i])
  {
  }
}
