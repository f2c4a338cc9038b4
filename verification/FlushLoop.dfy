/** The recursion of do_flush: what each step leaves alone, and when the loop meets a parent that is gone. */
module FlushLoop {
  import opened Types
  import opened Entries
  import opened TreeModel
  import opened TreeFlush
  import opened TreeSplit
  import opened TreeStore
  import opened FlushStore
  import opened SplitStore

  // ----- what a step leaves alone -----

  ghost predicate Apart(u: Tree, s: Tree) {
    forall x: NodeId :: Count(u, x) > 0 ==> Count(s, x) == 0
  }

  /** Every represented subtree that shares no node with `s` is still represented. */
  ghost predicate Keeps(c: Store, d: Store, s: Tree) {
    forall u :: Linked(u) && Rep(c, u) && Apart(u, s) ==> Rep(d, u)
  }

  lemma KeepsUse(c: Store, d: Store, s: Tree, u: Tree)
    requires Keeps(c, d, s) && Linked(u) && Rep(c, u) && Apart(u, s)
    ensures Rep(d, u)
  {
  }

  lemma {:induction false} AlongHas(t: Tree, p: Path, x: NodeId) returns (a: Path, b: Path)
    requires ValidPath(t, p) && x in IdsAlong(t, p)
    ensures ValidPath(t, a) && Sub(t, a).node.id == x && ValidPath(Sub(t, a), b) && Sub(Sub(t, a), b) == Sub(t, p)
  {
    if t.node.id == x {
      a, b := [], p;
    } else {
      a, b := AlongHas(t.kids[p[0]], p[1..], x);
      assert ([p[0]] + a)[1..] == a;
      a := [p[0]] + a;
    }
  }

  /** A represented subtree with a node on the path to the target holds the target. */
  lemma AncestorsHold(c: Store, t: Tree, next: NodeId, p: Path, u: Tree, x: NodeId)
    requires Holds(c, t, next) && ValidPath(t, p) && Linked(u) && Rep(c, u) && Count(u, x) > 0 && x in IdsAlong(t, p)
    ensures Count(u, Sub(t, p).node.id) > 0
  {
    hide RootOk;
    var a, b := AlongHas(t, p, x);
    var q := Locate(u, x);
    RepOpen(c, t, a);
    RepOpen(c, u, q);
    RootLinked(t);
    SubLinked(t, a);
    SubLinked(u, q);
    RepUnique(c, Sub(t, a), Sub(u, q));
    var y := Sub(t, p).node.id;
    CountUpdate(u, q, u, y);
    CountUpdate(Sub(t, a), b, u, y);
    assert Count(Sub(t, p), y) > 0;
  }

  lemma RootLinked(t: Tree)
    requires RootOk(t)
    ensures Linked(t)
  {
    GoodLinked(t);
  }

  /** A split touches nothing but the way down to the leaf. */
  lemma SplitKeeps(c: Store, t: Tree, next: NodeId, p: Path, d: Store, bound: NodeId)
    requires Holds(c, t, next) && ValidPath(t, p) && KeptBut(c, d, IdsAlong(t, p), bound)
    ensures Keeps(c, d, Sub(t, p))
  {
    hide Holds;
    forall u | Linked(u) && Rep(c, u) && Apart(u, Sub(t, p)) ensures Rep(d, u) {
      forall x | x in c && Count(u, x) > 0 ensures x in d && d[x] == c[x] {
        if x in IdsAlong(t, p) {
          AncestorsHold(c, t, next, p, u, x);
          assert Count(Sub(t, p), Sub(t, p).node.id) > 0;
        }
      }
      RepFrame(c, d, u);
    }
  }

  /** One flush touches nothing outside the flushed subtree. */
  lemma FlushKeeps(c: Store, t: Tree, next: NodeId, p: Path)
    requires Holds(c, t, next) && ValidPath(t, p) && Sub(t, p).kids != []
    ensures Keeps(c, FlushedCache(c, Sub(t, p), next), Sub(t, p))
  {
    SubReady(c, t, p, next);
    hide Holds;
    hide Ready;
    hide FlushedCache;
    var d := FlushedCache(c, Sub(t, p), next);
    forall u | Linked(u) && Rep(c, u) && Apart(u, Sub(t, p)) ensures Rep(d, u) {
      forall x | x in c && Count(u, x) > 0 ensures x in d && d[x] == c[x] {
        OutsideKept(c, t, p, next, x);
      }
      RepFrame(c, d, u);
    }
  }

  /** Two steps, the second inside what the first may have touched or created. */
  lemma KeepsChain(c: Store, d: Store, e: Store, s: Tree, k: Tree)
    requires Keeps(c, d, s) && Keeps(d, e, k)
    requires forall x :: x in c && Count(k, x) > 0 ==> Count(s, x) > 0
    ensures Keeps(c, e, s)
  {
    forall u | Linked(u) && Rep(c, u) && Apart(u, s) ensures Rep(e, u) {
      KeepsUse(c, d, s, u);
      forall x: NodeId | Count(u, x) > 0 ensures Count(k, x) == 0 { RepHas(c, u, x); }
      KeepsUse(d, e, k, u);
    }
  }

  // ----- the new children -----

  lemma NewKidOld(c: Store, s: Tree, next: NodeId, i: nat)
    requires (forall x :: x in c ==> x < next) && i < |s.kids|
    ensures forall x :: x in c && Count(NewKid(s, next, i), x) > 0 ==> Count(s, x) > 0
  {
    hide NewKid;
    NewKidShape(s, next, i);
    forall x | x in c && Count(NewKid(s, next, i), x) > 0 ensures Count(s, x) > 0 {
      CountKid(s, i, x);
    }
  }

  lemma KidsApart(t: Tree, i: nat, j: nat)
    requires Distinct(t) && i < |t.kids| && j < |t.kids| && i != j
    ensures Apart(t.kids[j], t.kids[i])
  {
    forall x: NodeId | Count(t.kids[j], x) > 0 ensures Count(t.kids[i], x) == 0 {
      CountKid(t, i, x);
      assert Count(t, x) <= 1;
    }
  }

  /** A represented subtree of the cache is somewhere in the tree. */
  lemma FindSub(c: Store, t: Tree, next: NodeId, n: Tree) returns (q: Path)
    requires Holds(c, t, next) && Rep(c, n) && Linked(n)
    ensures ValidPath(t, q) && Sub(t, q) == n
  {
    RootLinked(t);
    hide RootOk;
    q := Locate(t, n.node.id);
    RepOpen(c, t, q);
    SubLinked(t, q);
    RepUnique(c, Sub(t, q), n);
  }

  // ----- when the loop fails -----

  /** Child `i`'s buffer once the parent's entries have arrived. */
  function Filled(buffer: seq<Entry>, kids: seq<Tree>, i: nat): seq<Entry>
    requires i < |kids|
  {
    var b := Bucket(StableSort(buffer), KidMins(kids), i);
    if b == [] then kids[i].node.buffer else SortBuffer(Merge(b, kids[i].node.buffer))
  }

  /** How many of the first `n` children are full then. */
  function Fulls(buffer: seq<Entry>, kids: seq<Tree>, n: nat): (r: nat)
    requires n <= |kids|
    ensures r <= n
  {
    if n == 0 then 0 else Fulls(buffer, kids, n - 1) + if BufferFull(Filled(buffer, kids, n - 1)) then 1 else 0
  }

  /**
   * The flush of this buffer ends at a parent that is gone.  Above the leaves, each full child adds
   * a slot; the split that finds no slot replaces the parent, and any full child after it is lost.
   */
  predicate Stuck(buffer: seq<Entry>, kids: seq<Tree>)
    decreases kids
  {
    kids != [] &&
    if kids[0].kids == [] then |kids| + Fulls(buffer, kids, |kids|) > MAX_FANOUT + 1
    else exists i :: 0 <= i < |kids| && BufferFull(Filled(buffer, kids, i)) && Stuck(Filled(buffer, kids, i), kids[i].kids)
  }

  lemma NewKidBuffer(s: Tree, next: NodeId, i: nat)
    requires Flushable(s) && i < |s.kids|
    ensures NewKid(s, next, i).node.buffer == Filled(s.node.buffer, s.kids, i) && NewKid(s, next, i).kids == s.kids[i].kids
    ensures Good(NewKid(s, next, i)) && NewKid(s, next, i).node.level == s.node.level - 1
  {
    hide FlushKid;
    hide SortBuffer;
    hide Good;
    hide Bucket;
    hide Merge;
    assert Good(s.kids[i]) by { KidGood(s, i); }
    FlushKidGood(s.kids[i], Buckets(s)[i], next + Used(Buckets(s), i));
  }

  lemma {:induction false} FullsMonotone(buffer: seq<Entry>, kids: seq<Tree>, i: nat, n: nat)
    requires i < n <= |kids|
    ensures Fulls(buffer, kids, i) + (if BufferFull(Filled(buffer, kids, i)) then 1 else 0) <= Fulls(buffer, kids, n)
  {
    hide Filled;
    if i < n - 1 { FullsMonotone(buffer, kids, i, n - 1); }
  }

  // ----- full leaves split cleanly -----

  ghost predicate Small(s: seq<Entry>) {
    forall e :: e in s ==> EntryBytes(e) < BUFFER_THRESHOLD
  }

  lemma FewBytes(s: seq<Entry>)
    requires Small(s) && |s| < 2
    ensures !BufferFull(s)
  {
    if s != [] {
      assert s[0] in s;
      assert Bytes(s) == EntryBytes(s[0]) + Bytes([]);
    }
  }

  /** A full leaf below the root has at least two entries, all under different keys. */
  lemma FullLeafCuts(t: Tree)
    requires Good(t) && Small(E(t)) && BufferFull(t.node.buffer)
    ensures CleanCut(StableSort(t.node.buffer))
  {
    var b := t.node.buffer;
    assert forall e :: e in b ==> e in E(t);
    if |b| < 2 { FewBytes(b); }
    StrictCutsClean(b);
  }

  // ----- the leaf split as a step on the whole tree -----

  lemma SplitAtFacts(t: Tree, p: Path, next: NodeId)
    requires RootOk(t) && ValidPath(t, p) && Sub(t, p).kids == [] && Sub(t, p).node.level == 0
    requires CleanCut(StableSort(Sub(t, p).node.buffer))
    ensures var u := SplitAt(t, p, next).0;
            RootOk(u) && Compacts(E(u), E(t)) && (VersionOrder(t) ==> VersionOrder(u))
  {
    var leaf := Sub(t, p);
    LeafSplitOk(leaf, next);
    LeafIds(leaf, next);
    LeavesOrdered(leaf, next);
    hide LeftLeaf;
    hide RightLeaf;
    hide InsertAt;
    hide RootOk;
    hide Good;
    var l, r := LeftLeaf(leaf, next), RightLeaf(leaf, next);
    InsertAtFacts(t, p, l, r, next + 2);
    if VersionOrder(t) { InsertAtVersions(t, p, l, r, next + 2); }
  }

  lemma LeavesOrdered(leaf: Tree, next: NodeId)
    ensures VersionOrder(LeftLeaf(leaf, next)) && VersionOrder(RightLeaf(leaf, next))
  {
    LeafIds(leaf, next);
    hide LeftLeaf;
    hide RightLeaf;
  }

  lemma {:induction false} SubOfUpdate(t: Tree, p: Path, s: Tree)
    requires ValidPath(t, p)
    ensures ValidPath(Update(t, p, s), p) && Sub(Update(t, p, s), p) == s
  {
    if p != [] { SubOfUpdate(t.kids[p[0]], p[1..], s); }
  }

  lemma {:induction false} SubOfKid(t: Tree, p: Path, i: nat)
    requires ValidPath(t, p) && i < |Sub(t, p).kids|
    ensures ValidPath(t, p + [i]) && Sub(t, p + [i]) == Sub(t, p).kids[i]
  {
    if p != [] {
      SubOfKid(t.kids[p[0]], p[1..], i);
      assert (p + [i])[1..] == p[1..] + [i];
    }
  }

  lemma TwoAfter(ks: seq<Tree>, i: nat, l: Tree, r: Tree)
    requires i < |ks|
    ensures |Two(ks, i, l, r)| == |ks| + 1 && forall j :: i < j < |ks| ==> Two(ks, i, l, r)[j + 1] == ks[j]
  {
  }

  /** A parent with room keeps its place and takes the two halves in the old leaf's slot. */
  lemma SplitAtSlots(t: Tree, p: Path, i: nat, next: NodeId)
    requires ValidPath(t, p) && i < |Sub(t, p).kids| < MAX_FANOUT && ValidPath(t, p + [i])
    ensures var u, q := SplitAt(t, p + [i], next).0, Sub(t, p);
            && ValidPath(u, p) && Sub(u, p).node.id == q.node.id && |Sub(u, p).kids| == |q.kids| + 1
            && forall j :: i < j < |q.kids| ==> Sub(u, p).kids[j + 1] == q.kids[j]
  {
    hide LeftLeaf;
    hide RightLeaf;
    hide InsertAt;
    hide Adopt;
    hide Two;
    hide Update;
    SubOfKid(t, p, i);
    var l, r := LeftLeaf(Sub(t, p + [i]), next), RightLeaf(Sub(t, p + [i]), next);
    TwoAfter(Sub(t, p).kids, i, l, r);
    assert Parent(p + [i]) == p && Last(p + [i]) == i;
    InsertAtStep(t, p + [i], l, r, next + 2);
    AdoptIds(Sub(t, p), i, l, r);
    SubOfUpdate(t, p, Adopt(Sub(t, p), i, l, r));
  }

  // ----- progress of the loop over the new children -----

  /** Above the leaves: each full child so far took one more slot, or, past the last slot, the parent's place. */
  ghost predicate Slots(c: Store, t: Tree, p: Path, s: Tree, n0: NodeId, i: nat)
    requires i <= |s.kids|
  {
    var f := Fulls(s.node.buffer, s.kids, i);
    && |s.kids| + f <= MAX_FANOUT + 1
    && if |s.kids| + f > MAX_FANOUT then s.node.id !in c
       else ValidPath(t, p) && Sub(t, p).node.id == s.node.id && |Sub(t, p).kids| == |s.kids| + f
            && forall j :: i <= j < |s.kids| ==> Sub(t, p).kids[j + f] == NewKid(s, n0, j)
  }

  ghost predicate NoneStuck(s: Tree, i: nat)
    requires i <= |s.kids|
  {
    forall j :: 0 <= j < i && BufferFull(Filled(s.node.buffer, s.kids, j)) ==> !Stuck(Filled(s.node.buffer, s.kids, j), s.kids[j].kids)
  }

  /** The flush started at `t0`, cached as `c0`, at `p`; the first `i` new children have been dealt with. */
  ghost predicate Progress(c0: Store, t0: Tree, n0: NodeId, p: Path, c: Store, t: Tree, i: nat) {
    && ValidPath(t0, p) && Flushable(Sub(t0, p)) && i <= |Sub(t0, p).kids| && Small(E(t0))
    && (forall x :: x in c0 ==> x < n0) && Distinct(FlushNode(Sub(t0, p), n0))
    && Compacts(E(t), E(t0)) && (VersionOrder(t0) ==> VersionOrder(t))
    && Keeps(c0, c, Sub(t0, p))
    && (forall j :: i <= j < |Sub(t0, p).kids| ==> Rep(c, NewKid(Sub(t0, p), n0, j)))
    && (if Sub(t0, p).node.level == 1 then Slots(c, t, p, Sub(t0, p), n0, i) else NoneStuck(Sub(t0, p), i))
  }

  /** Right after the flush, before the loop. */
  lemma StartParts(c0: Store, t0: Tree, n0: NodeId, p: Path)
    requires Holds(c0, t0, n0) && ValidPath(t0, p) && Sub(t0, p).kids != []
    ensures Flushable(Sub(t0, p)) && |Sub(t0, p).kids| <= MAX_FANOUT && forall x :: x in c0 ==> x < n0
    ensures Distinct(FlushNode(Sub(t0, p), n0))
    ensures forall j :: 0 <= j < |Sub(t0, p).kids| ==> Rep(FlushedCache(c0, Sub(t0, p), n0), NewKid(Sub(t0, p), n0, j))
  {
    hide FlushNode;
    hide FlushedCache;
    hide Good;
    hide NewKid;
    hide VersionOrder;
    var s := Sub(t0, p);
    SubReady(c0, t0, p, n0);
    SmallFanout(t0, p);
    hide RootOk;
    FlushHolds(c0, t0, p, n0);
    FlushedRep(c0, s, n0);
    FlushedHead(s, n0);
    SubOfUpdate(t0, p, FlushNode(s, n0));
    SubDistinct(Update(t0, p, FlushNode(s, n0)), p);
    forall j | 0 <= j < |s.kids| ensures Rep(FlushedCache(c0, s, n0), NewKid(s, n0, j)) {
      assert FlushNode(s, n0).kids[j] == NewKid(s, n0, j);
    }
  }

  lemma StartSlots(c: Store, t: Tree, p: Path, s: Tree, n0: NodeId)
    requires ValidPath(t, p) && s.kids != [] && |s.kids| <= MAX_FANOUT
    ensures Slots(c, Update(t, p, FlushNode(s, n0)), p, s, n0, 0)
  {
    hide FlushNode;
    hide NewKid;
    FlushedHead(s, n0);
    SubOfUpdate(t, p, FlushNode(s, n0));
  }

  lemma ProgressStart(c0: Store, t0: Tree, n0: NodeId, p: Path)
    requires Holds(c0, t0, n0) && ValidPath(t0, p) && Sub(t0, p).kids != [] && Small(E(t0))
    ensures Progress(c0, t0, n0, p, FlushedCache(c0, Sub(t0, p), n0), Update(t0, p, FlushNode(Sub(t0, p), n0)), 0)
  {
    hide Holds;
    hide FlushNode;
    hide FlushedCache;
    hide NewKid;
    hide Keeps;
    hide Update;
    hide VersionOrder;
    hide Slots;
    hide Rep;
    hide Flushable;
    hide Distinct;
    StartParts(c0, t0, n0, p);
    FlushHolds(c0, t0, p, n0);
    FlushKeeps(c0, t0, n0, p);
    StartSlots(FlushedCache(c0, Sub(t0, p), n0), t0, p, Sub(t0, p), n0);
  }

  lemma SmallFanout(t: Tree, p: Path)
    requires RootOk(t) && ValidPath(t, p)
    ensures |Sub(t, p).kids| <= MAX_FANOUT
  {
    if p != [] { SubGood(t, p); }
  }

  lemma ProgressSkip(c0: Store, t0: Tree, n0: NodeId, p: Path, c: Store, t: Tree, i: nat)
    requires Progress(c0, t0, n0, p, c, t, i) && i < |Sub(t0, p).kids|
    requires !BufferFull(Filled(Sub(t0, p).node.buffer, Sub(t0, p).kids, i))
    ensures Progress(c0, t0, n0, p, c, t, i + 1)
  {
    hide Good;
    hide Filled;
    hide NewKid;
    hide Keeps;
    hide FlushNode;
    hide VersionOrder;
  }

  /** The child about to be dealt with, as the cache has it. */
  lemma ProgressHead(c0: Store, t0: Tree, n0: NodeId, p: Path, c: Store, t: Tree, i: nat)
    requires Progress(c0, t0, n0, p, c, t, i) && i < |Sub(t0, p).kids|
    ensures var s := Sub(t0, p);
            var k := NewKid(s, n0, i);
            && k.node.id in c && c[k.node.id] == k.node && Rep(c, k) && Linked(k) && Good(k)
            && k.node.buffer == Filled(s.node.buffer, s.kids, i) && k.kids == s.kids[i].kids
            && k.node.level == s.node.level - 1 && (k.node.childIds == [] <==> k.kids == []) && (k.kids == [] <==> k.node.level == 0)
  {
    var s := Sub(t0, p);
    NewKidBuffer(s, n0, i);
    hide NewKid;
    hide Filled;
    hide Keeps;
    hide FlushNode;
    GoodLinked(NewKid(s, n0, i));
  }

  /** A full child above the leaves was flushed in turn. */
  lemma ProgressInner(c0: Store, t0: Tree, n0: NodeId, p: Path, c: Store, t: Tree, i: nat, d: Store, u: Tree)
    requires Progress(c0, t0, n0, p, c, t, i) && i < |Sub(t0, p).kids| && Sub(t0, p).node.level != 1
    requires Keeps(c, d, NewKid(Sub(t0, p), n0, i)) && Compacts(E(u), E(t)) && (VersionOrder(t) ==> VersionOrder(u))
    requires !Stuck(Filled(Sub(t0, p).node.buffer, Sub(t0, p).kids, i), Sub(t0, p).kids[i].kids)
    ensures Progress(c0, t0, n0, p, d, u, i + 1)
  {
    hide Good;
    hide Filled;
    hide NewKid;
    hide FlushNode;
    hide VersionOrder;
    hide Stuck;
    hide Keeps;
    var s := Sub(t0, p);
    NewKidOld(c0, s, n0, i);
    KeepsChain(c0, c, d, s, NewKid(s, n0, i));
    OthersKept(c0, t0, n0, p, c, t, i, d);
  }

  lemma OthersKept(c0: Store, t0: Tree, n0: NodeId, p: Path, c: Store, t: Tree, i: nat, d: Store)
    requires Progress(c0, t0, n0, p, c, t, i) && i < |Sub(t0, p).kids| && Keeps(c, d, NewKid(Sub(t0, p), n0, i))
    ensures forall j :: i < j < |Sub(t0, p).kids| ==> Rep(d, NewKid(Sub(t0, p), n0, j))
  {
    hide Good;
    hide NewKid;
    hide FlushNode;
    hide Keeps;
    hide VersionOrder;
    var s := Sub(t0, p);
    FlushedHead(s, n0);
    forall j | i < j < |s.kids| ensures Rep(d, NewKid(s, n0, j)) {
      KidsApart(FlushNode(s, n0), i, j);
      NewKidBuffer(s, n0, j);
      GoodLinked(NewKid(s, n0, j));
      KeepsUse(c, d, NewKid(s, n0, i), NewKid(s, n0, j));
    }
  }

  /** What the split keeps, the slots aside. */
  lemma SplitStep(c0: Store, t0: Tree, n0: NodeId, p: Path, c: Store, t: Tree, i: nat, next: NodeId, q: Path, d: Store)
    requires Progress(c0, t0, n0, p, c, t, i) && i < |Sub(t0, p).kids|
    requires Holds(c, t, next) && ValidPath(t, q) && Sub(t, q) == NewKid(Sub(t0, p), n0, i)
    requires Sub(t, q).kids == [] && Sub(t, q).node.level == 0 && CleanCut(StableSort(Sub(t, q).node.buffer))
    requires KeptBut(c, d, IdsAlong(t, q), next)
    ensures var u := SplitAt(t, q, next).0;
            && Compacts(E(u), E(t0)) && (VersionOrder(t0) ==> VersionOrder(u)) && Keeps(c0, d, Sub(t0, p))
            && forall j :: i < j < |Sub(t0, p).kids| ==> Rep(d, NewKid(Sub(t0, p), n0, j))
  {
    hide Good;
    hide NewKid;
    hide FlushNode;
    hide VersionOrder;
    hide Keeps;
    hide SplitAt;
    hide CleanCut;
    hide KeptBut;
    SplitKeeps(c, t, next, q, d, next);
    SplitAtFacts(t, q, next);
    hide RootOk;
    NewKidOld(c0, Sub(t0, p), n0, i);
    KeepsChain(c0, c, d, Sub(t0, p), NewKid(Sub(t0, p), n0, i));
    OthersKept(c0, t0, n0, p, c, t, i, d);
  }

  /** A full leaf was split while its parent was still there. */
  lemma ProgressSplit(c0: Store, t0: Tree, n0: NodeId, p: Path, c: Store, t: Tree, i: nat, next: NodeId, j: nat, d: Store)
    requires Progress(c0, t0, n0, p, c, t, i) && i < |Sub(t0, p).kids| && Sub(t0, p).node.level == 1
    requires BufferFull(Filled(Sub(t0, p).node.buffer, Sub(t0, p).kids, i))
    requires Holds(c, t, next) && ValidPath(t, p) && j == i + Fulls(Sub(t0, p).node.buffer, Sub(t0, p).kids, i) < |Sub(t, p).kids|
    requires |Sub(t0, p).kids| + Fulls(Sub(t0, p).node.buffer, Sub(t0, p).kids, i) <= MAX_FANOUT
    requires ValidPath(t, p + [j]) && KeptBut(c, d, IdsAlong(t, p + [j]), next)
    requires CleanCut(StableSort(Sub(t, p + [j]).node.buffer))
    requires |Sub(t, p).kids| == MAX_FANOUT ==> Sub(t, p).node.id !in d
    ensures Progress(c0, t0, n0, p, d, SplitAt(t, p + [j], next).0, i + 1)
  {
    hide Good;
    hide Filled;
    hide NewKid;
    hide FlushNode;
    hide VersionOrder;
    hide Keeps;
    hide SplitAt;
    hide Holds;
    hide Rep;
    hide CleanCut;
    hide KeptBut;
    hide Slots;
    hide Fulls;
    hide BufferFull;
    hide Flushable;
    hide Distinct;
    SubOfKid(t, p, j);
    ProgressHead(c0, t0, n0, p, c, t, i);
    ProgressSlots(c0, t0, n0, p, c, t, i);
    SlotsHead(c, t, p, Sub(t0, p), n0, i);
    SplitStep(c0, t0, n0, p, c, t, i, next, p + [j], d);
    SlotsSplit(t, p, Sub(t0, p), n0, i, next, c, d);
  }

  lemma ProgressSlots(c0: Store, t0: Tree, n0: NodeId, p: Path, c: Store, t: Tree, i: nat)
    requires Progress(c0, t0, n0, p, c, t, i) && Sub(t0, p).node.level == 1
    ensures Slots(c, t, p, Sub(t0, p), n0, i)
  {
    hide Slots;
  }

  lemma SlotsHead(c: Store, t: Tree, p: Path, s: Tree, n0: NodeId, i: nat)
    requires i < |s.kids| && Slots(c, t, p, s, n0, i) && |s.kids| + Fulls(s.node.buffer, s.kids, i) <= MAX_FANOUT
    ensures ValidPath(t, p) && i + Fulls(s.node.buffer, s.kids, i) < |Sub(t, p).kids|
    ensures Sub(t, p).kids[i + Fulls(s.node.buffer, s.kids, i)] == NewKid(s, n0, i)
  {
    hide NewKid;
    hide Fulls;
  }

  lemma FullsNext(buffer: seq<Entry>, kids: seq<Tree>, i: nat)
    requires i < |kids| && BufferFull(Filled(buffer, kids, i))
    ensures Fulls(buffer, kids, i + 1) == Fulls(buffer, kids, i) + 1
  {
    hide Filled;
    hide BufferFull;
  }

  lemma SlotsShift(ks: seq<Tree>, ls: seq<Tree>, s: Tree, n0: NodeId, i: nat, f: nat)
    requires i < |s.kids| && |ks| == |s.kids| + f && |ls| == |ks| + 1
    requires forall j :: i <= j < |s.kids| ==> ks[j + f] == NewKid(s, n0, j)
    requires forall j :: i + f < j < |ks| ==> ls[j + 1] == ks[j]
    ensures forall j :: i + 1 <= j < |s.kids| ==> ls[j + (f + 1)] == NewKid(s, n0, j)
  {
    hide NewKid;
    forall j | i + 1 <= j < |s.kids| ensures ls[j + (f + 1)] == NewKid(s, n0, j) {
      assert ls[(j + f) + 1] == ks[j + f];
    }
  }

  lemma SlotsSplit(t: Tree, p: Path, s: Tree, n0: NodeId, i: nat, next: NodeId, c: Store, d: Store)
    requires i < |s.kids| && Slots(c, t, p, s, n0, i) && BufferFull(Filled(s.node.buffer, s.kids, i))
    requires |s.kids| + Fulls(s.node.buffer, s.kids, i) <= MAX_FANOUT
    requires ValidPath(t, p) && ValidPath(t, p + [i + Fulls(s.node.buffer, s.kids, i)])
    requires |Sub(t, p).kids| == MAX_FANOUT ==> Sub(t, p).node.id !in d
    ensures Slots(d, SplitAt(t, p + [i + Fulls(s.node.buffer, s.kids, i)], next).0, p, s, n0, i + 1)
  {
    hide Filled;
    hide BufferFull;
    hide NewKid;
    hide SplitAt;
    hide Fulls;
    hide Sub;
    hide ValidPath;
    var f := Fulls(s.node.buffer, s.kids, i);
    var u := SplitAt(t, p + [i + f], next).0;
    FullsNext(s.node.buffer, s.kids, i);
    if |Sub(t, p).kids| < MAX_FANOUT {
      SplitAtSlots(t, p, i + f, next);
      SlotsShift(Sub(t, p).kids, Sub(u, p).kids, s, n0, i, f);
    }
  }

  lemma AliveOrDead(c0: Store, t0: Tree, n0: NodeId, p: Path, c: Store, t: Tree, i: nat, next: NodeId)
    requires ValidPath(t0, p) && Progress(c0, t0, n0, p, c, t, i) && i < |Sub(t0, p).kids| && Sub(t0, p).node.level == 1 && Holds(c, t, next)
    requires BufferFull(Filled(Sub(t0, p).node.buffer, Sub(t0, p).kids, i))
    ensures var s := Sub(t0, p);
            var f := Fulls(s.node.buffer, s.kids, i);
            if s.node.id in c then
              && |s.kids| + f <= MAX_FANOUT && ValidPath(t, p) && Sub(t, p).node.id == s.node.id
              && i + f < |Sub(t, p).kids| && Sub(t, p).kids[i + f] == NewKid(s, n0, i)
            else Stuck(s.node.buffer, s.kids)
  {
    hide Filled;
    hide BufferFull;
    hide NewKid;
    hide Progress;
    hide Holds;
    hide Stuck;
    hide Fulls;
    var s := Sub(t0, p);
    ProgressSlots(c0, t0, n0, p, c, t, i);
    ProgressFlushable(c0, t0, n0, p, c, t, i);
    if |s.kids| + Fulls(s.node.buffer, s.kids, i) <= MAX_FANOUT {
      SlotsHead(c, t, p, s, n0, i);
      LeafCached(c, t, p, next);
    } else {
      FullsMonotone(s.node.buffer, s.kids, i, |s.kids|);
      StuckLeaves(s);
    }
  }

  lemma StuckLeaves(s: Tree)
    requires Flushable(s) && s.node.level == 1 && |s.kids| + Fulls(s.node.buffer, s.kids, |s.kids|) > MAX_FANOUT + 1
    ensures Stuck(s.node.buffer, s.kids)
  {
    hide Fulls;
    hide Good;
    KidGood(s, 0);
    LeafHasNoKids(s.kids[0]);
  }

  lemma LeafHasNoKids(t: Tree)
    requires Good(t)
    ensures t.kids == [] <==> t.node.level == 0
  {
  }

  lemma ProgressEnd(c0: Store, t0: Tree, n0: NodeId, p: Path, c: Store, t: Tree)
    requires ValidPath(t0, p) && Progress(c0, t0, n0, p, c, t, |Sub(t0, p).kids|)
    ensures Compacts(E(t), E(t0)) && (VersionOrder(t0) ==> VersionOrder(t)) && Keeps(c0, c, Sub(t0, p))
    ensures !Stuck(Sub(t0, p).node.buffer, Sub(t0, p).kids)
  {
    hide Filled;
    hide NewKid;
    hide FlushNode;
    hide VersionOrder;
    hide Keeps;
    KidGood(Sub(t0, p), 0);
  }

  lemma StuckInner(s: Tree, i: nat)
    requires Flushable(s) && s.node.level != 1 && i < |s.kids| && BufferFull(Filled(s.node.buffer, s.kids, i))
    requires Stuck(Filled(s.node.buffer, s.kids, i), s.kids[i].kids)
    ensures Stuck(s.node.buffer, s.kids)
  {
    hide Filled;
    KidGood(s, 0);
  }

  lemma ProgressFlushable(c0: Store, t0: Tree, n0: NodeId, p: Path, c: Store, t: Tree, i: nat)
    requires Progress(c0, t0, n0, p, c, t, i)
    ensures ValidPath(t0, p) && Flushable(Sub(t0, p))
  {
  }

  lemma ProgressSmall(c0: Store, t0: Tree, n0: NodeId, p: Path, c: Store, t: Tree, i: nat)
    requires Progress(c0, t0, n0, p, c, t, i)
    ensures Small(E(t))
  {
    hide NewKid;
    hide FlushNode;
    hide VersionOrder;
    hide Keeps;
    hide Slots;
    hide NoneStuck;
    hide Flushable;
  }

  /** A full leaf whose parent is still there is ready to be split. */
  lemma SplitReady(c0: Store, t0: Tree, n0: NodeId, p: Path, c: Store, t: Tree, i: nat, next: NodeId) returns (j: nat)
    requires ValidPath(t0, p) && Progress(c0, t0, n0, p, c, t, i) && i < |Sub(t0, p).kids| && Sub(t0, p).node.level == 1 && Holds(c, t, next)
    requires BufferFull(Filled(Sub(t0, p).node.buffer, Sub(t0, p).kids, i)) && Sub(t0, p).node.id in c
    ensures ValidPath(t, p) && Sub(t, p).node.id == Sub(t0, p).node.id
    ensures j == i + Fulls(Sub(t0, p).node.buffer, Sub(t0, p).kids, i) < |Sub(t, p).kids|
    ensures |Sub(t0, p).kids| + Fulls(Sub(t0, p).node.buffer, Sub(t0, p).kids, i) <= MAX_FANOUT
    ensures ValidPath(t, p + [j]) && Parent(p + [j]) == p && Sub(t, p + [j]) == NewKid(Sub(t0, p), n0, i)
    ensures CleanCut(StableSort(Sub(t, p + [j]).node.buffer))
  {
    hide Filled;
    hide NewKid;
    hide Progress;
    hide Holds;
    hide CleanCut;
    AliveOrDead(c0, t0, n0, p, c, t, i, next);
    ProgressHead(c0, t0, n0, p, c, t, i);
    ProgressSmall(c0, t0, n0, p, c, t, i);
    j := i + Fulls(Sub(t0, p).node.buffer, Sub(t0, p).kids, i);
    SubOfKid(t, p, j);
    SubWithin(t, p + [j]);
    FullLeafCuts(NewKid(Sub(t0, p), n0, i));
  }
}
