/** What a completed do_flush leaves behind: leaves, full nodes, emptied buffers, fresh ids. */
module FlushTidy {
  import opened Types
  import opened Entries
  import opened TreeModel
  import opened TreeFlush
  import opened TreeSplit
  import opened TreeShape
  import opened TreeStore
  import opened FlushStore
  import opened SplitStore
  import opened FlushLoop
  import opened FlushLeaves
  import opened FlushHot

  // ----- empty buffers and fresh ids -----

  /** Outside `s`, a node that stays keeps an empty buffer empty; ids that enter are fresh. */
  ghost predicate Stays(c: Store, d: Store, s: Tree, next: NodeId) {
    && (forall x :: x in d ==> x in c || x >= next)
    && (forall x :: x in c && x in d && Count(s, x) == 0 && c[x].buffer == [] ==> d[x].buffer == [])
  }

  /** The flushed node is empty as long as it is cached. */
  ghost predicate Emptied(c0: Store, s: Tree, n0: NodeId, c: Store) {
    Stays(c0, c, s, n0) && (s.node.id in c ==> c[s.node.id].buffer == [])
  }

  lemma EmptiedStart(c0: Store, t0: Tree, n0: NodeId, p: Path)
    requires Holds(c0, t0, n0) && ValidPath(t0, p) && Sub(t0, p).kids != []
    ensures Emptied(c0, Sub(t0, p), n0, FlushedCache(c0, Sub(t0, p), n0))
  {
    SubReady(c0, t0, p, n0);
    hide Holds;
    hide Ready;
    hide FlushedCache;
    hide FlushNode;
    hide NewKid;
    var s := Sub(t0, p);
    var d := FlushedCache(c0, s, n0);
    forall x | x in d ensures x in c0 || x >= n0 {
      FlushedCacheAt(c0, s, n0, x);
      NewIdOrigin(c0, s, n0, x);
      if x in KidIds(s.kids) { KidInCache(c0, s, n0, x); }
    }
    forall x | x in c0 && x in d && Count(s, x) == 0 && c0[x].buffer == [] ensures d[x].buffer == [] {
      OutsideKept(c0, t0, p, n0, x);
    }
    FlushedCacheAt(c0, s, n0, s.node.id);
    FlushedBuffer(s, n0);
  }

  lemma KidInCache(c: Store, s: Tree, next: NodeId, x: NodeId)
    requires Ready(c, s, next) && x in KidIds(s.kids)
    ensures x in c
  {
    hide Flushable;
    var i :| 0 <= i < |s.kids| && KidIds(s.kids)[i] == x;
    assert Rep(c, s.kids[i]);
  }

  lemma FlushedBuffer(s: Tree, next: NodeId)
    requires s.kids != []
    ensures FlushNode(s, next).node.buffer == []
  {
    hide NewKid;
    SortBufferOfStrict([]);
  }

  /** A leaf was split. */
  lemma EmptiedSplit(c0: Store, s: Tree, n0: NodeId, c: Store, d: Store, ids: seq<NodeId>, next: NodeId)
    requires Emptied(c0, s, n0, c) && n0 <= next && KeptBut(c, d, ids, next)
    requires (forall x :: x in c0 ==> x < n0) && s.node.id < n0
    ensures Emptied(c0, s, n0, d)
  {
  }

  /** A child was flushed in turn. */
  lemma EmptiedInner(c0: Store, s: Tree, n0: NodeId, c: Store, d: Store, i: nat, next: NodeId)
    requires Emptied(c0, s, n0, c) && n0 <= next && i < |s.kids| && Distinct(FlushNode(s, n0)) && s.node.id < n0
    requires (forall x :: x in c0 ==> x < n0) && Stays(c, d, NewKid(s, n0, i), next)
    ensures Emptied(c0, s, n0, d)
  {
    hide NewKid;
    hide FlushNode;
    hide Distinct;
    NewKidOld(c0, s, n0, i);
    OwnIdOnce(s, n0, i);
  }

  lemma OwnIdOnce(s: Tree, n0: NodeId, i: nat)
    requires i < |s.kids| && Distinct(FlushNode(s, n0))
    ensures Count(NewKid(s, n0, i), s.node.id) == 0
  {
    hide NewKid;
    hide FlushNode;
    var u := FlushNode(s, n0);
    FlushedHead(s, n0);
    CountKid(u, i, s.node.id);
    assert Count(u, s.node.id) <= 1;
  }

  // ----- all of it -----

  ghost predicate Tidy(c0: Store, t0: Tree, n0: NodeId, p: Path, c: Store, t: Tree, i: nat, done: seq<Tree>) {
    && ValidPath(t0, p) && i <= |Sub(t0, p).kids| && Sub(t0, p).node.id < n0
    && Laid(t0, p, n0, t, i, done) && Warm(t0, p, t, i) && Emptied(c0, Sub(t0, p), n0, c)
  }

  lemma TidyStart(c0: Store, t0: Tree, n0: NodeId, p: Path)
    requires Holds(c0, t0, n0) && ValidPath(t0, p) && Sub(t0, p).kids != []
    ensures Tidy(c0, t0, n0, p, FlushedCache(c0, Sub(t0, p), n0), Update(t0, p, FlushNode(Sub(t0, p), n0)), 0, [])
  {
    hide Holds;
    hide Laid;
    hide Warm;
    hide Emptied;
    hide FlushedCache;
    hide FlushNode;
    hide Update;
    StartParts(c0, t0, n0, p);
    LeafCached(c0, t0, p, n0);
    LaidStart(t0, p, n0);
    WarmStart(t0, p, n0);
    EmptiedStart(c0, t0, n0, p);
  }

  lemma TidySkip(c0: Store, t0: Tree, n0: NodeId, p: Path, c: Store, t: Tree, i: nat, done: seq<Tree>, next: NodeId)
    requires Progress(c0, t0, n0, p, c, t, i) && Tidy(c0, t0, n0, p, c, t, i, done) && i < |Sub(t0, p).kids| && Holds(c, t, next)
    requires !BufferFull(Filled(Sub(t0, p).node.buffer, Sub(t0, p).kids, i))
    ensures Tidy(c0, t0, n0, p, c, t, i + 1, done + Leaves(NewKid(Sub(t0, p), n0, i)))
  {
    hide Progress;
    hide Holds;
    hide Laid;
    hide Warm;
    hide Emptied;
    hide NewKid;
    hide Filled;
    hide BufferFull;
    ProgressFlushable(c0, t0, n0, p, c, t, i);
    ProgressHead(c0, t0, n0, p, c, t, i);
    HoldsParts(c, t, next);
    var q := FindSub(c, t, next, NewKid(Sub(t0, p), n0, i));
    SubLeaves(t, q);
    CalmKidLeaves(Sub(t0, p), n0, i);
    LaidReplace(t0, p, n0, t, i, done, q, t, Leaves(NewKid(Sub(t0, p), n0, i)));
    WarmSkip(t0, p, t, i);
  }

  lemma TidySplit(c0: Store, t0: Tree, n0: NodeId, p: Path, c: Store, t: Tree, i: nat, done: seq<Tree>, next: NodeId, j: nat, d: Store)
    returns (mid: seq<Tree>)
    requires Progress(c0, t0, n0, p, c, t, i) && Tidy(c0, t0, n0, p, c, t, i, done) && i < |Sub(t0, p).kids| && Holds(c, t, next)
    requires Sub(t0, p).node.level == 1 && BufferFull(Filled(Sub(t0, p).node.buffer, Sub(t0, p).kids, i)) && n0 <= next
    requires |Sub(t0, p).kids| + Fulls(Sub(t0, p).node.buffer, Sub(t0, p).kids, i) <= MAX_FANOUT
    requires ValidPath(t, p) && j == i + Fulls(Sub(t0, p).node.buffer, Sub(t0, p).kids, i) < |Sub(t, p).kids|
    requires ValidPath(t, p + [j]) && Sub(t, p + [j]) == NewKid(Sub(t0, p), n0, i) && KeptBut(c, d, IdsAlong(t, p + [j]), next)
    ensures Tidy(c0, t0, n0, p, d, SplitAt(t, p + [j], next).0, i + 1, done + mid)
  {
    hide Progress;
    hide Holds;
    hide Laid;
    hide Warm;
    hide Emptied;
    hide NewKid;
    hide Filled;
    hide BufferFull;
    hide Fulls;
    hide InsertAt;
    hide LeftLeaf;
    hide RightLeaf;
    hide KeptBut;
    var s, q := Sub(t0, p), p + [j];
    var leaf := Sub(t, q);
    ProgressFlushable(c0, t0, n0, p, c, t, i);
    ProgressHead(c0, t0, n0, p, c, t, i);
    ProgressBound(c0, t0, n0, p, c, t, i);
    HoldsParts(c, t, next);
    SplitLeafLeaves(t, q, next);
    mid := [LeftLeaf(leaf, next), RightLeaf(leaf, next)];
    BurstKidLeaves(s, n0, i, next);
    LaidReplace(t0, p, n0, t, i, done, q, SplitAt(t, q, next).0, mid);
    WarmSplit(t0, p, t, i, j, next);
    EmptiedSplit(c0, s, n0, c, d, IdsAlong(t, q), next);
  }

  lemma ProgressBound(c0: Store, t0: Tree, n0: NodeId, p: Path, c: Store, t: Tree, i: nat)
    requires Progress(c0, t0, n0, p, c, t, i) && Sub(t0, p).node.level == 1
    ensures forall x :: x in c0 ==> x < n0
    ensures |Sub(t0, p).kids| + Fulls(Sub(t0, p).node.buffer, Sub(t0, p).kids, i) <= MAX_FANOUT ==>
              ValidPath(t, p) && |Sub(t, p).kids| == |Sub(t0, p).kids| + Fulls(Sub(t0, p).node.buffer, Sub(t0, p).kids, i)
  {
    hide Fulls;
    hide NewKid;
    hide FlushNode;
    hide Keeps;
    hide VersionOrder;
  }

  lemma TidyInner(c0: Store, t0: Tree, n0: NodeId, p: Path, c: Store, t: Tree, i: nat, done: seq<Tree>, next: NodeId, q: Path, d: Store, u: Tree, mid: seq<Tree>)
    requires Progress(c0, t0, n0, p, c, t, i) && Tidy(c0, t0, n0, p, c, t, i, done) && i < |Sub(t0, p).kids| && Holds(c, t, next)
    requires Sub(t0, p).node.level != 1 && BufferFull(Filled(Sub(t0, p).node.buffer, Sub(t0, p).kids, i)) && n0 <= next
    requires ValidPath(t, q) && Sub(t, q) == NewKid(Sub(t0, p), n0, i) && Flushed(c, t, next, q, d, u, mid)
    ensures Tidy(c0, t0, n0, p, d, u, i + 1, done + mid)
  {
    hide Progress;
    hide Holds;
    hide Laid;
    hide Warm;
    hide Emptied;
    hide NewKid;
    hide Filled;
    hide BufferFull;
    hide Hot;
    hide HotCount;
    hide Scattered;
    hide Stays;
    hide AfterFlush;
    var s := Sub(t0, p);
    ProgressFlushable(c0, t0, n0, p, c, t, i);
    ProgressHead(c0, t0, n0, p, c, t, i);
    ProgressFresh(c0, t0, n0, p, c, t, i);
    HoldsParts(c, t, next);
    LaidReplace(t0, p, n0, t, i, done, q, u, mid);
    WarmInner(t0, p, n0, t, i, q, u);
    EmptiedInner(c0, s, n0, c, d, i, next);
  }

  lemma ProgressFresh(c0: Store, t0: Tree, n0: NodeId, p: Path, c: Store, t: Tree, i: nat)
    requires Progress(c0, t0, n0, p, c, t, i)
    ensures (forall x :: x in c0 ==> x < n0) && ValidPath(t0, p) && Sub(t0, p).kids != [] && Distinct(FlushNode(Sub(t0, p), n0))
  {
    hide Fulls;
    hide NewKid;
    hide FlushNode;
    hide Keeps;
    hide VersionOrder;
    hide Distinct;
  }

  /**
   * A completed `do_flush` of the node at `p`: its buffer is empty if it is still cached; its leaves
   * have given way to `mid`, whose buffers are the merged ones, every full one cut in two; and if it
   * was a full node with none above or below it, the tree has exactly one full inner node less.
   */
  ghost predicate Flushed(c0: Store, t0: Tree, n0: NodeId, p: Path, c: Store, t: Tree, mid: seq<Tree>)
    requires ValidPath(t0, p)
  {
    var s := Sub(t0, p);
    && (s.node.id in c ==> c[s.node.id].buffer == [])
    && Leaves(t) == LeavesLeft(t0, p) + mid + LeavesRight(t0, p)
    && Bufs(mid) == AfterFlush(s.node.buffer, s.kids, |s.kids|)
    && (Scattered(t0) && Hot(s) ==> Scattered(t) && HotCount(t) + 1 == HotCount(t0))
    && Stays(c0, c, s, n0)
  }

  lemma TidyEnd(c0: Store, t0: Tree, n0: NodeId, p: Path, c: Store, t: Tree, mid: seq<Tree>)
    requires ValidPath(t0, p) && Tidy(c0, t0, n0, p, c, t, |Sub(t0, p).kids|, mid)
    ensures Flushed(c0, t0, n0, p, c, t, mid)
  {
    hide AfterFlush;
    hide Leaves;
    hide LeavesLeft;
    hide LeavesRight;
    hide Hot;
    hide HotCount;
    hide Scattered;
    hide CoolPath;
    hide Stays;
    hide Fulls;
    LaidEnd(t0, p, n0, t, mid);
  }
}
