/** Write buffer and tree together: the newest write of every key, and what draining keeps. */
module WriteView {
  import opened Types
  import opened Entries
  import opened TreeModel
  import opened TreeSplit
  import opened TreeStore
  import opened FlushLoop
  import opened FlushLeaves
  import opened FlushHot
  import opened FlushTidy
  import opened TreeShape
  import opened SplitStore

  /** The newest write of each key, by key. */
  type Writes = map<Key, Entry>

  function Latest(last: Writes, k: Key): Option<Entry> {
    if k in last then Some(last[k]) else None
  }

  /** What a read returns: the value of the newest write, or nothing if that was a delete or never happened. */
  function Answer(e: Option<Entry>): Option<Value> {
    if e.Some? && !e.value.deleted then Some(e.value.value) else None
  }

  ghost predicate Before(s: seq<Entry>, next: nat) {
    forall e :: e in s ==> e.seqNo < next
  }

  /** Everything in `w` is newer than everything in `s`. */
  ghost predicate Fresher(w: seq<Entry>, s: seq<Entry>) {
    forall e, f :: e in w && f in s ==> f.seqNo < e.seqNo
  }

  /** Buffer `w` over stored entries `s` shows exactly the newest writes. */
  ghost predicate Current(w: seq<Entry>, s: seq<Entry>, next: nat, last: Writes) {
    && Before(w, next) && Before(s, next) && Fresher(w, s)
    && forall k :: Best(w + s, k) == Latest(last, k)
  }

  lemma CurrentEmpty(next: nat)
    ensures Current([], [], next, map[])
  {
  }

  /** Any entries below the counter are what some session has written. */
  lemma CurrentExists(s: seq<Entry>, next: nat) returns (last: Writes)
    requires Before(s, next)
    ensures Current([], s, next, last)
  {
    var keys := set e | e in s :: e.key;
    last := map k | k in keys && Best(s, k).Some? :: Best(s, k).value;
    forall k ensures Best([] + s, k) == Latest(last, k) {
      assert [] + s == s;
      BestIsNewest(s, k);
      if Best(s, k).Some? { assert Best(s, k).value.key in keys; }
    }
  }

  lemma CurrentInsert(w: seq<Entry>, s: seq<Entry>, next: nat, last: Writes, e: Entry)
    requires Current(w, s, next, last) && Sorted(w) && e.seqNo == next
    ensures Current(InsertEntry(e, w), s, next + 1, last[e.key := e])
  {
    var v := InsertEntry(e, w);
    InsertEntryBag(e, w);
    SameElements(v, [e] + w);
    hide InsertEntry;
    hide Best;
    hide Sorted;
    forall k ensures Best(v + s, k) == Latest(last[e.key := e], k) { InsertView(w, s, next, e, k); }
  }

  lemma InsertView(w: seq<Entry>, s: seq<Entry>, next: nat, e: Entry, k: Key)
    requires Before(w, next) && Before(s, next) && Sorted(w) && e.seqNo == next
    ensures Best(InsertEntry(e, w) + s, k) == if k == e.key then Some(e) else Best(w + s, k)
  {
    hide InsertEntry;
    BestAppend(InsertEntry(e, w), s, k);
    BestAppend(w, s, k);
    InsertEntryBest(e, w, k);
    BestIsNewest(w, k);
    BestIsNewest(s, k);
  }

  lemma CurrentCompact(w: seq<Entry>, s: seq<Entry>, r: seq<Entry>, next: nat, last: Writes)
    requires Current(w, s, next, last) && Compacts(r, s)
    ensures Current(w, r, next, last)
  {
    SameViewAppend(w, w, r, s);
  }

  /** A hit in the buffer is the newest write; without one the newest write is in the tree. */
  lemma CurrentRead(w: seq<Entry>, s: seq<Entry>, next: nat, last: Writes, k: Key)
    requires Current(w, s, next, last)
    ensures Latest(last, k) == if Best(w, k).Some? then Best(w, k) else Best(s, k)
  {
    BestAppend(w, s, k);
    BestIsNewest(w, k);
    BestIsNewest(s, k);
  }

  // ----- draining into the root -----

  /** The root with the drained entries merged in. */
  function Drained(t: Tree, w: seq<Entry>): Tree {
    t.(node := t.node.(buffer := StableSort(t.node.buffer + w)))
  }

  lemma DrainHolds(c: Store, t: Tree, next: NodeId, w: seq<Entry>)
    requires Holds(c, t, next)
    ensures Holds(c[t.node.id := Drained(t, w).node], Drained(t, w), next)
    ensures t.node.id in c && c[t.node.id] == t.node && t.node.id < next
  {
    StableSortFacts(t.node.buffer + w);
    hide StableSort;
    RootChanged(c, t, next, Drained(t, w).node);
  }

  /** Another root node over the same children. */
  lemma RootChanged(c: Store, t: Tree, next: NodeId, n: SSTNode)
    requires Holds(c, t, next) && n.id == t.node.id && RootOk(t.(node := n))
    ensures Holds(c[n.id := n], t.(node := n), next)
    ensures n.id in c && c[n.id] == t.node
  {
    var d, u := c[n.id := n], t.(node := n);
    assert Count(t, n.id) >= 1;
    forall x: NodeId ensures Count(u, x) == Count(t, x) {}
    forall i | 0 <= i < |t.kids| ensures Rep(d, u.kids[i]) {
      assert Rep(c, t.kids[i]);
      forall x | x in c && Count(t.kids[i], x) > 0 ensures x in d && d[x] == c[x] {
        CountKid(t, i, x);
        assert Count(t, x) <= 1;
      }
      RepFrame(c, d, t.kids[i]);
    }
  }

  lemma DrainWithin(t: Tree, w: seq<Entry>, e: Entry)
    ensures e in E(Drained(t, w)) <==> e in w || e in E(t)
  {
    StableSortFacts(t.node.buffer + w);
  }

  lemma DrainBest(t: Tree, w: seq<Entry>, k: Key)
    requires Fresher(w, E(t))
    ensures Best(E(Drained(t, w)), k) == Best(w + E(t), k)
  {
    var b, r := t.node.buffer, EKids(t.kids);
    StableSortFacts(b + w);
    BestAppend(StableSort(b + w), r, k);
    BestAppend(b, w, k);
    BestAppend(w, E(t), k);
    BestAppend(b, r, k);
    BestIsNewest(w, k);
    BestIsNewest(b, k);
    BestIsNewest(r, k);
    assert forall e :: e in b || e in r ==> e in E(t);
  }

  lemma DrainVersions(t: Tree, w: seq<Entry>)
    requires VersionOrder(t) && Fresher(w, E(t))
    ensures VersionOrder(Drained(t, w))
  {
    StableSortFacts(t.node.buffer + w);
  }

  lemma CurrentDrain(w: seq<Entry>, t: Tree, next: nat, last: Writes)
    requires Current(w, E(t), next, last)
    ensures Current([], E(Drained(t, w)), next, last)
  {
    hide Drained;
    var s := E(Drained(t, w));
    forall e ensures e in s <==> e in w || e in E(t) { DrainWithin(t, w, e); }
    forall k ensures Best([] + s, k) == Latest(last, k) {
      assert [] + s == s;
      DrainBest(t, w, k);
    }
  }

  /**
   * A write merged into the root with an arbitrary number (late, or after the counter started over):
   * reads return it exactly if the root's buffer has no version numbered at least as high, and the
   * read is the highest-numbered version in the tree exactly if no higher one lies below the root.
   */
  lemma LateWriteExact(t: Tree, f: Entry)
    requires RootOk(t) && VersionOrder(t)
    ensures var d, k := Drained(t, [f]), f.key;
            var b, below := Best(t.node.buffer, k), Best(EKids(t.kids), k);
            && (Lookup(d, k) == Some(f) <==> b.None? || b.value.seqNo < f.seqNo || b.value == f)
            && (Lookup(d, k) == Best(E(d), k) <==> b.Some? || below.None? || below.value.seqNo <= f.seqNo)
  {
    var d, k := Drained(t, [f]), f.key;
    StableSortFacts(t.node.buffer + [f]);
    NodeGetIsBest(d.node.buffer, k);
    BestAppend(t.node.buffer, [f], k);
    BestAppend(d.node.buffer, EKids(t.kids), k);
    BestIsNewest(t.node.buffer, k);
    BestIsNewest(EKids(t.kids), k);
    assert Best([f], k) == Newer(Hit(f, k), Best([], k));
  }

  lemma DrainOrdered(w: seq<Entry>, t: Tree, next: nat, last: Writes)
    requires Current(w, E(t), next, last) && VersionOrder(t)
    ensures VersionOrder(Drained(t, w))
  {
    hide VersionOrder;
    hide Drained;
    DrainVersions(t, w);
  }

  /** An empty root buffer after the drain was empty before, and nothing was drained. */
  lemma DrainNothing(t: Tree, w: seq<Entry>)
    ensures Drained(t, w).node.buffer == [] ==> t.node.buffer == [] && w == [] && Drained(t, w) == t
  {
    StableSortFacts(t.node.buffer + w);
    if Drained(t, w).node.buffer == [] { assert |t.node.buffer + w| == 0; }
  }

  // ----- persisting the root -----

  function Persisted(t: Tree): Tree {
    t.(node := FlushToDisk(t.node))
  }

  lemma PersistHolds(c: Store, t: Tree, next: NodeId)
    requires Holds(c, t, next)
    ensures Holds(c[t.node.id := Persisted(t).node], Persisted(t), next) && Persisted(t).node.id == t.node.id
  {
    SortBufferFacts(t.node.buffer);
    hide SortBuffer;
    RootChanged(c, t, next, Persisted(t).node);
  }

  lemma PersistKeeps(t: Tree)
    ensures Compacts(E(Persisted(t)), E(t)) && (VersionOrder(t) ==> VersionOrder(Persisted(t)))
  {
    SortBufferFacts(t.node.buffer);
    hide SortBuffer;
    SameViewAppend(Persisted(t).node.buffer, t.node.buffer, EKids(t.kids), EKids(t.kids));
  }

  // ----- when a round of the flush thread goes wrong -----

  /** The root is a leaf that has to be split, and a key straddles the cut. */
  predicate Straddles(t: Tree, w: seq<Entry>) {
    var b := Drained(t, w).node.buffer;
    t.kids == [] && BufferFull(b) && !CleanCut(b)
  }

  /** The root has to be flushed, and the flush meets a parent that is gone. */
  predicate Jams(t: Tree, w: seq<Entry>) {
    var b := Drained(t, w).node.buffer;
    t.kids != [] && BufferFull(b) && Stuck(b, t.kids)
  }

  lemma RoundParts(t: Tree, w: seq<Entry>)
    ensures Drained(t, w).kids == t.kids
    ensures var b := Drained(t, w).node.buffer;
            && (Straddles(t, w) <==> t.kids == [] && BufferFull(b) && !CleanCut(b))
            && (Jams(t, w) <==> t.kids != [] && BufferFull(b) && Stuck(b, t.kids))
  {
  }

  lemma RootLeafCuts(t: Tree)
    requires RootOk(t) && t.kids == [] && CleanCut(t.node.buffer)
    ensures t.node.level == 0 && StableSort(t.node.buffer) == t.node.buffer
  {
    StableSortOfSorted(t.node.buffer);
  }

  lemma RootShape(c: Store, t: Tree, next: NodeId)
    requires Holds(c, t, next)
    ensures t.node.id in c && c[t.node.id] == t.node && t.node.id < next
    ensures t.node.childIds == KidIds(t.kids) && (t.node.level == 0 <==> t.kids == [])
  {
  }

  // ----- small entries stay small -----

  lemma SmallInsert(w: seq<Entry>, e: Entry)
    requires Small(w) && EntryBytes(e) < BUFFER_THRESHOLD
    ensures Small(InsertEntry(e, w))
  {
    InsertEntryBag(e, w);
    SameElements(InsertEntry(e, w), [e] + w);
  }

  lemma SmallDrain(t: Tree, w: seq<Entry>)
    requires Small(w) && Small(E(t))
    ensures Small(E(Drained(t, w)))
  {
    hide Drained;
    forall e | e in E(Drained(t, w)) ensures EntryBytes(e) < BUFFER_THRESHOLD { DrainWithin(t, w, e); }
  }

  lemma SmallNothing()
    ensures Small([])
  {
  }

  lemma SmallCompact(r: seq<Entry>, s: seq<Entry>)
    requires Compacts(r, s)
    ensures Small(s) ==> Small(r)
  {
  }

  // ----- what a completed round has done -----

  /**
   * The tree after a round that found the root as `t`: unchanged if the root is not full; a full
   * leaf split in two under a new root; the leaves of a full inner root as a flush all the way down
   * leaves them.
   */
  ghost predicate RoundDone(t: Tree, next: NodeId, u: Tree) {
    if !BufferFull(t.node.buffer) then u == t
    else if t.kids == [] then u == SplitAt(t, [], next).0
    else Bufs(Leaves(u)) == AfterFlush(t.node.buffer, t.kids, |t.kids|)
  }

  /** The first split of a root leaf: one level, two leaves, each with one half of the sorted entries. */
  lemma RootSplitShape(t: Tree, next: NodeId)
    requires RootOk(t) && t.kids == []
    ensures var u, b := SplitAt(t, [], next).0, t.node.buffer;
            var h := |b| / 2;
            && u.node.level == 1 && |u.kids| == 2 && u.node.buffer == []
            && u.kids[0].kids == [] && u.kids[1].kids == []
            && u.kids[0].node.buffer == SortBuffer(b[..h]) && u.kids[1].node.buffer == SortBuffer(b[h..])
            && |b[..h]| <= |b[h..]| <= |b[..h]| + 1
  {
    StableSortOfSorted(t.node.buffer);
    SortBufferOfStrict([]);
    hide SortBuffer;
    hide StableSort;
  }

  lemma LeafRoundDone(t: Tree, next: NodeId)
    requires BufferFull(t.node.buffer) && t.kids == []
    ensures var u := SplitAt(t, [], next).0; RoundDone(t, next, u) && HotCount(u) == 0 && u.kids != []
  {
    hide BufferFull;
    hide LeftLeaf;
    hide RightLeaf;
    LeafIds(t, next);
    LeafCool(LeftLeaf(t, next));
    LeafCool(RightLeaf(t, next));
    RootGrown(t, LeftLeaf(t, next), RightLeaf(t, next), next + 2);
  }

  lemma InnerRoundDone(c: Store, t: Tree, next: NodeId, d: Store, u: Tree, m: NodeId, mid: seq<Tree>)
    requires BufferFull(t.node.buffer) && t.kids != [] && HotKids(t.kids) == 0 && Flushed(c, t, next, [], d, u, mid)
    requires Holds(c, t, next) && Holds(d, u, m)
    ensures RoundDone(t, next, u) && HotCount(u) == 0 && u.kids != []
  {
    hide BufferFull;
    hide AfterFlush;
    hide Holds;
    CoolIsScattered(t);
    assert Leaves(u) == mid;
    RootShape(d, u, m);
    RootShape(c, t, next);
    ManyLeaves(c, t, next, u, m, mid);
  }

  /** An inner root has at least two leaves, and a flush does not take any away. */
  lemma ManyLeaves(c: Store, t: Tree, next: NodeId, u: Tree, m: NodeId, mid: seq<Tree>)
    requires Holds(c, t, next) && t.kids != [] && Leaves(u) == mid && Bufs(mid) == AfterFlush(t.node.buffer, t.kids, |t.kids|)
    ensures u.kids != []
  {
    hide AfterFlush;
    HoldsParts(c, t, next);
    AfterLeafCount(t.node.buffer, t.kids, |t.kids|);
    assert t.kids[..|t.kids|] == t.kids;
    TwoLeaves(t);
  }

  lemma TwoLeaves(t: Tree)
    requires RootOk(t) && t.kids != []
    ensures |LeavesOf(t.kids)| >= 2
  {
    hide Good;
    hide Leaves;
    SomeLeaf(t.kids[0]);
    SomeLeaf(t.kids[1]);
    assert LeavesOf(t.kids) == Leaves(t.kids[0]) + LeavesOf(t.kids[1..]);
    assert LeavesOf(t.kids[1..]) == Leaves(t.kids[1]) + LeavesOf(t.kids[1..][1..]);
  }

  lemma CoolRoot(t: Tree)
    requires HotCount(t) == 0 && t.kids != []
    ensures !BufferFull(t.node.buffer) && HotKids(t.kids) == 0
  {
    hide BufferFull;
  }

  lemma QuietRound(t: Tree, next: NodeId)
    requires !BufferFull(t.node.buffer) && HotKids(t.kids) == 0
    ensures RoundDone(t, next, t) && HotCount(t) == 0
  {
    hide BufferFull;
  }
}
