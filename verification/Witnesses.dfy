/** Well-formed trees on which the flush thread's next round goes wrong. */
module Witnesses {
  import opened Types
  import opened Entries
  import opened TreeModel
  import opened TreeSplit
  import opened FlushLoop
  import opened WriteView
  import opened TreeStore

  // ----- a flush that finds its parent replaced -----

  const KEYS: seq<Key> := [[0], [1], [2], [3], [4], [5], [6], [7], [8], [9], [10], [11], [12], [13], [14], [15]]

  /** One byte short of a full buffer. */
  function Big(i: nat): Entry
    requires i < 16
  {
    Entry(KEYS[i], seq(BUFFER_THRESHOLD - 11, _ => 0), i + 1, false)
  }

  function Leaf(i: nat): Tree
    requires i < 16
  {
    Tree(SSTNode(i + 1, 0, [], KEYS[i], KEYS[i], [Big(i)]), [])
  }

  /** Sixteen leaves, none of them full. */
  function Kids(): (ks: seq<Tree>)
    ensures |ks| == 16 && forall i :: 0 <= i < 16 ==> ks[i] == Leaf(i)
  {
    seq(16, i requires 0 <= i < 16 => Leaf(i))
  }

  /** Two more entries, right after the first two leaves' own; together they fill the parent. */
  function Extra(i: nat): Entry
    requires i < 2
  {
    Entry(KEYS[i] + [0], seq(BUFFER_THRESHOLD / 2, _ => 0), i + 100, false)
  }

  const BUFFER: seq<Entry> := [Extra(0), Extra(1)]

  function FullParent(): Tree {
    Tree(SSTNode(17, 1, KidIds(Kids()), KEYS[0], KEYS[15], BUFFER), Kids())
  }

  lemma KeyStep(i: nat)
    requires i < 15
    ensures KeyLess(KEYS[i], KEYS[i + 1]) && |KEYS[i]| == 1
  {
    if i < 8 {
      assert i == 0 || i == 1 || i == 2 || i == 3 || i == 4 || i == 5 || i == 6 || i == 7;
    } else {
      assert i == 8 || i == 9 || i == 10 || i == 11 || i == 12 || i == 13 || i == 14;
    }
  }

  lemma {:induction false} KeysRise(i: nat, j: nat)
    requires i < j < 16
    ensures KeyLess(KEYS[i], KEYS[j])
    decreases j
  {
    KeyStep(j - 1);
    if i < j - 1 {
      KeysRise(i, j - 1);
      KeyLessTransitive(KEYS[i], KEYS[j - 1], KEYS[j]);
    }
  }

  lemma LeafGood(i: nat)
    requires i < 16
    ensures Good(Leaf(i)) && E(Leaf(i)) == [Big(i)]
  {
    var t := Leaf(i);
    assert E(t) == t.node.buffer;
    KeyLessIrreflexive(KEYS[i]);
    assert Big(i) in E(t);
  }

  lemma KidsGood()
    ensures GoodKids(Kids(), 0)
  {
    var ks := Kids();
    forall i | 0 <= i < 16 ensures Good(ks[i]) && ks[i].node.level == 0 && E(ks[i]) == [Big(i)] { LeafGood(i); }
    forall j | 0 < j < 16
      ensures AtLeast(E(ks[j]), ks[j].node.minKey)
      ensures forall i :: 0 <= i < j ==> Below(E(ks[i]), ks[j].node.minKey)
    {
      KeyLessIrreflexive(KEYS[j]);
      forall i | 0 <= i < j ensures Below(E(ks[i]), ks[j].node.minKey) { KeysRise(i, j); }
    }
  }

  /** The extra entry `i` sorts right after `KEYS[i]` and below every later key. */
  lemma ExtraPlace(i: nat)
    requires i < 2
    ensures KeyLess(KEYS[i], Extra(i).key) && !KeyLess(Extra(i).key, KEYS[i])
    ensures forall j :: i < j < 16 ==> KeyLess(Extra(i).key, KEYS[j])
  {
    KeyOrder();
    assert KeyLess(Extra(i).key, KEYS[i + 1]) by { assert i == 0 || i == 1; }
    assert KeyLess(KEYS[i], Extra(i).key) by { assert i == 0 || i == 1; }
    forall j | i < j < 16 ensures KeyLess(Extra(i).key, KEYS[j]) {
      if j > i + 1 { KeysRise(i + 1, j); }
    }
  }

  lemma BufferSorted()
    ensures Sorted(BUFFER) && StableSort(BUFFER) == BUFFER
  {
    KeyOrder();
    ExtraPlace(0);
    ExtraPlace(1);
    assert KeyLess(Extra(0).key, KEYS[1]);
    StableSortOfSorted(BUFFER);
  }

  lemma ExtraRoutes(i: nat)
    requires i < 2
    ensures Route(KidMins(Kids()), Extra(i).key) == i
  {
    var mins := KidMins(Kids());
    ExtraPlace(i);
    assert Covers(mins, Extra(i).key, i);
    ScanDownCovers(mins, Extra(i).key, |mins|);
    CoversUnique(mins, Extra(i).key, i, Route(mins, Extra(i).key));
  }

  lemma TwoBuckets(i: nat)
    requires i < 2
    ensures Bucket(StableSort(BUFFER), KidMins(Kids()), i) == [Extra(i)]
  {
    var mins := KidMins(Kids());
    BufferSorted();
    ExtraRoutes(0);
    ExtraRoutes(1);
    assert BUFFER[1..] == [Extra(1)] && BUFFER[1..][1..] == [];
  }

  lemma LeafFills(i: nat)
    requires i < 2
    ensures BufferFull(Filled(BUFFER, Kids(), i)) && !BufferFull(Leaf(i).node.buffer)
  {
    var x, b := Extra(i), Big(i);
    TwoBuckets(i);
    ExtraPlace(i);
    assert Merge([x], [b]) == [b] + Merge([x], []);
    assert [b] + [x] == [b, x];
    SortBufferOfStrict([b, x]);
    assert [b, x][1..] == [x] && [x][1..] == [] && [b][1..] == [];
    assert Bytes([x]) == EntryBytes(x) && Bytes([b]) == EntryBytes(b) && Bytes([b, x]) == EntryBytes(b) + Bytes([x]);
    assert |KEYS[i]| == 1;
  }

  /** The node cache of that tree. */
  function FullCache(): Store {
    map x: NodeId | 1 <= x <= 17 :: NodeAt(x)
  }

  function NodeAt(x: NodeId): SSTNode
    requires 1 <= x <= 17
  {
    if x == 17 then FullParent().node else Leaf(x - 1).node
  }

  lemma {:induction false} LeavesCount(n: nat, x: NodeId)
    requires n <= 16
    ensures CountKids(Kids()[..n], x) == if 1 <= x <= n then 1 else 0
  {
    if n > 0 {
      LeavesCount(n - 1, x);
      assert Kids()[..n] == Kids()[..n - 1] + [Leaf(n - 1)];
      CountAppend(Kids()[..n - 1], [Leaf(n - 1)], x);
      assert CountKids([Leaf(n - 1)], x) == Count(Leaf(n - 1), x) + CountKids([], x);
    }
  }

  lemma CacheHolds()
    requires RootOk(FullParent())
    ensures Holds(FullCache(), FullParent(), 18)
  {
    hide RootOk;
    var t := FullParent();
    forall x: NodeId ensures Count(t, x) == if 1 <= x <= 17 then 1 else 0 {
      LeavesCount(16, x);
      assert Kids()[..16] == Kids();
    }
    forall i | 0 <= i < 16 ensures Rep(FullCache(), t.kids[i]) { assert t.kids[i] == Leaf(i); }
  }

  lemma Stored(e: Entry)
    requires e in E(FullParent())
    ensures e == Extra(0) || e == Extra(1) || exists i :: 0 <= i < 16 && e == Big(i)
  {
    if e !in BUFFER {
      EKidsMember(Kids(), e);
      var i :| 0 <= i < 16 && e in E(Kids()[i]);
      LeafGood(i);
    }
  }

  lemma ParentOrdered()
    ensures VersionOrder(FullParent())
  {
    var t := FullParent();
    forall e, f | e in BUFFER && f in EKids(t.kids) ensures e.key != f.key {
      EKidsMember(Kids(), f);
      var i :| 0 <= i < 16 && f in E(Kids()[i]);
      LeafGood(i);
      OneByte(i);
      OneByte(0);
      OneByte(1);
      assert |e.key| == 2 && |f.key| == 1;
    }
    forall i | 0 <= i < 16 ensures VersionOrder(t.kids[i]) { assert t.kids[i] == Leaf(i); }
  }

  lemma ParentSmall()
    ensures Small(E(FullParent())) && Before(E(FullParent()), 102)
  {
    forall e | e in E(FullParent()) ensures EntryBytes(e) < BUFFER_THRESHOLD && e.seqNo < 102 {
      Stored(e);
      OneByte(0);
      OneByte(1);
      if i :| 0 <= i < 16 && e == Big(i) { OneByte(i); }
    }
  }

  /**
   * A state in which everything that a round of the flush thread asks for holds: the tree is
   * well-formed and cached under distinct ids, versions are ordered, entries are small and are what
   * a session has written.  The round fails on it.
   */
  lemma FlushFails() returns (last: Writes)
    ensures RootOk(FullParent()) && Holds(FullCache(), FullParent(), 18) && VersionOrder(FullParent())
    ensures Small(E(FullParent())) && Current([], E(FullParent()), 102, last)
    ensures !Straddles(FullParent(), []) && Jams(FullParent(), [])
  {
    ParentOk();
    CacheHolds();
    ParentOrdered();
    ParentSmall();
    ParentJams();
    last := CurrentExists(E(FullParent()), 102);
  }

  lemma ParentOk()
    ensures RootOk(FullParent())
  {
    hide GoodKids;
    KidsGood();
    BufferSorted();
  }

  lemma ParentJams()
    ensures !Straddles(FullParent(), []) && Jams(FullParent(), [])
  {
    hide Filled;
    hide BufferFull;
    hide Fulls;
    BufferSorted();
    RootFull();
    assert BUFFER + [] == BUFFER;
    TwoFull();
  }

  lemma OneByte(i: nat)
    requires i < 16
    ensures |KEYS[i]| == 1
  {
    if i < 15 { KeyStep(i); }
  }

  lemma RootFull()
    ensures BufferFull(BUFFER)
  {
    assert BUFFER[1..] == [Extra(1)] && [Extra(1)][1..] == [];
    assert Bytes([Extra(1)]) == EntryBytes(Extra(1)) && Bytes(BUFFER) == EntryBytes(Extra(0)) + Bytes([Extra(1)]);
  }

  lemma TwoFull()
    ensures Fulls(BUFFER, Kids(), 16) >= 2
  {
    hide Filled;
    hide BufferFull;
    LeafFills(0);
    LeafFills(1);
    hide Kids;
    FullsMonotone(BUFFER, Kids(), 0, 1);
    FullsMonotone(BUFFER, Kids(), 1, 2);
    FullsGrow(BUFFER, Kids(), 2, 16);
  }

  lemma {:induction false} FullsGrow(buffer: seq<Entry>, kids: seq<Tree>, i: nat, n: nat)
    requires i <= n <= |kids|
    ensures Fulls(buffer, kids, i) <= Fulls(buffer, kids, n)
  {
    hide Filled;
    if i < n { FullsGrow(buffer, kids, i, n - 1); }
  }

  // ----- a root split inside a key -----

  /** Two versions of one key, together a full buffer. */
  function Version(n: nat): Entry
    requires n < 10
  {
    Entry([7], seq(BUFFER_THRESHOLD / 2, _ => 0), n, false)
  }

  function TwoVersions(): Tree {
    Tree(SSTNode(1, 0, [], [], [], [Version(2), Version(1)]), [])
  }

  lemma TwoVersionsSorted()
    ensures Sorted(TwoVersions().node.buffer) && StableSort(TwoVersions().node.buffer) == TwoVersions().node.buffer
  {
    StableSortOfSorted(TwoVersions().node.buffer);
  }

  /** Once the root is split, the older version is what a read returns. */
  lemma SplitGoesStale(next: NodeId)
    ensures RootOk(TwoVersions()) && Straddles(TwoVersions(), [])
    ensures var t := NewRoot(LeftLeaf(TwoVersions(), next), RightLeaf(TwoVersions(), next), next + 2);
            Lookup(t, [7]).Some? && Best(E(TwoVersions()), [7]).Some?
            && Lookup(t, [7]).value.seqNo < Best(E(TwoVersions()), [7]).value.seqNo
  {
    var leaf := TwoVersions();
    var b := leaf.node.buffer;
    TwoVersionsSorted();
    assert b + [] == b && E(leaf) == b;
    assert Bytes(b) == EntryBytes(b[0]) + Bytes(b[1..]) && Bytes(b[1..]) == EntryBytes(b[1]) + Bytes(b[1..][1..]);
    StaleAfterSplit(leaf, next);
  }

  // ----- a write after reopening -----

  /** A root that holds a key under number 5. */
  function OldSession(): Tree {
    Tree(SSTNode(1, 0, [], [7], [7], [Entry([7], [1], 5, false)]), [])
  }

  /** The first write of the next session is numbered 1: once merged, reads return the old value. */
  lemma ReopenedWriteLost()
    ensures RootOk(OldSession()) && VersionOrder(OldSession())
    ensures Answer(Lookup(Drained(OldSession(), [Entry([7], [2], 1, false)]), [7])) == Some([1])
  {
    hide StableSort;
    var t, f := OldSession(), Entry([7], [2], 1, false);
    var b := t.node.buffer;
    assert Best(b, [7]) == Newer(Hit(b[0], [7]), Best(b[1..], [7]));
    assert Best([f], [7]) == Newer(Hit(f, [7]), Best([f][1..], [7]));
    StableSortFacts(b + [f]);
    NodeGetIsBest(Drained(t, [f]).node.buffer, [7]);
    BestAppend(b, [f], [7]);
  }
}
