/** What a completed do_flush has done to the leaves: each one that overflowed gave way to two. */
module FlushLeaves {
  import opened Types
  import opened Entries
  import opened TreeModel
  import opened TreeFlush
  import opened TreeSplit
  import opened TreeShape
  import opened TreeStore
  import opened FlushLoop

  function Bufs(ts: seq<Tree>): (r: seq<seq<Entry>>)
    ensures |r| == |ts| && forall i :: 0 <= i < |r| ==> r[i] == ts[i].node.buffer
  {
    seq(|ts|, i requires 0 <= i < |ts| => ts[i].node.buffer)
  }

  /** A leaf's buffer as it is, or its two halves if it is full. */
  function Cut(b: seq<Entry>): seq<seq<Entry>> {
    var s := StableSort(b);
    if BufferFull(b) then [SortBuffer(s[..|s| / 2]), SortBuffer(s[|s| / 2..])] else [b]
  }

  /** The leaf buffers below a child whose buffer has become `b`. */
  function AfterKid(b: seq<Entry>, kid: Tree): seq<seq<Entry>>
    decreases kid, 0
  {
    if kid.kids == [] then Cut(b)
    else if BufferFull(b) then AfterFlush(b, kid.kids, |kid.kids|)
    else Bufs(LeavesOf(kid.kids))
  }

  /** The leaf buffers below the first `n` children once a buffer has been flushed into them, all the way down. */
  function AfterFlush(buffer: seq<Entry>, kids: seq<Tree>, n: nat): seq<seq<Entry>>
    requires n <= |kids|
    decreases kids, n
  {
    if n == 0 then [] else AfterFlush(buffer, kids, n - 1) + AfterKid(Filled(buffer, kids, n - 1), kids[n - 1])
  }

  /** How many leaves are full after the merges. */
  function KidBursts(b: seq<Entry>, kid: Tree): nat
    decreases kid, 0
  {
    if !BufferFull(b) then 0 else if kid.kids == [] then 1 else Bursts(b, kid.kids, |kid.kids|)
  }

  function Bursts(buffer: seq<Entry>, kids: seq<Tree>, n: nat): nat
    requires n <= |kids|
    decreases kids, n
  {
    if n == 0 then 0 else Bursts(buffer, kids, n - 1) + KidBursts(Filled(buffer, kids, n - 1), kids[n - 1])
  }

  lemma {:induction false} KidLeafCount(b: seq<Entry>, kid: Tree)
    ensures |AfterKid(b, kid)| == |Leaves(kid)| + KidBursts(b, kid)
    decreases kid, 0
  {
    if kid.kids != [] && BufferFull(b) {
      AfterLeafCount(b, kid.kids, |kid.kids|);
      assert kid.kids[..|kid.kids|] == kid.kids;
    }
  }

  /** The number of leaves grows by exactly the number of leaves that were full. */
  lemma {:induction false} AfterLeafCount(buffer: seq<Entry>, kids: seq<Tree>, n: nat)
    requires n <= |kids|
    ensures |AfterFlush(buffer, kids, n)| == |LeavesOf(kids[..n])| + Bursts(buffer, kids, n)
    decreases kids, n
  {
    hide Filled;
    hide AfterKid;
    hide KidBursts;
    if n > 0 {
      AfterLeafCount(buffer, kids, n - 1);
      KidLeafCount(Filled(buffer, kids, n - 1), kids[n - 1]);
      LeavesLast(kids, n);
    }
  }

  lemma LeavesLast(kids: seq<Tree>, n: nat)
    requires 0 < n <= |kids|
    ensures LeavesOf(kids[..n]) == LeavesOf(kids[..n - 1]) + Leaves(kids[n - 1])
  {
    hide Leaves;
    assert kids[..n] == kids[..n - 1] + [kids[n - 1]];
    LeavesAppend(kids[..n - 1], [kids[n - 1]]);
    assert LeavesOf([kids[n - 1]]) == Leaves(kids[n - 1]) + LeavesOf([]);
  }

  // ----- a leaf's place is unique -----

  function IdHits(ts: seq<Tree>, x: NodeId): nat {
    if ts == [] then 0 else (if ts[0].node.id == x then 1 else 0) + IdHits(ts[1..], x)
  }

  lemma {:induction false} HitsAppend(a: seq<Tree>, b: seq<Tree>, x: NodeId)
    ensures IdHits(a + b, x) == IdHits(a, x) + IdHits(b, x)
  {
    if a == [] {
      assert a + b == b;
    } else {
      assert (a + b)[1..] == a[1..] + b;
      HitsAppend(a[1..], b, x);
    }
  }

  lemma {:induction false} LeafHits(t: Tree, x: NodeId)
    ensures IdHits(Leaves(t), x) <= Count(t, x)
    decreases t, 1
  {
    if t.kids == [] {
      assert Leaves(t)[1..] == [];
    } else {
      LeafHitsOf(t.kids, x);
    }
  }

  lemma {:induction false} LeafHitsOf(ks: seq<Tree>, x: NodeId)
    ensures IdHits(LeavesOf(ks), x) <= CountKids(ks, x)
    decreases ks, 0
  {
    if ks != [] {
      LeafHits(ks[0], x);
      LeafHitsOf(ks[1..], x);
      HitsAppend(Leaves(ks[0]), LeavesOf(ks[1..]), x);
    }
  }

  lemma {:induction false} HitAt(ts: seq<Tree>, i: nat)
    requires i < |ts|
    ensures IdHits(ts, ts[i].node.id) >= 1
  {
    if i > 0 { HitAt(ts[1..], i - 1); }
  }

  lemma TwoHits(ts: seq<Tree>, i: nat, j: nat)
    requires i < j < |ts| && ts[i].node.id == ts[j].node.id
    ensures IdHits(ts, ts[i].node.id) >= 2
  {
    assert ts == ts[..j] + ts[j..];
    HitsAppend(ts[..j], ts[j..], ts[i].node.id);
    HitAt(ts[..j], i);
    HitAt(ts[j..], 0);
  }

  /** The same run of leaves cannot stand at two places. */
  lemma SamePlace(t: Tree, a: seq<Tree>, x: seq<Tree>, b: seq<Tree>, c: seq<Tree>, d: seq<Tree>)
    requires Distinct(t) && x != [] && Leaves(t) == a + x + b == c + x + d
    ensures a == c && b == d
  {
    var ts, id := Leaves(t), x[0].node.id;
    assert ts[|a|] == x[0] && ts[|c|] == x[0];
    LeafHits(t, id);
    assert Count(t, id) <= 1;
    if |a| < |c| { TwoHits(ts, |a|, |c|); }
    if |c| < |a| { TwoHits(ts, |c|, |a|); }
    assert a == ts[..|a|] && c == ts[..|c|];
    assert b == ts[|a| + |x|..] && d == ts[|c| + |x|..];
  }

  lemma {:induction false} SomeLeaf(t: Tree)
    ensures Leaves(t) != []
    decreases t
  {
    if t.kids != [] { SomeLeaf(t.kids[0]); }
  }

  // ----- progress of the loop -----

  /** `done` are the leaves that stand for the first `i` children; everything else is in its old place. */
  ghost predicate Laid(t0: Tree, p: Path, n0: NodeId, t: Tree, i: nat, done: seq<Tree>)
    requires ValidPath(t0, p) && i <= |Sub(t0, p).kids|
  {
    && Leaves(t) == LeavesLeft(t0, p) + done + (LeavesOf(NewKids(Sub(t0, p), n0)[i..]) + LeavesRight(t0, p))
    && Bufs(done) == AfterFlush(Sub(t0, p).node.buffer, Sub(t0, p).kids, i)
  }

  lemma LaidStart(t0: Tree, p: Path, n0: NodeId)
    requires ValidPath(t0, p) && Sub(t0, p).kids != []
    ensures Laid(t0, p, n0, Update(t0, p, FlushNode(Sub(t0, p), n0)), 0, [])
  {
    var s := Sub(t0, p);
    UpdateLeaves(t0, p, FlushNode(s, n0));
    FlushedLeaves(s, n0);
    var ks := NewKids(s, n0);
    assert ks[0..] == ks;
    assert LeavesLeft(t0, p) + [] == LeavesLeft(t0, p);
    Assoc(LeavesLeft(t0, p), LeavesOf(ks), LeavesRight(t0, p));
  }

  lemma FlushedLeaves(s: Tree, n0: NodeId)
    requires s.kids != []
    ensures Leaves(FlushNode(s, n0)) == LeavesOf(NewKids(s, n0))
  {
    hide NewKid;
    hide FlushToDisk;
  }

  /** One child's leaves are replaced, wherever in the tree the child is by now. */
  lemma LaidReplace(t0: Tree, p: Path, n0: NodeId, t: Tree, i: nat, done: seq<Tree>, q: Path, u: Tree, mid: seq<Tree>)
    requires ValidPath(t0, p) && i < |Sub(t0, p).kids| && Laid(t0, p, n0, t, i, done) && Distinct(t)
    requires ValidPath(t, q) && Sub(t, q) == NewKid(Sub(t0, p), n0, i)
    requires Leaves(u) == LeavesLeft(t, q) + mid + LeavesRight(t, q)
    requires Bufs(mid) == AfterKid(Filled(Sub(t0, p).node.buffer, Sub(t0, p).kids, i), Sub(t0, p).kids[i])
    ensures Laid(t0, p, n0, u, i + 1, done + mid)
  {
    hide NewKid;
    hide Filled;
    hide AfterKid;
    hide Leaves;
    hide LeavesLeft;
    hide LeavesRight;
    hide Distinct;
    var s := Sub(t0, p);
    var ks := NewKids(s, n0);
    var k, l, r := ks[i], LeavesLeft(t0, p), LeavesRight(t0, p);
    var rest := LeavesOf(ks[i + 1..]);
    LeavesFrom(ks, i);
    assert LeavesOf(ks[i..]) + r == Leaves(k) + (rest + r) by { Assoc(Leaves(k), rest, r); }
    Assoc(l + done, Leaves(k), rest + r);
    SubLeaves(t, q);
    SomeLeaf(k);
    SamePlace(t, LeavesLeft(t, q), Leaves(k), LeavesRight(t, q), l + done, rest + r);
    Assoc(l, done, mid);
    BufsAppend(done, mid);
  }

  lemma SubLeaves(t: Tree, q: Path)
    requires ValidPath(t, q)
    ensures Leaves(t) == LeavesLeft(t, q) + Leaves(Sub(t, q)) + LeavesRight(t, q)
  {
    UpdateLeaves(t, q, Sub(t, q));
    UpdateSelf(t, q);
  }

  lemma LeavesFrom(ks: seq<Tree>, i: nat)
    requires i < |ks|
    ensures LeavesOf(ks[i..]) == Leaves(ks[i]) + LeavesOf(ks[i + 1..])
  {
    hide Leaves;
    assert ks[i..][0] == ks[i] && ks[i..][1..] == ks[i + 1..];
  }

  lemma BufsAppend(a: seq<Tree>, b: seq<Tree>)
    ensures Bufs(a + b) == Bufs(a) + Bufs(b)
  {
  }

  /** A child that did not overflow keeps its leaves. */
  lemma CalmKidLeaves(s: Tree, n0: NodeId, i: nat)
    requires Flushable(s) && i < |s.kids| && !BufferFull(Filled(s.node.buffer, s.kids, i))
    ensures Bufs(Leaves(NewKid(s, n0, i))) == AfterKid(Filled(s.node.buffer, s.kids, i), s.kids[i])
  {
    hide NewKid;
    hide Filled;
    hide BufferFull;
    NewKidBuffer(s, n0, i);
  }

  /** A leaf that overflowed was cut. */
  lemma BurstKidLeaves(s: Tree, n0: NodeId, i: nat, next: NodeId)
    requires Flushable(s) && i < |s.kids| && BufferFull(Filled(s.node.buffer, s.kids, i)) && s.kids[i].kids == []
    ensures var k := NewKid(s, n0, i);
            Bufs([LeftLeaf(k, next), RightLeaf(k, next)]) == AfterKid(Filled(s.node.buffer, s.kids, i), s.kids[i])
  {
    hide NewKid;
    hide Filled;
    hide BufferFull;
    hide StableSort;
    hide SortBuffer;
    NewKidBuffer(s, n0, i);
  }

  lemma LaidEnd(t0: Tree, p: Path, n0: NodeId, t: Tree, done: seq<Tree>)
    requires ValidPath(t0, p) && Laid(t0, p, n0, t, |Sub(t0, p).kids|, done)
    ensures Leaves(t) == LeavesLeft(t0, p) + done + LeavesRight(t0, p)
  {
    hide NewKid;
    var n := |Sub(t0, p).kids|;
    assert NewKids(Sub(t0, p), n0)[n..] == [];
    assert [] + LeavesRight(t0, p) == LeavesRight(t0, p);
  }
}
