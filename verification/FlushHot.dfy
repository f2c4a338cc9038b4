/** Full inner nodes: a completed do_flush removes exactly the one it was called for and leaves no new one. */
module FlushHot {
  import opened Types
  import opened Entries
  import opened TreeModel
  import opened TreeFlush
  import opened TreeSplit
  import opened SplitStore
  import opened FlushLoop

  /** An inner node whose buffer is due to be flushed. */
  predicate Hot(t: Tree) {
    t.kids != [] && BufferFull(t.node.buffer)
  }

  function HotCount(t: Tree): nat
    decreases t, 1
  {
    (if Hot(t) then 1 else 0) + HotKids(t.kids)
  }

  function HotKids(ks: seq<Tree>): nat
    decreases ks, 0
  {
    if ks == [] then 0 else HotCount(ks[0]) + HotKids(ks[1..])
  }

  /** No full inner node lies below another. */
  ghost predicate Scattered(t: Tree) {
    if Hot(t) then HotKids(t.kids) == 0 else forall i :: 0 <= i < |t.kids| ==> Scattered(t.kids[i])
  }

  /** Nothing strictly above the position is full. */
  ghost predicate CoolPath(t: Tree, p: Path)
    requires ValidPath(t, p)
  {
    p == [] || (!Hot(t) && CoolPath(t.kids[p[0]], p[1..]))
  }

  // ----- counting -----

  lemma {:induction false} HotAppend(a: seq<Tree>, b: seq<Tree>)
    ensures HotKids(a + b) == HotKids(a) + HotKids(b)
  {
    hide Hot;
    if a == [] {
      assert a + b == b;
    } else {
      HotAppend(a[1..], b);
      assert (a + b)[0] == a[0] && (a + b)[1..] == a[1..] + b;
    }
  }

  lemma HotAt(ks: seq<Tree>, i: nat)
    requires i < |ks|
    ensures HotKids(ks) == HotKids(ks[..i]) + HotCount(ks[i]) + HotKids(ks[i + 1..])
  {
    hide Hot;
    hide HotCount;
    assert ks == ks[..i] + ks[i..];
    HotAppend(ks[..i], ks[i..]);
    assert ks[i..][0] == ks[i] && ks[i..][1..] == ks[i + 1..];
  }

  lemma HotTwo(ks: seq<Tree>, i: nat, l: Tree, r: Tree)
    requires i < |ks|
    ensures HotKids(Two(ks, i, l, r)) == HotKids(ks) - HotCount(ks[i]) + HotCount(l) + HotCount(r)
  {
    hide HotCount;
    HotAt(ks, i);
    HotAppend(ks[..i], [l, r]);
    HotAppend(ks[..i] + [l, r], ks[i + 1..]);
    HotPair(l, r);
  }

  lemma HotPair(l: Tree, r: Tree)
    ensures HotKids([l, r]) == HotCount(l) + HotCount(r)
  {
    hide HotCount;
    HotAppend([l], [r]);
    assert [l] + [r] == [l, r];
    assert HotKids([l]) == HotCount(l) + HotKids([]);
    assert HotKids([r]) == HotCount(r) + HotKids([]);
  }

  lemma {:induction false} HotUpdate(t: Tree, p: Path, s: Tree)
    requires ValidPath(t, p)
    ensures HotCount(Sub(t, p)) <= HotCount(t)
    ensures HotCount(Update(t, p, s)) == HotCount(t) - HotCount(Sub(t, p)) + HotCount(s)
  {
    if p != [] {
      var c := Update(t.kids[p[0]], p[1..], s);
      var ks := t.kids[p[0] := c];
      HotUpdate(t.kids[p[0]], p[1..], s);
      HotAt(t.kids, p[0]);
      HotAt(ks, p[0]);
      assert ks[..p[0]] == t.kids[..p[0]] && ks[p[0] + 1..] == t.kids[p[0] + 1..];
    }
  }

  lemma KidCool(ks: seq<Tree>, i: nat)
    requires i < |ks| && HotKids(ks) == 0
    ensures HotCount(ks[i]) == 0 && HotKids(ks[i].kids) == 0 && !Hot(ks[i])
  {
    HotAt(ks, i);
  }

  lemma {:induction false} CoolIsScattered(t: Tree)
    requires HotKids(t.kids) == 0
    ensures Scattered(t)
  {
    if !Hot(t) {
      forall i | 0 <= i < |t.kids| ensures Scattered(t.kids[i]) {
        KidCool(t.kids, i);
        CoolIsScattered(t.kids[i]);
      }
    }
  }

  // ----- positions -----

  lemma {:induction false} HotPlace(t: Tree, p: Path)
    requires ValidPath(t, p) && Scattered(t) && Hot(Sub(t, p))
    ensures CoolPath(t, p) && HotKids(Sub(t, p).kids) == 0
  {
    if p != [] {
      if Hot(t) {
        KidCool(t.kids, p[0]);
        HotUpdate(t.kids[p[0]], p[1..], t);
      }
      HotPlace(t.kids[p[0]], p[1..]);
    }
  }

  lemma {:induction false} ApartUpdate(t: Tree, p: Path, s: Tree)
    requires ValidPath(t, p) && Scattered(t) && CoolPath(t, p) && Scattered(s)
    ensures Scattered(Update(t, p, s))
  {
    if p != [] {
      var c := Update(t.kids[p[0]], p[1..], s);
      ApartUpdate(t.kids[p[0]], p[1..], s);
      var u := t.(kids := t.kids[p[0] := c]);
      assert !Hot(u);
    }
  }

  lemma {:induction false} CoolUpdate(t: Tree, p: Path, s: Tree)
    requires ValidPath(t, p) && CoolPath(t, p)
    ensures ValidPath(Update(t, p, s), p) && CoolPath(Update(t, p, s), p)
  {
    if p != [] { CoolUpdate(t.kids[p[0]], p[1..], s); }
  }

  lemma {:induction false} CoolParent(t: Tree, p: Path)
    requires p != [] && ValidPath(t, p) && ValidPath(t, Parent(p)) && CoolPath(t, p)
    ensures CoolPath(t, Parent(p)) && !Hot(Sub(t, Parent(p)))
  {
    if |p| > 1 {
      assert Parent(p)[1..] == Parent(p[1..]);
      CoolParent(t.kids[p[0]], p[1..]);
    }
  }

  lemma {:induction false} CoolKid(t: Tree, p: Path, i: nat)
    requires ValidPath(t, p) && CoolPath(t, p) && !Hot(Sub(t, p)) && ValidPath(t, p + [i])
    ensures CoolPath(t, p + [i])
  {
    if p != [] {
      assert (p + [i])[1..] == p[1..] + [i];
      CoolKid(t.kids[p[0]], p[1..], i);
    }
  }

  lemma {:induction false} SubApart(t: Tree, p: Path)
    requires ValidPath(t, p) && Scattered(t) && CoolPath(t, p)
    ensures Scattered(Sub(t, p))
  {
    if p != [] { SubApart(t.kids[p[0]], p[1..]); }
  }

  // ----- splits do not fill a buffer -----

  lemma {:induction false} DivideBytes(s: seq<Entry>, m: Key)
    ensures Bytes(KeysBelow(s, m)) <= Bytes(s) && Bytes(KeysFrom(s, m)) <= Bytes(s)
  {
    if s != [] {
      DivideBytes(s[1..], m);
      BytesAppend([s[0]], KeysBelow(s[1..], m));
      BytesAppend([s[0]], KeysFrom(s[1..], m));
    }
  }

  lemma HalfCool(id: NodeId, level: nat, buffer: seq<Entry>, ks: seq<Tree>)
    requires ks != [] && !BufferFull(buffer)
    ensures !Hot(Half(id, level, buffer, ks)) && Half(id, level, buffer, ks).kids == ks
  {
    SortBufferBytes(buffer);
    SortBufferBytes(SortBuffer(buffer));
    hide SortBuffer;
  }

  lemma AdoptCool(q: Tree, i: nat, l: Tree, r: Tree)
    requires i < |q.kids| && !Hot(q)
    ensures !Hot(Adopt(q, i, l, r)) && Adopt(q, i, l, r).kids == Two(q.kids, i, l, r)
    ensures HotCount(Adopt(q, i, l, r)) == HotCount(q) - HotCount(q.kids[i]) + HotCount(l) + HotCount(r)
  {
    SortBufferBytes(q.node.buffer);
    HotTwo(q.kids, i, l, r);
    hide SortBuffer;
    hide Bytes;
  }

  lemma HalvesCool(q: Tree, i: nat, l: Tree, r: Tree, next: NodeId)
    requires i < |q.kids| && !Hot(q)
    ensures var a, b := LeftHalf(q, i, l, r, next), RightHalf(q, i, l, r, next);
            && !Hot(a) && !Hot(b) && a.kids + b.kids == Two(q.kids, i, l, r)
            && HotCount(a) + HotCount(b) == HotCount(q) - HotCount(q.kids[i]) + HotCount(l) + HotCount(r)
  {
    hide Half;
    hide KeysBelow;
    hide KeysFrom;
    hide Bytes;
    var ks := Two(q.kids, i, l, r);
    var h, m := |ks| / 2, ks[|ks| / 2].node.minKey;
    DivideBytes(q.node.buffer, m);
    HalfCool(next, q.node.level, KeysBelow(q.node.buffer, m), ks[..h]);
    HalfCool(next + 1, q.node.level, KeysFrom(q.node.buffer, m), ks[h..]);
    assert ks[..h] + ks[h..] == ks;
    HotAppend(ks[..h], ks[h..]);
    HotTwo(q.kids, i, l, r);
  }

  ghost predicate AllApart(ks: seq<Tree>) {
    forall i :: 0 <= i < |ks| ==> Scattered(ks[i])
  }

  lemma TwoApart(ks: seq<Tree>, i: nat, l: Tree, r: Tree)
    requires i < |ks| && AllApart(ks) && Scattered(l) && Scattered(r)
    ensures AllApart(Two(ks, i, l, r))
  {
    hide Scattered;
    var ls := Two(ks, i, l, r);
    forall j | 0 <= j < |ls| ensures Scattered(ls[j]) {
      assert ls[j] == if j < i then ks[j] else if j == i then l else if j == i + 1 then r else ks[j - 1];
    }
  }

  lemma ApartParts(a: Tree, b: Tree, ks: seq<Tree>)
    requires !Hot(a) && !Hot(b) && a.kids + b.kids == ks && AllApart(ks)
    ensures Scattered(a) && Scattered(b)
  {
    hide Hot;
    forall i | 0 <= i < |a.kids| ensures Scattered(a.kids[i]) { assert a.kids[i] == ks[i]; }
    forall i | 0 <= i < |b.kids| ensures Scattered(b.kids[i]) { assert b.kids[i] == ks[|a.kids| + i]; }
  }

  /** The cascade above a cool position keeps the count, wherever it ends. */
  lemma {:induction false} HotInsertAt(t: Tree, p: Path, l: Tree, r: Tree, next: NodeId)
    requires ValidPath(t, p) && CoolPath(t, p) && Scattered(t) && Scattered(l) && Scattered(r)
    ensures HotCount(InsertAt(t, p, l, r, next).0) == HotCount(t) - HotCount(Sub(t, p)) + HotCount(l) + HotCount(r)
    ensures Scattered(InsertAt(t, p, l, r, next).0)
    decreases |p|
  {
    hide InsertAt;
    hide Hot;
    hide HotCount;
    hide Adopt;
    hide LeftHalf;
    hide RightHalf;
    hide NewRoot;
    if p == [] {
      RootGrown(t, l, r, next);
    } else {
      ParentPath(t, p);
      InsertAtStep(t, p, l, r, next);
      CoolParent(t, p);
      var q, i := Sub(t, Parent(p)), Last(p);
      SubApart(t, Parent(p));
      TwoApart(q.kids, i, l, r);
      if |q.kids| < MAX_FANOUT {
        AdoptCool(q, i, l, r);
        HotUpdate(t, Parent(p), Adopt(q, i, l, r));
        ApartUpdate(t, Parent(p), Adopt(q, i, l, r));
      } else {
        HalvesCool(q, i, l, r, next);
        ApartParts(LeftHalf(q, i, l, r, next), RightHalf(q, i, l, r, next), Two(q.kids, i, l, r));
        HotUpdate(t, Parent(p), t);
        InsertAtHot(t, p, l, r, next);
      }
    }
  }

  lemma InsertAtHot(t: Tree, p: Path, l: Tree, r: Tree, next: NodeId)
    requires p != [] && ValidPath(t, Parent(p)) && CoolPath(t, Parent(p)) && Scattered(t) && Last(p) < |Sub(t, Parent(p)).kids|
    requires var q, i := Sub(t, Parent(p)), Last(p);
             Scattered(LeftHalf(q, i, l, r, next)) && Scattered(RightHalf(q, i, l, r, next))
    ensures var q, i := Sub(t, Parent(p)), Last(p);
            var a, b := LeftHalf(q, i, l, r, next), RightHalf(q, i, l, r, next);
            && HotCount(InsertAt(t, Parent(p), a, b, next + 2).0) == HotCount(t) - HotCount(q) + HotCount(a) + HotCount(b)
            && Scattered(InsertAt(t, Parent(p), a, b, next + 2).0)
    decreases |p|, 0
  {
    var q, i := Sub(t, Parent(p)), Last(p);
    HotInsertAt(t, Parent(p), LeftHalf(q, i, l, r, next), RightHalf(q, i, l, r, next), next + 2);
  }

  lemma RootGrown(t: Tree, l: Tree, r: Tree, next: NodeId)
    requires Scattered(l) && Scattered(r)
    ensures var u := InsertAt(t, [], l, r, next).0;
            HotCount(u) == HotCount(l) + HotCount(r) && Scattered(u) && !Hot(u)
  {
    hide Half;
    HalfCool(next, l.node.level + 1, [], [l, r]);
    HotPair(l, r);
  }

  // ----- one flush -----

  lemma NewKidHot(s: Tree, next: NodeId, i: nat)
    requires Flushable(s) && i < |s.kids| && HotKids(s.kids) == 0
    ensures var k := NewKid(s, next, i);
            && HotCount(k) == (if s.node.level != 1 && BufferFull(Filled(s.node.buffer, s.kids, i)) then 1 else 0)
            && Scattered(k) && (Hot(k) <==> HotCount(k) == 1)
  {
    hide NewKid;
    hide Filled;
    hide BufferFull;
    NewKidBuffer(s, next, i);
    LeafHasNoKids(NewKid(s, next, i));
    KidCool(s.kids, i);
    CoolIsScattered(NewKid(s, next, i));
  }

  lemma {:induction false} NewKidsHot(s: Tree, next: NodeId, n: nat)
    requires Flushable(s) && n <= |s.kids| && HotKids(s.kids) == 0
    ensures HotKids(NewKids(s, next)[..n]) == if s.node.level == 1 then 0 else Fulls(s.node.buffer, s.kids, n)
  {
    hide NewKid;
    hide Filled;
    hide BufferFull;
    hide HotCount;
    hide Flushable;
    var ks := NewKids(s, next);
    if n > 0 {
      NewKidsHot(s, next, n - 1);
      NewKidHot(s, next, n - 1);
      assert ks[..n] == ks[..n - 1] + [ks[n - 1]];
      HotAppend(ks[..n - 1], [ks[n - 1]]);
      assert HotKids([ks[n - 1]]) == HotCount(ks[n - 1]) + HotKids([]);
    } else {
      assert ks[..0] == [];
    }
  }

  lemma FlushedHot(s: Tree, next: NodeId)
    requires Flushable(s) && HotKids(s.kids) == 0
    ensures var u := FlushNode(s, next);
            && !Hot(u) && Scattered(u)
            && HotCount(u) == if s.node.level == 1 then 0 else Fulls(s.node.buffer, s.kids, |s.kids|)
  {
    hide FlushNode;
    hide NewKid;
    hide Filled;
    hide Fulls;
    hide Flushable;
    hide Compacts;
    hide MinOk;
    hide Bytes;
    FlushNodeFacts(s, next);
    FlushedKids(s, next);
    NothingCool();
    NewKidsHot(s, next, |s.kids|);
    var ks := NewKids(s, next);
    assert ks[..|s.kids|] == ks;
    forall i | 0 <= i < |ks| ensures Scattered(ks[i]) { NewKidHot(s, next, i); }
  }

  lemma NothingCool()
    ensures !BufferFull([])
  {
  }

  lemma FlushedKids(s: Tree, next: NodeId)
    requires s.kids != []
    ensures FlushNode(s, next).kids == NewKids(s, next)
  {
    hide NewKid;
  }

  // ----- progress of the loop -----

  /**
   * If the flushed node was the full one on its way down, the full inner nodes are now those from
   * before without it, and the children that are still to be dealt with.
   */
  ghost predicate Warm(t0: Tree, p: Path, t: Tree, i: nat)
    requires ValidPath(t0, p) && i <= |Sub(t0, p).kids|
  {
    var s := Sub(t0, p);
    var f, g := Fulls(s.node.buffer, s.kids, i), Fulls(s.node.buffer, s.kids, |s.kids|);
    Scattered(t0) && Hot(s) ==>
      && Scattered(t) && HotCount(t) + 1 == HotCount(t0) + (if s.node.level == 1 then 0 else g - f)
      && (s.node.level == 1 && |s.kids| + f <= MAX_FANOUT && ValidPath(t, p) ==> CoolPath(t, p) && !Hot(Sub(t, p)))
  }

  lemma WarmStart(t0: Tree, p: Path, n0: NodeId)
    requires ValidPath(t0, p) && Flushable(Sub(t0, p))
    ensures Warm(t0, p, Update(t0, p, FlushNode(Sub(t0, p), n0)), 0)
  {
    hide FlushNode;
    hide Flushable;
    hide Filled;
    hide Fulls;
    var s := Sub(t0, p);
    if Scattered(t0) && Hot(s) {
      HotPlace(t0, p);
      FlushedHot(s, n0);
      NoFulls(s.node.buffer, s.kids);
      HotUpdate(t0, p, FlushNode(s, n0));
      ApartUpdate(t0, p, FlushNode(s, n0));
      CoolUpdate(t0, p, FlushNode(s, n0));
      SubOfUpdate(t0, p, FlushNode(s, n0));
    }
  }

  lemma NoFulls(buffer: seq<Entry>, kids: seq<Tree>)
    ensures Fulls(buffer, kids, 0) == 0
  {
  }

  lemma WarmSkip(t0: Tree, p: Path, t: Tree, i: nat)
    requires ValidPath(t0, p) && i < |Sub(t0, p).kids| && Warm(t0, p, t, i)
    requires !BufferFull(Filled(Sub(t0, p).node.buffer, Sub(t0, p).kids, i))
    ensures Warm(t0, p, t, i + 1)
  {
    hide Filled;
    hide BufferFull;
    hide Hot;
    hide HotCount;
    hide Scattered;
    hide CoolPath;
  }

  /** A leaf was split below its own, cool parent. */
  lemma WarmSplit(t0: Tree, p: Path, t: Tree, i: nat, j: nat, next: NodeId)
    requires ValidPath(t0, p) && i < |Sub(t0, p).kids| && Warm(t0, p, t, i) && Sub(t0, p).node.level == 1
    requires BufferFull(Filled(Sub(t0, p).node.buffer, Sub(t0, p).kids, i))
    requires |Sub(t0, p).kids| + Fulls(Sub(t0, p).node.buffer, Sub(t0, p).kids, i) <= MAX_FANOUT
    requires ValidPath(t, p) && j < |Sub(t, p).kids| && ValidPath(t, p + [j]) && Sub(t, p + [j]).kids == []
    requires |Sub(t, p).kids| == |Sub(t0, p).kids| + Fulls(Sub(t0, p).node.buffer, Sub(t0, p).kids, i)
    ensures Warm(t0, p, SplitAt(t, p + [j], next).0, i + 1)
  {
    hide Filled;
    hide BufferFull;
    hide Fulls;
    hide InsertAt;
    hide LeftLeaf;
    hide RightLeaf;
    hide Adopt;
    hide Hot;
    hide HotCount;
    hide Scattered;
    hide CoolPath;
    var s, q := Sub(t0, p), p + [j];
    FullsNext(s.node.buffer, s.kids, i);
    if Scattered(t0) && Hot(s) {
      var leaf := Sub(t, q);
      var l, r := LeftLeaf(leaf, next), RightLeaf(leaf, next);
      CoolKid(t, p, j);
      LeafIds(leaf, next);
      LeafCool(leaf);
      LeafCool(l);
      LeafCool(r);
      HotInsertAt(t, q, l, r, next + 2);
      if |Sub(t, p).kids| < MAX_FANOUT {
        assert Parent(q) == p && Last(q) == j;
        InsertAtStep(t, q, l, r, next + 2);
        AdoptCool(Sub(t, p), j, l, r);
        CoolUpdate(t, p, Adopt(Sub(t, p), j, l, r));
        SubOfUpdate(t, p, Adopt(Sub(t, p), j, l, r));
      }
    }
  }

  lemma LeafCool(t: Tree)
    requires t.kids == []
    ensures HotCount(t) == 0 && Scattered(t)
  {
  }

  /** A full child was flushed in turn. */
  lemma WarmInner(t0: Tree, p: Path, n0: NodeId, t: Tree, i: nat, q: Path, u: Tree)
    requires ValidPath(t0, p) && Flushable(Sub(t0, p)) && i < |Sub(t0, p).kids| && Warm(t0, p, t, i) && Sub(t0, p).node.level != 1
    requires BufferFull(Filled(Sub(t0, p).node.buffer, Sub(t0, p).kids, i))
    requires ValidPath(t, q) && Sub(t, q) == NewKid(Sub(t0, p), n0, i)
    requires Scattered(t) && Hot(Sub(t, q)) ==> Scattered(u) && HotCount(u) + 1 == HotCount(t)
    ensures Warm(t0, p, u, i + 1)
  {
    hide Filled;
    hide BufferFull;
    hide Fulls;
    hide NewKid;
    hide Hot;
    hide HotCount;
    hide Scattered;
    hide CoolPath;
    var s := Sub(t0, p);
    FullsNext(s.node.buffer, s.kids, i);
    if Scattered(t0) && Hot(s) {
      HotPlace(t0, p);
      NewKidHot(s, n0, i);
    }
  }
}
