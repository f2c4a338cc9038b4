/** Conservation without the routing invariants: flushes and splits of any tree keep the newest versions. */
module Conservation {
  import opened Types
  import opened Entries
  import opened TreeModel
  import opened TreeFlush
  import opened TreeSplit

  /** One sequence number, one entry. */
  ghost predicate Unique(s: seq<Entry>) {
    forall e, f :: e in s && f in s && e.seqNo == f.seqNo ==> e == f
  }

  /** `e` is the newest version of its key in `s`. */
  ghost predicate Top(e: Entry, s: seq<Entry>) {
    e in s && forall f :: f in s && f.key == e.key ==> f.seqNo <= e.seqNo
  }

  /** `b` holds nothing that `a` did not, and every newest version of `a`. */
  ghost predicate Preserves(b: seq<Entry>, a: seq<Entry>) {
    Within(b, a) && forall e :: Top(e, a) ==> e in b
  }

  /** All that conservation needs of a tree: sorted buffers. */
  ghost predicate Loose(t: Tree) {
    Sorted(t.node.buffer) && forall i :: 0 <= i < |t.kids| ==> Loose(t.kids[i])
  }

  ghost predicate AllLoose(ks: seq<Tree>) {
    forall i :: 0 <= i < |ks| ==> Loose(ks[i])
  }

  lemma TopIsBest(e: Entry, s: seq<Entry>)
    requires Unique(s) && Top(e, s)
    ensures Best(s, e.key) == Some(e)
  {
    BestIsNewest(s, e.key);
  }

  lemma TopWithin(e: Entry, a: seq<Entry>, b: seq<Entry>)
    requires Within(a, b) && e in a && Top(e, b)
    ensures Top(e, a)
  {
  }

  lemma PreservesSame(a: seq<Entry>)
    ensures Preserves(a, a)
  {
  }

  lemma PreservesTrans(c: seq<Entry>, b: seq<Entry>, a: seq<Entry>)
    requires Preserves(c, b) && Preserves(b, a)
    ensures Preserves(c, a)
  {
    forall e | Top(e, a) ensures e in c { TopWithin(e, b, a); }
  }

  /** Parts may be rewritten one by one. */
  lemma PreservesParts(b: seq<Entry>, a: seq<Entry>, d: seq<Entry>, c: seq<Entry>)
    requires Preserves(b, a) && Preserves(d, c)
    ensures Preserves(b + d, a + c)
  {
    forall e | Top(e, a + c) ensures e in b + d {
      if e in a { TopWithin(e, a, a + c); } else { TopWithin(e, c, a + c); }
    }
  }

  // ----- buffers -----

  lemma SortedPreserves(s: seq<Entry>)
    requires Unique(s)
    ensures Preserves(SortBuffer(s), s)
  {
    SortBufferFacts(s);
    hide SortBuffer;
    forall e | Top(e, s) ensures e in SortBuffer(s) {
      TopIsBest(e, s);
      BestIsNewest(SortBuffer(s), e.key);
    }
  }

  lemma MergePreserves(a: seq<Entry>, b: seq<Entry>)
    requires Sorted(a) && Sorted(b) && Unique(a + b)
    ensures Preserves(Merge(a, b), a + b)
  {
    MergeWithin(a, b);
    hide Merge;
    forall e | Top(e, a + b) ensures e in Merge(a, b) {
      TopIsBest(e, a + b);
      MergeBest(a, b, e.key);
      BestAppend(a, b, e.key);
      BestIsNewest(Merge(a, b), e.key);
    }
  }

  lemma UniqueWithin(a: seq<Entry>, b: seq<Entry>)
    requires Within(a, b) && Unique(b)
    ensures Unique(a)
  {
  }

  // ----- one flush -----

  lemma FlushKidBuffer(kid: Tree, bucket: seq<Entry>, id: NodeId)
    ensures var m := if bucket == [] then kid.node.buffer else SortBuffer(Merge(bucket, kid.node.buffer));
            FlushKid(kid, bucket, id).node.buffer == (if kid.kids == [] then m else SortBuffer(m))
    ensures FlushKid(kid, bucket, id).kids == kid.kids
  {
    hide SortBuffer;
    hide Merge;
  }

  lemma FlushKidPreserves(kid: Tree, bucket: seq<Entry>, id: NodeId)
    requires Loose(kid) && Sorted(bucket) && Unique(bucket + kid.node.buffer)
    ensures Preserves(FlushKid(kid, bucket, id).node.buffer, bucket + kid.node.buffer)
    ensures Loose(FlushKid(kid, bucket, id)) && FlushKid(kid, bucket, id).kids == kid.kids
  {
    hide FlushKid;
    hide SortBuffer;
    hide Merge;
    var a, g := bucket + kid.node.buffer, Merge(bucket, kid.node.buffer);
    FlushKidBuffer(kid, bucket, id);
    var m := if bucket == [] then kid.node.buffer else SortBuffer(g);
    if bucket == [] {
      assert a == m;
      PreservesSame(a);
    } else {
      MergePreserves(bucket, kid.node.buffer);
      UniqueWithin(g, a);
      SortedPreserves(g);
      PreservesTrans(m, g, a);
      SortBufferFacts(g);
    }
    UniqueWithin(m, a);
    SortedPreserves(m);
    PreservesTrans(SortBuffer(m), m, a);
    SortBufferFacts(m);
  }

  /** What child `i` is merged with. */
  lemma BucketPart(t: Tree, i: nat)
    requires i < |t.kids| && Unique(E(t))
    ensures Sorted(Buckets(t)[i]) && Within(Buckets(t)[i], t.node.buffer)
    ensures Within(Buckets(t)[i] + t.kids[i].node.buffer, E(t)) && Unique(Buckets(t)[i] + t.kids[i].node.buffer)
  {
    var s, mins := StableSort(t.node.buffer), KidMins(t.kids);
    StableSortFacts(t.node.buffer);
    BucketSorted(s, mins, i);
    forall e | e in Buckets(t)[i] ensures e in t.node.buffer { BucketMember(s, mins, i, e); }
    forall e | e in t.kids[i].node.buffer ensures e in E(t) { EKidsMember(t.kids, e); }
    UniqueWithin(Buckets(t)[i] + t.kids[i].node.buffer, E(t));
  }

  lemma NewKidPreserves(t: Tree, next: NodeId, i: nat)
    requires Loose(t) && Unique(E(t)) && i < |t.kids|
    ensures var b := Buckets(t)[i] + t.kids[i].node.buffer;
            Within(b, E(t)) && Preserves(NewKid(t, next, i).node.buffer, b)
    ensures Loose(NewKid(t, next, i)) && NewKid(t, next, i).kids == t.kids[i].kids
  {
    hide FlushKid;
    hide Bucket;
    hide StableSort;
    hide Sorted;
    hide Unique;
    hide Preserves;
    hide E;
    BucketPart(t, i);
    FlushKidPreserves(t.kids[i], Buckets(t)[i], next + Used(Buckets(t), i));
  }

  lemma InNewKid(t: Tree, next: NodeId, i: nat, e: Entry)
    requires Loose(t) && Unique(E(t)) && i < |t.kids| && Top(e, E(t)) && (e in Buckets(t)[i] || e in E(t.kids[i]))
    ensures e in E(NewKid(t, next, i))
  {
    hide NewKid;
    hide Loose;
    NewKidPreserves(t, next, i);
    var b := Buckets(t)[i] + t.kids[i].node.buffer;
    if e in b { TopWithin(e, b, E(t)); }
  }

  lemma BucketHas(t: Tree, e: Entry) returns (i: nat)
    requires t.kids != [] && e in t.node.buffer
    ensures i < |t.kids| && e in Buckets(t)[i]
  {
    var s, mins := StableSort(t.node.buffer), KidMins(t.kids);
    StableSortFacts(t.node.buffer);
    RouteInside(mins, e.key);
    i := Route(mins, e.key);
    BucketMember(s, mins, i, e);
  }

  /** A flush of any tree with sorted buffers, however its children are fenced. */
  lemma FlushPreserves(t: Tree, next: NodeId)
    requires Loose(t) && Unique(E(t)) && t.kids != []
    ensures Preserves(E(FlushNode(t, next)), E(t)) && Loose(FlushNode(t, next))
  {
    hide NewKid;
    hide Bucket;
    var ks := NewKids(t, next);
    SortBufferOfStrict([]);
    assert E(FlushNode(t, next)) == EKids(ks);
    forall e | Top(e, E(t)) ensures e in EKids(ks) {
      var i: nat;
      if e in t.node.buffer {
        i := BucketHas(t, e);
      } else {
        EKidsMember(t.kids, e);
        i :| 0 <= i < |t.kids| && e in E(t.kids[i]);
      }
      InNewKid(t, next, i, e);
      assert e in E(ks[i]);
      EKidsMember(ks, e);
    }
    forall e | e in EKids(ks) ensures e in E(t) {
      EKidsMember(ks, e);
      var i :| 0 <= i < |ks| && e in E(ks[i]);
      NewKidPreserves(t, next, i);
      EKidsMember(t.kids, e);
    }
    forall i | 0 <= i < |ks| ensures Loose(ks[i]) { NewKidPreserves(t, next, i); }
  }

  // ----- replacing a subtree -----

  lemma {:induction false} UpdatePreserves(t: Tree, p: Path, s: Tree)
    requires ValidPath(t, p) && Preserves(E(s), E(Sub(t, p)))
    ensures Preserves(E(Update(t, p, s)), E(t))
  {
    if p != [] {
      var i, c := p[0], Update(t.kids[p[0]], p[1..], s);
      var ks := t.kids[i := c];
      UpdatePreserves(t.kids[i], p[1..], s);
      EKidsAt(t.kids, i);
      EKidsAt(ks, i);
      assert ks[..i] == t.kids[..i] && ks[i + 1..] == t.kids[i + 1..];
      KidsPreserve(t.node.buffer, EKids(ks[..i]), E(c), E(t.kids[i]), EKids(ks[i + 1..]));
    }
  }

  lemma KidsPreserve(buffer: seq<Entry>, x: seq<Entry>, b: seq<Entry>, a: seq<Entry>, y: seq<Entry>)
    requires Preserves(b, a)
    ensures Preserves(buffer + (x + b + y), buffer + (x + a + y))
  {
    PreservesSame(x);
    PreservesSame(y);
    PreservesSame(buffer);
    PreservesParts(x, x, b, a);
    PreservesParts(x + b, x + a, y, y);
    PreservesParts(buffer, buffer, x + b + y, x + a + y);
  }

  lemma {:induction false} UpdateLoose(t: Tree, p: Path, s: Tree)
    requires ValidPath(t, p) && Loose(t) && Loose(s)
    ensures Loose(Update(t, p, s)) && Loose(Sub(t, p))
  {
    if p != [] { UpdateLoose(t.kids[p[0]], p[1..], s); }
  }

  // ----- splits, clean or not -----

  lemma LeafPreserves(leaf: Tree, next: NodeId)
    requires leaf.kids == [] && Unique(leaf.node.buffer)
    ensures Preserves(E(LeftLeaf(leaf, next)) + E(RightLeaf(leaf, next)), E(leaf))
    ensures Loose(LeftLeaf(leaf, next)) && Loose(RightLeaf(leaf, next))
  {
    hide StableSort;
    hide Create;
    hide Sorted;
    hide Loose;
    hide E;
    var s := StableSort(leaf.node.buffer);
    var h := |s| / 2;
    StableSortFacts(leaf.node.buffer);
    UniqueWithin(s[..h], leaf.node.buffer);
    UniqueWithin(s[h..], leaf.node.buffer);
    NewLeafPreserves(next, s[..h]);
    NewLeafPreserves(next + 1, s[h..]);
    var l, r := LeftLeaf(leaf, next), RightLeaf(leaf, next);
    PreservesParts(E(l), s[..h], E(r), s[h..]);
    assert s[..h] + s[h..] == s;
    PreservesTrans(E(l) + E(r), s, leaf.node.buffer);
    LeafEntries(leaf);
  }

  lemma LeafEntries(t: Tree)
    requires t.kids == []
    ensures E(t) == t.node.buffer
  {
  }

  lemma NewLeafPreserves(id: NodeId, s: seq<Entry>)
    requires Unique(s)
    ensures Preserves(E(Tree(Create(id, 0, s, []), [])), s) && Loose(Tree(Create(id, 0, s, []), []))
  {
    hide SortBuffer;
    hide Preserves;
    hide Unique;
    hide Sorted;
    SortedPreserves(s);
    SortBufferFacts(s);
    LeafEntries(Tree(Create(id, 0, s, []), []));
  }

  lemma TwoPreserves(ks: seq<Tree>, i: nat, l: Tree, r: Tree)
    requires i < |ks| && Preserves(E(l) + E(r), E(ks[i]))
    ensures Preserves(EKids(Two(ks, i, l, r)), EKids(ks))
  {
    EKidsAt(ks, i);
    EKidsTwo(ks, i, l, r);
    KidsPreserve([], EKids(ks[..i]), E(l) + E(r), E(ks[i]), EKids(ks[i + 1..]));
    assert [] + EKids(ks) == EKids(ks) && [] + EKids(Two(ks, i, l, r)) == EKids(Two(ks, i, l, r));
  }

  lemma TwoLoose(ks: seq<Tree>, i: nat, l: Tree, r: Tree)
    requires i < |ks| && AllLoose(ks) && Loose(l) && Loose(r)
    ensures AllLoose(Two(ks, i, l, r))
  {
    hide Loose;
    var ls := Two(ks, i, l, r);
    forall j | 0 <= j < |ls| ensures Loose(ls[j]) {
      assert ls[j] == if j < i then ks[j] else if j == i then l else if j == i + 1 then r else ks[j - 1];
    }
  }

  lemma AdoptPreserves(q: Tree, i: nat, l: Tree, r: Tree)
    requires i < |q.kids| && Loose(q) && Unique(q.node.buffer) && Loose(l) && Loose(r) && Preserves(E(l) + E(r), E(q.kids[i]))
    ensures Preserves(E(Adopt(q, i, l, r)), E(q)) && Loose(Adopt(q, i, l, r))
  {
    var ks := Two(q.kids, i, l, r);
    TwoPreserves(q.kids, i, l, r);
    TwoLoose(q.kids, i, l, r);
    SortedPreserves(q.node.buffer);
    SortBufferFacts(q.node.buffer);
    hide SortBuffer;
    PreservesParts(SortBuffer(q.node.buffer), q.node.buffer, EKids(ks), EKids(q.kids));
  }

  lemma HalfForm(id: NodeId, level: nat, buffer: seq<Entry>, ks: seq<Tree>)
    requires ks != [] && AllLoose(ks) && Unique(buffer)
    ensures var t := Half(id, level, buffer, ks);
            t.kids == ks && Preserves(t.node.buffer, buffer) && Loose(t)
  {
    SortedPreserves(buffer);
    SortBufferFacts(buffer);
    SortBufferOfStrict(SortBuffer(buffer));
    hide SortBuffer;
  }

  /** Dividing a buffer at any fence loses nothing. */
  lemma DividePreserves(s: seq<Entry>, m: Key)
    ensures Preserves(KeysBelow(s, m) + KeysFrom(s, m), s) && Within(KeysBelow(s, m), s) && Within(KeysFrom(s, m), s)
  {
    forall e ensures e in KeysBelow(s, m) || e in KeysFrom(s, m) <==> e in s { KeysBelowMember(s, m, e); }
  }

  lemma HalvesPreserve(n: SSTNode, ks: seq<Tree>, next: NodeId)
    requires |ks| >= 2 && AllLoose(ks) && Unique(n.buffer)
    ensures var l, r := LeftOf(n, ks, next), RightOf(n, ks, next);
            Preserves(E(l) + E(r), n.buffer + EKids(ks)) && Loose(l) && Loose(r)
  {
    hide KeysBelow;
    hide KeysFrom;
    hide Half;
    var h, m := |ks| / 2, ks[|ks| / 2].node.minKey;
    var b, f := KeysBelow(n.buffer, m), KeysFrom(n.buffer, m);
    DividePreserves(n.buffer, m);
    UniqueWithin(b, n.buffer);
    UniqueWithin(f, n.buffer);
    HalfForm(next, n.level, b, ks[..h]);
    HalfForm(next + 1, n.level, f, ks[h..]);
    var l, r := LeftOf(n, ks, next), RightOf(n, ks, next);
    assert ks == ks[..h] + ks[h..];
    EKidsAppend(ks[..h], ks[h..]);
    SidesPreserve(l, r, b, f, n.buffer, EKids(ks[..h]), EKids(ks[h..]));
  }

  lemma SidesPreserve(l: Tree, r: Tree, b: seq<Entry>, f: seq<Entry>, s: seq<Entry>, x: seq<Entry>, y: seq<Entry>)
    requires Preserves(l.node.buffer, b) && Preserves(r.node.buffer, f) && Preserves(b + f, s)
    requires EKids(l.kids) == x && EKids(r.kids) == y
    ensures Preserves(E(l) + E(r), s + (x + y))
  {
    var all := s + (x + y);
    forall e | Top(e, all) ensures e in E(l) + E(r) {
      if e in s {
        TopWithin(e, s, all);
        assert e in b + f;
        if e in b { TopWithin(e, b, all); } else { TopWithin(e, f, all); }
      }
    }
  }

  /** The upward cascade, whatever the halves' keys are. */
  lemma {:induction false} InsertAtPreserves(t: Tree, p: Path, l: Tree, r: Tree, next: NodeId)
    requires ValidPath(t, p) && Loose(t) && Unique(E(t)) && Loose(l) && Loose(r) && Preserves(E(l) + E(r), E(Sub(t, p)))
    ensures Preserves(E(InsertAt(t, p, l, r, next).0), E(t)) && Loose(InsertAt(t, p, l, r, next).0)
    decreases |p|
  {
    hide InsertAt;
    hide Loose;
    hide Preserves;
    hide Unique;
    hide E;
    hide Adopt;
    hide LeftHalf;
    hide RightHalf;
    hide NewRoot;
    if p == [] {
      InsertAtRoot(t, l, r, next);
      NewRootPreserves(l, r, next);
    } else {
      ParentPath(t, p);
      InsertAtStep(t, p, l, r, next);
      var q, i := Sub(t, Parent(p)), Last(p);
      UpdateLoose(t, Parent(p), t);
      UniqueBuffer(t, Parent(p));
      if |q.kids| < MAX_FANOUT {
        AdoptPreserves(q, i, l, r);
        UpdatePreserves(t, Parent(p), Adopt(q, i, l, r));
        UpdateLoose(t, Parent(p), Adopt(q, i, l, r));
      } else {
        SplitPreserves(q, i, l, r, next);
        InsertAtPreserves(t, Parent(p), LeftHalf(q, i, l, r, next), RightHalf(q, i, l, r, next), next + 2);
      }
    }
  }

  lemma InsertAtRoot(t: Tree, l: Tree, r: Tree, next: NodeId)
    ensures InsertAt(t, [], l, r, next).0 == NewRoot(l, r, next)
  {
    hide NewRoot;
  }

  lemma NewRootPreserves(l: Tree, r: Tree, next: NodeId)
    requires Loose(l) && Loose(r)
    ensures E(NewRoot(l, r, next)) == E(l) + E(r) && Loose(NewRoot(l, r, next))
  {
    SortBufferOfStrict([]);
    EKidsOne(l);
    EKidsOne(r);
    EKidsAppend([l], [r]);
    assert [l] + [r] == [l, r];
  }

  lemma SplitPreserves(q: Tree, i: nat, l: Tree, r: Tree, next: NodeId)
    requires i < |q.kids| && Loose(q) && Unique(q.node.buffer) && Loose(l) && Loose(r) && Preserves(E(l) + E(r), E(q.kids[i]))
    ensures var a, b := LeftHalf(q, i, l, r, next), RightHalf(q, i, l, r, next);
            Preserves(E(a) + E(b), E(q)) && Loose(a) && Loose(b)
  {
    hide LeftOf;
    hide RightOf;
    var ks := Two(q.kids, i, l, r);
    TwoPreserves(q.kids, i, l, r);
    TwoLoose(q.kids, i, l, r);
    HalvesPreserve(q.node, ks, next);
    PreservesSame(q.node.buffer);
    PreservesParts(q.node.buffer, q.node.buffer, EKids(ks), EKids(q.kids));
    PreservesTrans(E(LeftHalf(q, i, l, r, next)) + E(RightHalf(q, i, l, r, next)), q.node.buffer + EKids(ks), E(q));
  }

  lemma UniqueBuffer(t: Tree, p: Path)
    requires ValidPath(t, p) && Unique(E(t))
    ensures Unique(E(Sub(t, p))) && Unique(Sub(t, p).node.buffer)
  {
    SubWithin(t, p);
    UniqueWithin(E(Sub(t, p)), E(t));
    assert Within(Sub(t, p).node.buffer, E(Sub(t, p)));
    UniqueWithin(Sub(t, p).node.buffer, E(Sub(t, p)));
  }

  /** A leaf split anywhere, inside a key or not. */
  lemma SplitAtPreserves(t: Tree, p: Path, next: NodeId)
    requires ValidPath(t, p) && Loose(t) && Unique(E(t)) && Sub(t, p).kids == []
    ensures Preserves(E(SplitAt(t, p, next).0), E(t)) && Loose(SplitAt(t, p, next).0)
  {
    hide InsertAt;
    hide LeftLeaf;
    hide RightLeaf;
    UniqueBuffer(t, p);
    LeafPreserves(Sub(t, p), next);
    InsertAtPreserves(t, p, LeftLeaf(Sub(t, p), next), RightLeaf(Sub(t, p), next), next + 2);
  }

  lemma FlushAtPreserves(t: Tree, p: Path, next: NodeId)
    requires ValidPath(t, p) && Loose(t) && Unique(E(t)) && Sub(t, p).kids != []
    ensures var u := Update(t, p, FlushNode(Sub(t, p), next)); Preserves(E(u), E(t)) && Loose(u)
  {
    hide FlushNode;
    UniqueBuffer(t, p);
    UpdateLoose(t, p, t);
    FlushPreserves(Sub(t, p), next);
    UpdatePreserves(t, p, FlushNode(Sub(t, p), next));
    UpdateLoose(t, p, FlushNode(Sub(t, p), next));
  }
}
