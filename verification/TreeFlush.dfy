/** LocalFlush and do_flush's pointer update on one parent and its children. */
module TreeFlush {
  import opened Types
  import opened Entries
  import opened TreeModel

  // ----- the step -----

  /** One child after the flush: merged with its bucket under a new id, or kept; its range spans its children. */
  function FlushKid(kid: Tree, bucket: seq<Entry>, id: NodeId): Tree {
    var n := if bucket == [] then kid.node
             else Create(id, kid.node.level, Merge(bucket, kid.node.buffer), kid.node.childIds);
    if kid.kids == [] then Tree(n, [])
    else Tree(FlushToDisk(Widen(n, kid.kids[0].node.minKey, kid.kids[|kid.kids| - 1].node.maxKey)), kid.kids)
  }

  /** How many of the first `n` buckets hold entries. */
  function Used(bs: seq<seq<Entry>>, n: nat): (r: nat)
    requires n <= |bs|
    ensures r <= n
  {
    if n == 0 then 0 else Used(bs, n - 1) + if bs[n - 1] == [] then 0 else 1
  }

  function Buckets(t: Tree): (r: seq<seq<Entry>>)
    ensures |r| == |t.kids|
    ensures forall j :: 0 <= j < |r| ==> r[j] == Bucket(StableSort(t.node.buffer), KidMins(t.kids), j)
  {
    BucketsFrom(StableSort(t.node.buffer), KidMins(t.kids), 0)
  }

  /** Child `i` after the flush; fresh ids go left to right to the children that receive entries. */
  function NewKid(t: Tree, next: NodeId, i: nat): Tree
    requires i < |t.kids|
  {
    FlushKid(t.kids[i], Buckets(t)[i], next + Used(Buckets(t), i))
  }

  function NewKids(t: Tree, next: NodeId): (r: seq<Tree>)
    ensures |r| == |t.kids|
    ensures forall i :: 0 <= i < |r| ==> r[i] == NewKid(t, next, i)
  {
    seq(|t.kids|, i requires 0 <= i < |t.kids| => NewKid(t, next, i))
  }

  /** The parent after `do_flush`: empty buffer, new child pointers, range over the new children. */
  function FlushNode(t: Tree, next: NodeId): Tree
    requires t.kids != []
  {
    var ks := NewKids(t, next);
    Tree(FlushToDisk(Span(t.node.(buffer := [], childIds := KidIds(ks)), ks)), ks)
  }

  // ----- cached minimum keys -----

  lemma SpanMin(ks: seq<Tree>, level: int)
    requires GoodKids(ks, level) && ks != []
    ensures MinOk(ks[0].node.minKey, EKids(ks))
  {
    KeyOrder();
    var m := ks[0].node.minKey;
    assert Good(ks[0]);
    var e :| e in E(ks[0]) && e.key == m;
    EKidsMember(ks, e);
    if HasKey(E(ks[0]), []) {
      var z :| z in E(ks[0]) && z.key == [];
      EKidsMember(ks, z);
    } else {
      forall x | x in EKids(ks) ensures !KeyLess(x.key, m) {
        EKidsMember(ks, x);
        var j :| 0 <= j < |ks| && x in E(ks[j]);
        if j > 0 {
          assert Below(E(ks[0]), ks[j].node.minKey) && AtLeast(E(ks[j]), ks[j].node.minKey);
        }
      }
    }
  }

  lemma FrontIsMin(b: seq<Entry>)
    requires StrictKeys(b) && b != []
    ensures HasKey(b, b[0].key) && AtLeast(b, b[0].key)
  {
    KeyOrder();
    assert b[0] in b;
  }

  lemma MinOkFlush(n: SSTNode, below: seq<Entry>)
    requires StrictKeys(n.buffer)
    requires MinOk(n.minKey, below) || MinOk(n.minKey, n.buffer + below)
    ensures FlushToDisk(n).buffer == n.buffer
    ensures MinOk(FlushToDisk(n).minKey, n.buffer + below)
  {
    var b, m := n.buffer, n.minKey;
    SortBufferOfStrict(b);
    KeyOrder();
    assert forall e :: e in b || e in below <==> e in b + below;
    assert HasKey(b + below, m);
    if b != [] {
      FrontIsMin(b);
      var e :| e in b && e.key == b[0].key;
      assert e in b + below;
      if m != [] && KeyLess(b[0].key, m) && HasKey(below, []) {
        var z :| z in below && z.key == [];
        assert z in b + below;
      }
      if !KeyLess(b[0].key, m) && HasKey(below, []) {
        var z :| z in below && z.key == [];
        assert z in b + below;
      }
    }
  }

  lemma MinOkWiden(n: SSTNode, cmin: Key, cmax: Key, below: seq<Entry>)
    requires StrictKeys(n.buffer) && MinOk(cmin, below)
    requires MinOk(n.minKey, n.buffer + below) || (n.buffer != [] && n.minKey == n.buffer[0].key)
    ensures MinOk(Widen(n, cmin, cmax).minKey, n.buffer + below)
  {
    var b, m := n.buffer, n.minKey;
    KeyOrder();
    assert forall e :: e in b || e in below <==> e in b + below;
    var c :| c in below && c.key == cmin;
    assert c in b + below;
    if HasKey(below, []) {
      var z :| z in below && z.key == [];
      assert z in b + below;
    }
    if b != [] {
      FrontIsMin(b);
      assert b[0] in b + below;
    }
  }

  // ----- one child -----

  lemma FlushKidGood(kid: Tree, bucket: seq<Entry>, id: NodeId)
    requires Good(kid)
    ensures Good(FlushKid(kid, bucket, id))
    ensures FlushKid(kid, bucket, id).node.level == kid.node.level
    ensures FlushKid(kid, bucket, id).node.id == if bucket == [] then kid.node.id else id
    ensures FlushKid(kid, bucket, id).kids == kid.kids
    ensures FlushKid(kid, bucket, id).node.buffer ==
            if bucket == [] then kid.node.buffer else SortBuffer(Merge(bucket, kid.node.buffer))
  {
    var m := Merge(bucket, kid.node.buffer);
    SortBufferFacts(m);
    MergeWithin(bucket, kid.node.buffer);
    var n := if bucket == [] then kid.node else Create(id, kid.node.level, m, kid.node.childIds);
    var below := EKids(kid.kids);
    if kid.kids == [] {
      if bucket != [] { FrontIsMin(n.buffer); }
      assert n.buffer + below == n.buffer;
    } else {
      var lo, hi := kid.kids[0].node.minKey, kid.kids[|kid.kids| - 1].node.maxKey;
      SpanMin(kid.kids, kid.node.level - 1);
      MinOkWiden(n, lo, hi, below);
      MinOkFlush(Widen(n, lo, hi), below);
    }
  }

  lemma FlushKidBest(kid: Tree, bucket: seq<Entry>, id: NodeId, k: Key)
    requires Good(kid) && Sorted(bucket)
    ensures Best(E(FlushKid(kid, bucket, id)), k) == Newer(Best(bucket, k), Best(E(kid), k))
  {
    FlushKidGood(kid, bucket, id);
    var c := FlushKid(kid, bucket, id);
    StrictIsSorted(kid.node.buffer);
    MergeBest(bucket, kid.node.buffer, k);
    SortBufferFacts(Merge(bucket, kid.node.buffer));
    BestAppend(c.node.buffer, EKids(c.kids), k);
    BestAppend(kid.node.buffer, EKids(kid.kids), k);
  }

  lemma FlushKidWithin(kid: Tree, bucket: seq<Entry>, id: NodeId)
    requires Good(kid)
    ensures Within(FlushKid(kid, bucket, id).node.buffer, bucket + kid.node.buffer)
    ensures Within(E(FlushKid(kid, bucket, id)), bucket + E(kid))
  {
    FlushKidGood(kid, bucket, id);
    MergeWithin(bucket, kid.node.buffer);
    SortBufferFacts(Merge(bucket, kid.node.buffer));
  }

  lemma FlushKidVersions(kid: Tree, bucket: seq<Entry>, id: NodeId)
    requires Good(kid) && VersionOrder(kid) && Above(bucket, E(kid))
    ensures VersionOrder(FlushKid(kid, bucket, id))
  {
    FlushKidGood(kid, bucket, id);
    FlushKidWithin(kid, bucket, id);
    assert forall f :: f in EKids(kid.kids) ==> f in E(kid);
  }

  // ----- all children -----

  ghost predicate Flushable(t: Tree) {
    t.kids != [] && GoodKids(t.kids, t.node.level - 1)
  }

  lemma KidGood(s: Tree, i: nat)
    requires Flushable(s) && i < |s.kids|
    ensures Good(s.kids[i]) && s.kids[i].node.level == s.node.level - 1
  {
    hide Good;
  }

  lemma BucketOf(t: Tree, i: nat)
    requires Flushable(t) && i < |t.kids|
    ensures Sorted(Buckets(t)[i])
    ensures Within(Buckets(t)[i], t.node.buffer)
    ensures forall e :: e in Buckets(t)[i] ==> Covers(KidMins(t.kids), e.key, i)
    ensures forall k :: Best(Buckets(t)[i], k) == if Route(KidMins(t.kids), k) == i then Best(t.node.buffer, k) else None
  {
    var s, mins := StableSort(t.node.buffer), KidMins(t.kids);
    StableSortFacts(t.node.buffer);
    BucketSorted(s, mins, i);
    SeparatedIncreasing(t.kids, t.node.level - 1);
    forall e | e in Buckets(t)[i] ensures e in t.node.buffer && Covers(mins, e.key, i) {
      BucketMember(s, mins, i, e);
      RoutersAgree(mins, e.key);
    }
    forall k ensures Best(Buckets(t)[i], k) == if Route(mins, k) == i then Best(t.node.buffer, k) else None {
      BucketBest(s, mins, i, k);
    }
  }

  /** Keys in the new child `i` stay on child `i`'s side of every old fence. */
  lemma NewKidBounds(t: Tree, next: NodeId, i: nat)
    requires Flushable(t) && i < |t.kids|
    ensures forall j :: i < j < |t.kids| ==> Below(E(NewKid(t, next, i)), t.kids[j].node.minKey)
    ensures 0 < i ==> AtLeast(E(NewKid(t, next, i)), t.kids[i].node.minKey)
  {
    var b := Buckets(t)[i];
    BucketOf(t, i);
    FlushKidWithin(t.kids[i], b, next + Used(Buckets(t), i));
    forall j, e | i < j < |t.kids| && e in E(NewKid(t, next, i)) ensures KeyLess(e.key, t.kids[j].node.minKey) {
      assert e in b || e in E(t.kids[i]);
      assert Below(E(t.kids[i]), t.kids[j].node.minKey);
    }
  }

  lemma NewKidExact(t: Tree, next: NodeId, i: nat)
    requires Flushable(t) && 0 < i < |t.kids|
    ensures AtLeast(E(NewKid(t, next, i)), NewKid(t, next, i).node.minKey)
    ensures !KeyLess(NewKid(t, next, i).node.minKey, t.kids[i].node.minKey)
  {
    NewKidBounds(t, next, i);
    FlushKidGood(t.kids[i], Buckets(t)[i], next + Used(Buckets(t), i));
    assert Good(t.kids[0]) && Below(E(t.kids[0]), t.kids[i].node.minKey);
    NoEmptyKey(E(NewKid(t, next, i)), t.kids[i].node.minKey);
  }

  lemma BelowLeq(s: seq<Entry>, m: Key, n: Key)
    requires Below(s, m) && !KeyLess(n, m)
    ensures Below(s, n)
  {
    KeyOrder();
  }

  lemma FlushKidsGood(t: Tree, next: NodeId)
    requires Flushable(t)
    ensures GoodKids(NewKids(t, next), t.node.level - 1)
  {
    var ks := NewKids(t, next);
    forall i | 0 <= i < |ks| ensures ks[i].node.level == t.node.level - 1 && Good(ks[i]) {
      NewKidGood(t, next, i);
    }
    NewKidsSeparated(t, next);
  }

  lemma NewKidGood(t: Tree, next: NodeId, i: nat)
    requires Flushable(t) && i < |t.kids|
    ensures Good(NewKid(t, next, i)) && NewKid(t, next, i).node.level == t.node.level - 1
  {
    FlushKidGood(t.kids[i], Buckets(t)[i], next + Used(Buckets(t), i));
  }

  lemma NewKidsSeparated(t: Tree, next: NodeId)
    requires Flushable(t)
    ensures Separated(NewKids(t, next))
  {
    var ks := NewKids(t, next);
    forall j | 0 < j < |ks|
      ensures AtLeast(E(ks[j]), ks[j].node.minKey)
      ensures forall i :: 0 <= i < j ==> Below(E(ks[i]), ks[j].node.minKey)
    {
      NewKidExact(t, next, j);
      forall i | 0 <= i < j ensures Below(E(ks[i]), ks[j].node.minKey) {
        NewKidFence(t, next, i, j);
      }
    }
  }

  lemma NewKidFence(t: Tree, next: NodeId, i: nat, j: nat)
    requires Flushable(t) && i < j < |t.kids|
    ensures Below(E(NewKid(t, next, i)), NewKid(t, next, j).node.minKey)
  {
    NewKidBounds(t, next, i);
    NewKidExact(t, next, j);
    BelowLeq(E(NewKid(t, next, i)), t.kids[j].node.minKey, NewKid(t, next, j).node.minKey);
  }

  lemma FlushBest(t: Tree, next: NodeId, k: Key)
    requires Flushable(t)
    ensures Best(EKids(NewKids(t, next)), k) == Best(E(t), k)
  {
    hide NewKid;
    hide Good;
    var ks := NewKids(t, next);
    var r := KidRoute(t.kids, t.node.level - 1, k);
    forall i | 0 <= i < |ks| && i != r ensures !HasKey(E(ks[i]), k) {
      NewKidLacks(t, next, k, r, i);
    }
    BestOfOneKid(ks, r, k);
    NewKidBest(t, next, r, k);
    BestAppend(t.node.buffer, EKids(t.kids), k);
  }

  lemma NewKidBest(t: Tree, next: NodeId, r: nat, k: Key)
    requires Flushable(t) && r < |t.kids| && r == Route(KidMins(t.kids), k)
    ensures Best(E(NewKid(t, next, r)), k) == Newer(Best(t.node.buffer, k), Best(E(t.kids[r]), k))
  {
    hide FlushKid;
    hide Flushable;
    hide Good;
    hide Bucket;
    BucketOf(t, r);
    KidGood(t, r);
    FlushKidBest(t.kids[r], Buckets(t)[r], next + Used(Buckets(t), r), k);
  }

  lemma NewKidLacks(t: Tree, next: NodeId, k: Key, r: nat, i: nat)
    requires Flushable(t) && i < |t.kids| && i != r && Covers(KidMins(t.kids), k, r)
    ensures !HasKey(E(NewKid(t, next, i)), k)
  {
    OffPath(t.kids, t.node.level - 1, k, r, i);
    BucketOf(t, i);
    FlushKidWithin(t.kids[i], Buckets(t)[i], next + Used(Buckets(t), i));
    forall e | e in E(NewKid(t, next, i)) ensures e.key != k {
      if e in Buckets(t)[i] && e.key == k {
        CoversUnique(KidMins(t.kids), k, r, i);
      }
    }
  }

  lemma FlushWithin(t: Tree, next: NodeId)
    requires Flushable(t)
    ensures Within(EKids(NewKids(t, next)), E(t))
  {
    var ks := NewKids(t, next);
    forall e | e in EKids(ks) ensures e in E(t) {
      EKidsMember(ks, e);
      var i :| 0 <= i < |ks| && e in E(ks[i]);
      BucketOf(t, i);
      FlushKidWithin(t.kids[i], Buckets(t)[i], next + Used(Buckets(t), i));
      EKidsMember(t.kids, e);
    }
  }

  /**
   * LocalFlush preserves meaning: every entry of the parent's buffer, duplicates included, is now
   * in the child it routes to, the newest version of every key is unchanged, and the children are
   * still strictly sorted, fenced and of the right level.
   */
  lemma FlushNodeFacts(t: Tree, next: NodeId)
    requires Flushable(t)
    ensures Flushable(FlushNode(t, next))
    ensures Compacts(E(FlushNode(t, next)), E(t))
    ensures FlushNode(t, next).node.buffer == []
    ensures FlushNode(t, next).node.id == t.node.id && FlushNode(t, next).node.level == t.node.level
    ensures |FlushNode(t, next).kids| == |t.kids|
    ensures FlushNode(t, next).node.childIds == KidIds(FlushNode(t, next).kids)
    ensures MinOk(FlushNode(t, next).node.minKey, E(FlushNode(t, next)))
  {
    var u := FlushNode(t, next);
    FlushKidsGood(t, next);
    SpanMin(u.kids, t.node.level - 1);
    SortBufferOfStrict([]);
    assert E(u) == EKids(u.kids);
    FlushWithin(t, next);
    forall k ensures Best(E(u), k) == Best(E(t), k) {
      FlushBest(t, next, k);
    }
  }

  lemma FlushNodeGood(t: Tree, next: NodeId)
    requires t.kids != [] && (Good(t) || RootOk(t))
    ensures Flushable(t)
    ensures Good(t) ==> Good(FlushNode(t, next))
    ensures RootOk(t) ==> RootOk(FlushNode(t, next))
  {
    FlushNodeFacts(t, next);
  }

  lemma FlushVersions(t: Tree, next: NodeId)
    requires Flushable(t) && VersionOrder(t)
    ensures VersionOrder(FlushNode(t, next))
  {
    var u := FlushNode(t, next);
    FlushNodeFacts(t, next);
    forall i | 0 <= i < |u.kids| ensures VersionOrder(u.kids[i]) {
      NewKidVersions(t, next, i);
    }
  }

  lemma NewKidVersions(t: Tree, next: NodeId, i: nat)
    requires Flushable(t) && VersionOrder(t) && i < |t.kids|
    ensures VersionOrder(NewKid(t, next, i))
  {
    BucketOf(t, i);
    forall f | f in E(t.kids[i]) ensures f in EKids(t.kids) { EKidsMember(t.kids, f); }
    FlushKidVersions(t.kids[i], Buckets(t)[i], next + Used(Buckets(t), i));
  }
}
