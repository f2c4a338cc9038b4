/** What one flush does to the node cache and to the node files. */
module FlushStore {
  import opened Types
  import opened Entries
  import opened TreeModel
  import opened TreeFlush
  import opened TreeSplit
  import opened TreeStore
  import opened FlushOps

  function KidNodes(ks: seq<Tree>): (r: seq<SSTNode>)
    ensures |r| == |ks| && forall i :: 0 <= i < |r| ==> r[i] == ks[i].node
  {
    seq(|ks|, i requires 0 <= i < |ks| => ks[i].node)
  }

  lemma SameBuckets(t: Tree)
    ensures BucketsOf(t.node, KidNodes(t.kids)) == Buckets(t)
  {
    assert Mins(KidNodes(t.kids)) == KidMins(t.kids);
  }

  // ----- ids of the new children -----

  ghost predicate NoDup(ids: seq<NodeId>) {
    forall i, j :: 0 <= i < j < |ids| ==> ids[i] != ids[j]
  }

  lemma {:induction false} UsedMonotone(bs: seq<seq<Entry>>, i: nat, j: nat)
    requires i < j <= |bs|
    ensures Used(bs, i) + (if bs[i] == [] then 0 else 1) <= Used(bs, j)
  {
    if i < j - 1 { UsedMonotone(bs, i, j - 1); }
  }

  lemma NewKidShape(t: Tree, next: NodeId, i: nat)
    requires i < |t.kids|
    ensures NewKid(t, next, i).node.id == if Buckets(t)[i] == [] then t.kids[i].node.id else next + Used(Buckets(t), i)
    ensures NewKid(t, next, i).kids == t.kids[i].kids
    ensures Buckets(t)[i] != [] ==> Used(Buckets(t), i) < Used(Buckets(t), |Buckets(t)|)
  {
    hide FlushKid;
    hide Bucket;
    hide StableSort;
    FlushKidShape(t.kids[i], Buckets(t)[i], next + Used(Buckets(t), i));
    UsedMonotone(Buckets(t), i, |Buckets(t)|);
  }

  lemma FlushKidShape(kid: Tree, bucket: seq<Entry>, id: NodeId)
    ensures FlushKid(kid, bucket, id).node.id == if bucket == [] then kid.node.id else id
    ensures FlushKid(kid, bucket, id).kids == kid.kids
    ensures |kid.node.childIds| <= MAX_FANOUT ==> FlushKid(kid, bucket, id).node.childIds == kid.node.childIds
  {
    hide SortBuffer;
    hide Merge;
  }

  /** New ids: unchanged children keep theirs, the others get distinct fresh ones. */
  lemma NewKidIds(t: Tree, next: NodeId)
    requires NoDup(KidIds(t.kids)) && forall i :: 0 <= i < |t.kids| ==> t.kids[i].node.id < next && Good(t.kids[i])
    ensures NoDup(KidIds(NewKids(t, next)))
  {
    var ids := KidIds(NewKids(t, next));
    forall i, j | 0 <= i < j < |t.kids| ensures ids[i] != ids[j] {
      NewKidPair(t, next, i, j);
    }
  }

  lemma NewKidPair(t: Tree, next: NodeId, i: nat, j: nat)
    requires i < j < |t.kids| && Good(t.kids[i]) && Good(t.kids[j])
    requires t.kids[i].node.id != t.kids[j].node.id && t.kids[i].node.id < next && t.kids[j].node.id < next
    ensures NewKid(t, next, i).node.id != NewKid(t, next, j).node.id
  {
    NewKidShape(t, next, i);
    NewKidShape(t, next, j);
    UsedMonotone(Buckets(t), i, j);
  }

  // ----- id counts -----

  lemma IdsBag(ks: seq<Tree>, x: NodeId)
    requires ks != []
    ensures multiset(KidIds(ks))[x] == (if ks[0].node.id == x then 1 else 0) + multiset(KidIds(ks[1..]))[x]
  {
    assert KidIds(ks) == [ks[0].node.id] + KidIds(ks[1..]);
  }

  lemma {:induction false} CountReId(ks: seq<Tree>, ls: seq<Tree>, x: NodeId)
    requires |ks| == |ls| && forall i :: 0 <= i < |ks| ==> ks[i].kids == ls[i].kids
    ensures CountKids(ls, x) + multiset(KidIds(ks))[x] == CountKids(ks, x) + multiset(KidIds(ls))[x]
  {
    if ks != [] {
      CountReId(ks[1..], ls[1..], x);
      IdsBag(ks, x);
      IdsBag(ls, x);
    } else {
      assert KidIds(ks) == [] && KidIds(ls) == [];
    }
  }

  lemma {:induction false} NoDupCount(ids: seq<NodeId>, x: NodeId)
    requires NoDup(ids)
    ensures multiset(ids)[x] == if x in ids then 1 else 0
  {
    if ids != [] {
      NoDupCount(ids[1..], x);
      assert ids == [ids[0]] + ids[1..];
      assert x in ids[1..] ==> x != ids[0];
    }
  }

  lemma {:induction false} CountKidId(ks: seq<Tree>, x: NodeId)
    ensures multiset(KidIds(ks))[x] <= CountKids(ks, x)
  {
    if ks != [] {
      CountKidId(ks[1..], x);
      assert KidIds(ks) == [ks[0].node.id] + KidIds(ks[1..]);
    } else {
      assert KidIds(ks) == [];
    }
  }

  lemma KidIdsNoDup(t: Tree)
    requires Distinct(t)
    ensures NoDup(KidIds(t.kids)) && t.node.id !in KidIds(t.kids)
  {
    forall i, j | 0 <= i < j < |t.kids| ensures KidIds(t.kids)[i] != KidIds(t.kids)[j] {
      var x := t.kids[i].node.id;
      CountKid(t, i, x);
      assert Count(t, x) <= 1 && Count(t.kids[i], x) >= 1;
      assert Count(t.kids[i], x) + Count(t.kids[j], x) <= CountKids(t.kids, x);
    }
    var x := t.node.id;
    assert Count(t, x) <= 1;
    forall i | 0 <= i < |t.kids| ensures t.kids[i].node.id != x { CountKid(t, i, x); }
  }

  /** Ids of the flushed subtree: rewritten children's ids leave, their fresh ids enter. */
  lemma CountFlush(t: Tree, next: NodeId, x: NodeId)
    requires t.kids != [] && Distinct(t) && forall i :: 0 <= i < |t.kids| ==> Good(t.kids[i]) && t.kids[i].node.id < next
    ensures var ids, jds := KidIds(t.kids), KidIds(NewKids(t, next));
            Count(FlushNode(t, next), x) == Count(t, x) - (if x in ids then 1 else 0) + (if x in jds then 1 else 0)
  {
    KidIdsNoDup(t);
    NewKidIds(t, next);
    var ls := NewKids(t, next);
    forall i | 0 <= i < |t.kids| ensures ls[i].kids == t.kids[i].kids {
      NewKidShape(t, next, i);
    }
    CountReId(t.kids, ls, x);
    NoDupCount(KidIds(t.kids), x);
    NoDupCount(KidIds(ls), x);
    FlushedHead(t, next);
  }

  lemma FlushedHead(t: Tree, next: NodeId)
    requires t.kids != []
    ensures FlushNode(t, next).node.id == t.node.id && FlushNode(t, next).kids == NewKids(t, next)
  {
  }

  // ----- the refresh loop on the cache -----

  /** `do_flush`'s loop: drop a rewritten id, then store a child, for the first `n` children. */
  function Refreshed(c: Store, oldIds: seq<NodeId>, ns: seq<SSTNode>, n: nat): Store
    requires n <= |ns| && |oldIds| <= |ns|
  {
    if n == 0 then c
    else
      var d := Refreshed(c, oldIds, ns, n - 1);
      (if n - 1 < |oldIds| then d - {oldIds[n - 1]} else d)[ns[n - 1].id := ns[n - 1]]
  }

  lemma {:induction false} RefreshedAt(c: Store, oldIds: seq<NodeId>, ns: seq<SSTNode>, n: nat, x: NodeId)
    requires n <= |ns| && |oldIds| <= |ns| && NoDup(NodeIds(ns))
    requires forall i :: 0 <= i < |ns| ==> ns[i].id !in oldIds
    ensures var d := Refreshed(c, oldIds, ns, n);
            && (forall i :: 0 <= i < n && ns[i].id == x ==> x in d && d[x] == ns[i])
            && ((forall i :: 0 <= i < n ==> ns[i].id != x) ==>
                  if x in oldIds[..if n <= |oldIds| then n else |oldIds|] then x !in d
                  else (x in d <==> x in c) && (x in c ==> d[x] == c[x]))
  {
    if n > 0 {
      RefreshedAt(c, oldIds, ns, n - 1, x);
      if n <= |oldIds| { assert oldIds[..n] == oldIds[..n - 1] + [oldIds[n - 1]]; }
      forall i | 0 <= i < n - 1 ensures ns[i].id != ns[n - 1].id {
        assert NodeIds(ns)[i] != NodeIds(ns)[n - 1];
      }
      assert ns[n - 1].id !in oldIds;
    }
  }

  // ----- the node files -----

  lemma {:induction false} FlushLiveAt(l: Store, cs: seq<SSTNode>, bs: seq<seq<Entry>>, next: NodeId, n: nat, x: NodeId)
    requires n <= |cs| == |bs| && NoDup(NodeIds(cs)) && forall i :: 0 <= i < |cs| ==> cs[i].id < next
    ensures var d := FlushLive(l, cs, bs, next, n);
            && (x < next ==> if x in StaleIds(cs, bs, n) then x !in d else (x in d <==> x in l) && (x in l ==> d[x] == l[x]))
            && (x >= next + Used(bs, n) ==> (x in d <==> x in l) && (x in l ==> d[x] == l[x]))
  {
    hide Rewritten;
    if n > 0 {
      FlushLiveAt(l, cs, bs, next, n - 1, x);
      RewrittenId(cs[n - 1], bs[n - 1], next + Used(bs, n - 1));
    }
  }

  lemma {:induction false} FlushLiveNew(l: Store, cs: seq<SSTNode>, bs: seq<seq<Entry>>, next: NodeId, n: nat, i: nat)
    requires i < n <= |cs| == |bs| && bs[i] != [] && forall i :: 0 <= i < |cs| ==> cs[i].id < next
    ensures var d, r := FlushLive(l, cs, bs, next, n), Rewritten(cs[i], bs[i], next + Used(bs, i));
            r.id in d && d[r.id] == r
  {
    hide Rewritten;
    RewrittenId(cs[i], bs[i], next + Used(bs, i));
    RewrittenId(cs[n - 1], bs[n - 1], next + Used(bs, n - 1));
    if i < n - 1 {
      FlushLiveNew(l, cs, bs, next, n - 1, i);
      UsedMonotone(bs, i, n - 1);
    }
  }

  lemma RewrittenId(c: SSTNode, bucket: seq<Entry>, id: NodeId)
    ensures Rewritten(c, bucket, id).id == if bucket == [] then c.id else id
  {
  }

  /** The refresh loop re-installs the internal children, whose range it has widened. */
  ghost function LiveRefreshed(l: Store, ns: seq<SSTNode>, n: nat): Store
    requires n <= |ns|
  {
    if n == 0 then l
    else if ns[n - 1].childIds == [] then LiveRefreshed(l, ns, n - 1)
    else LiveRefreshed(l, ns, n - 1)[ns[n - 1].id := ns[n - 1]]
  }

  lemma {:induction false} LiveRefreshedAt(l: Store, ns: seq<SSTNode>, n: nat, x: NodeId)
    requires n <= |ns| && NoDup(NodeIds(ns))
    ensures var d := LiveRefreshed(l, ns, n);
            && (forall i :: 0 <= i < n && ns[i].id == x && ns[i].childIds != [] ==> x in d && d[x] == ns[i])
            && ((forall i :: 0 <= i < n && ns[i].childIds != [] ==> ns[i].id != x) ==> (x in d <==> x in l) && (x in l ==> d[x] == l[x]))
  {
    if n > 0 {
      LiveRefreshedAt(l, ns, n - 1, x);
      forall i | 0 <= i < n - 1 ensures ns[i].id != ns[n - 1].id {
        assert NodeIds(ns)[i] != NodeIds(ns)[n - 1];
      }
    }
  }

  // ----- cache and files after one flush -----

  /** A represented, well-formed subtree about to be flushed. */
  ghost predicate Ready(c: Store, s: Tree, next: NodeId) {
    && Rep(c, s) && Distinct(s) && Flushable(s) && s.node.childIds == KidIds(s.kids)
    && forall x: NodeId :: Count(s, x) > 0 ==> x < next
  }

  lemma ReadyParts(c: Store, s: Tree, next: NodeId)
    requires Ready(c, s, next)
    ensures s.node.id in c && c[s.node.id] == s.node && Rep(c, s) && s.node.childIds == KidIds(s.kids) && s.kids != []
  {
  }

  function Olds(s: Tree): (r: seq<NodeId>)
    ensures |r| <= |s.kids|
  {
    StaleIds(KidNodes(s.kids), Buckets(s), |s.kids|)
  }

  lemma KidFacts(c: Store, s: Tree, next: NodeId)
    requires Ready(c, s, next)
    ensures NoDup(KidIds(s.kids)) && s.node.id !in KidIds(s.kids) && NodeIds(KidNodes(s.kids)) == KidIds(s.kids)
    ensures s.node.id < next && forall i :: 0 <= i < |s.kids| ==> Good(s.kids[i]) && s.kids[i].node.id < next
  {
    KidIdsNoDup(s);
    assert Count(s, s.node.id) > 0;
    forall i | 0 <= i < |s.kids| ensures s.kids[i].node.id < next {
      CountKid(s, i, s.kids[i].node.id);
      assert Count(s, s.kids[i].node.id) > 0;
    }
  }

  /** Child `i` was rewritten exactly if its old id is stale; no new id is stale. */
  lemma OldsFacts(c: Store, s: Tree, next: NodeId, i: nat)
    requires Ready(c, s, next) && i < |s.kids|
    ensures s.kids[i].node.id in Olds(s) <==> Buckets(s)[i] != []
    ensures NewKid(s, next, i).node.id !in Olds(s)
    ensures forall x :: x in Olds(s) ==> x in KidIds(s.kids)
    ensures NewKid(s, next, i).node.id != s.node.id
    ensures NewKid(s, next, i).node.id < next ==> NewKid(s, next, i).node.id == s.kids[i].node.id
  {
    KidFacts(c, s, next);
    var cs, bs := KidNodes(s.kids), Buckets(s);
    forall a, b | 0 <= a < b < |cs| ensures cs[a].id != cs[b].id {
      assert KidIds(s.kids)[a] != KidIds(s.kids)[b];
    }
    StaleMember(cs, bs, |cs|, i);
    forall x | x in Olds(s) ensures x in KidIds(s.kids) && x < next {
      var j := StaleFrom(cs, bs, |cs|, x);
      assert x == KidIds(s.kids)[j];
    }
    NewKidShape(s, next, i);
    assert KidIds(s.kids)[i] == s.kids[i].node.id;
  }

  function FlushedCache(c: Store, s: Tree, next: NodeId): Store
    requires s.kids != []
  {
    Refreshed(c, Olds(s), KidNodes(NewKids(s, next)), |s.kids|)[s.node.id := FlushNode(s, next).node]
  }

  ghost function FlushedLive(l: Store, s: Tree, next: NodeId): Store
    requires s.kids != []
  {
    LiveRefreshed(FlushLive(l, KidNodes(s.kids), Buckets(s), next, |s.kids|), KidNodes(NewKids(s, next)), |s.kids|)[s.node.id := FlushNode(s, next).node]
  }

  lemma NewNodes(c: Store, s: Tree, next: NodeId)
    requires Ready(c, s, next)
    ensures NodeIds(KidNodes(NewKids(s, next))) == KidIds(NewKids(s, next)) && NoDup(KidIds(NewKids(s, next)))
    ensures forall i :: 0 <= i < |s.kids| ==> KidNodes(NewKids(s, next))[i].id !in Olds(s)
  {
    KidFacts(c, s, next);
    NewKidIds(s, next);
    forall i | 0 <= i < |s.kids| ensures KidNodes(NewKids(s, next))[i].id !in Olds(s) {
      OldsFacts(c, s, next, i);
    }
  }

  /** The cache after the flush, id by id. */
  lemma FlushedCacheAt(c: Store, s: Tree, next: NodeId, x: NodeId)
    requires Ready(c, s, next)
    ensures var d := FlushedCache(c, s, next);
            && (x == s.node.id ==> x in d && d[x] == FlushNode(s, next).node)
            && (forall i :: 0 <= i < |s.kids| && NewKid(s, next, i).node.id == x ==> x in d && d[x] == NewKid(s, next, i).node)
            && (x != s.node.id && x !in KidIds(NewKids(s, next)) ==>
                  if x in Olds(s) then x !in d else (x in d <==> x in c) && (x in c ==> d[x] == c[x]))
  {
    hide FlushNode;
    hide NewKid;
    NewNodes(c, s, next);
    var ns := KidNodes(NewKids(s, next));
    RefreshedAt(c, Olds(s), ns, |ns|, x);
    forall i | 0 <= i < |s.kids| && NewKid(s, next, i).node.id == x ensures x != s.node.id && ns[i].id == x {
      OldsFacts(c, s, next, i);
    }
    assert forall i :: 0 <= i < |ns| ==> ns[i].id == KidIds(NewKids(s, next))[i];
    assert Olds(s)[..|Olds(s)|] == Olds(s);
  }

  lemma {:induction false} UsedOnto(bs: seq<seq<Entry>>, n: nat, u: nat) returns (i: nat)
    requires n <= |bs| && u < Used(bs, n)
    ensures i < n && bs[i] != [] && Used(bs, i) == u
  {
    if u < Used(bs, n - 1) {
      i := UsedOnto(bs, n - 1, u);
    } else {
      i := n - 1;
    }
  }

  lemma LeafNewKid(s: Tree, next: NodeId, i: nat)
    requires i < |s.kids| && s.kids[i].kids == []
    ensures NewKid(s, next, i).node == Rewritten(s.kids[i].node, Buckets(s)[i], next + Used(Buckets(s), i))
  {
    hide Create;
    hide Merge;
    hide Buckets;
    hide Bucket;
    hide StableSort;
    hide Used;
  }

  lemma NewKidChildIds(s: Tree, next: NodeId, i: nat)
    requires i < |s.kids| && Good(s.kids[i])
    ensures NewKid(s, next, i).node.childIds == KidIds(s.kids[i].kids)
  {
    hide FlushKid;
    FlushKidShape(s.kids[i], Buckets(s)[i], next + Used(Buckets(s), i));
  }

  /** A new child's file holds the new child. */
  lemma NewKidLive(c: Store, l: Store, s: Tree, next: NodeId, i: nat)
    requires Ready(c, s, next) && l[s.node.id := c[s.node.id]] == c && i < |s.kids|
    ensures var x := NewKid(s, next, i).node.id;
            x in FlushedLive(l, s, next) && FlushedLive(l, s, next)[x] == NewKid(s, next, i).node
  {
    hide FlushNode;
    hide NewKid;
    hide Rewritten;
    KidFacts(c, s, next);
    NewNodes(c, s, next);
    OldsFacts(c, s, next, i);
    var ns := KidNodes(NewKids(s, next));
    var l1 := FlushLive(l, KidNodes(s.kids), Buckets(s), next, |s.kids|);
    LiveRefreshedAt(l1, ns, |ns|, ns[i].id);
    if ns[i].childIds == [] {
      forall j | 0 <= j < |ns| && ns[j].childIds != [] ensures ns[j].id != ns[i].id {
        assert NodeIds(ns)[j] != NodeIds(ns)[i];
      }
      LeafKidLive(c, l, s, next, i);
    }
  }

  lemma LeafKidLive(c: Store, l: Store, s: Tree, next: NodeId, i: nat)
    requires Ready(c, s, next) && l[s.node.id := c[s.node.id]] == c && i < |s.kids| && NewKid(s, next, i).node.childIds == []
    ensures var x := NewKid(s, next, i).node.id;
            var l1 := FlushLive(l, KidNodes(s.kids), Buckets(s), next, |s.kids|);
            x in l1 && l1[x] == NewKid(s, next, i).node
  {
    hide NewKid;
    hide Rewritten;
    hide FlushLive;
    hide Used;
    hide Good;
    hide VersionOrder;
    KidFacts(c, s, next);
    NewKidShape(s, next, i);
    NewKidChildIds(s, next, i);
    OldsFacts(c, s, next, i);
    var cs, bs := KidNodes(s.kids), Buckets(s);
    LeafNewKid(s, next, i);
    if bs[i] != [] {
      FlushLiveNew(l, cs, bs, next, |cs|, i);
    } else {
      FlushLiveAt(l, cs, bs, next, |cs|, s.kids[i].node.id);
      RewrittenSame(cs[i], next + Used(bs, i));
      assert Rep(c, s.kids[i]);
    }
  }

  lemma RewrittenSame(n: SSTNode, id: NodeId)
    ensures Rewritten(n, [], id) == n
  {
  }

  lemma RewrittenChildIds(n: SSTNode, bucket: seq<Entry>, id: NodeId)
    ensures |n.childIds| <= MAX_FANOUT ==> Rewritten(n, bucket, id).childIds == n.childIds
  {
    hide SortBuffer;
    hide Merge;
  }

  /** Every other file is as before, or gone with its stale record. */
  lemma OldsAre(s: Tree)
    ensures Olds(s) == StaleIds(KidNodes(s.kids), Buckets(s), |s.kids|)
  {
  }

  lemma OtherLive(c: Store, l: Store, s: Tree, next: NodeId, x: NodeId)
    requires Ready(c, s, next) && l[s.node.id := c[s.node.id]] == c && forall y :: y in c ==> y < next
    requires x != s.node.id && x !in KidIds(NewKids(s, next))
    ensures var d := FlushedLive(l, s, next);
            if x in Olds(s) then x !in d else (x in d <==> x in c) && (x in c ==> d[x] == c[x])
  {
    hide FlushNode;
    hide NewKid;
    hide Rewritten;
    hide FlushLive;
    hide LiveRefreshed;
    hide Good;
    hide Used;
    hide Olds;
    hide Bucket;
    hide Rep;
    assert Olds(s) == StaleIds(KidNodes(s.kids), Buckets(s), |s.kids|) by { OldsAre(s); }
    KidFacts(c, s, next);
    NewNodes(c, s, next);
    var cs, bs, ns := KidNodes(s.kids), Buckets(s), KidNodes(NewKids(s, next));
    var l1 := FlushLive(l, cs, bs, next, |cs|);
    LiveRefreshedAt(l1, ns, |ns|, x);
    assert forall j :: 0 <= j < |ns| ==> ns[j].id == KidIds(NewKids(s, next))[j];
    FlushLiveAt(l, cs, bs, next, |cs|, x);
    if x in Olds(s) { OldsFacts(c, s, next, 0); }
    if next <= x < next + Used(bs, |bs|) {
      var i := UsedOnto(bs, |bs|, x - next);
      NewKidShape(s, next, i);
    }
  }

  /** Cache and files agree again after the flush. */
  lemma FlushedLiveIsCache(c: Store, l: Store, s: Tree, next: NodeId)
    requires Ready(c, s, next) && l[s.node.id := c[s.node.id]] == c && forall y :: y in c ==> y < next
    ensures FlushedLive(l, s, next) == FlushedCache(c, s, next)
  {
    var d, e := FlushedLive(l, s, next), FlushedCache(c, s, next);
    forall x ensures (x in d <==> x in e) && (x in d ==> d[x] == e[x]) {
      FlushedCacheAt(c, s, next, x);
      if x != s.node.id {
        if x in KidIds(NewKids(s, next)) {
          var i :| 0 <= i < |s.kids| && KidIds(NewKids(s, next))[i] == x;
          NewKidLive(c, l, s, next, i);
        } else {
          OtherLive(c, l, s, next, x);
        }
      }
    }
  }

  /** The flushed subtree is represented. */
  lemma FlushedRep(c: Store, s: Tree, next: NodeId)
    requires Ready(c, s, next)
    ensures Rep(FlushedCache(c, s, next), FlushNode(s, next))
  {
    var d := FlushedCache(c, s, next);
    FlushedCacheAt(c, s, next, s.node.id);
    FlushedHead(s, next);
    forall i | 0 <= i < |s.kids| ensures Rep(d, NewKids(s, next)[i]) {
      NewKidRep(c, s, next, i);
    }
  }

  lemma NewKidRep(c: Store, s: Tree, next: NodeId, i: nat)
    requires Ready(c, s, next) && i < |s.kids|
    ensures Rep(FlushedCache(c, s, next), NewKid(s, next, i))
  {
    hide NewKid;
    hide FlushedCache;
    KidFacts(c, s, next);
    var d := FlushedCache(c, s, next);
    FlushedCacheAt(c, s, next, NewKid(s, next, i).node.id);
    NewKidShape(s, next, i);
    assert Rep(c, s.kids[i]);
    forall j | 0 <= j < |s.kids[i].kids| ensures Rep(d, s.kids[i].kids[j]) {
      var g := s.kids[i].kids[j];
      forall x | x in c && Count(g, x) > 0 ensures x in d && d[x] == c[x] {
        GrandkidKept(c, s, next, i, j, x);
      }
      RepFrame(c, d, g);
    }
  }

  lemma GrandkidKept(c: Store, s: Tree, next: NodeId, i: nat, j: nat, x: NodeId)
    requires Ready(c, s, next) && i < |s.kids| && j < |s.kids[i].kids| && x in c && Count(s.kids[i].kids[j], x) > 0
    ensures x in FlushedCache(c, s, next) && FlushedCache(c, s, next)[x] == c[x]
  {
    hide NewKid;
    hide FlushedCache;
    KidFacts(c, s, next);
    CountKid(s.kids[i], j, x);
    CountKid(s, i, x);
    assert Count(s, x) <= 1 && Count(s, x) > 0;
    assert x != s.node.id && s.kids[i].node.id != x;
    forall m | 0 <= m < |s.kids| ensures s.kids[m].node.id != x {
      if m != i { assert Count(s.kids[i], x) + Count(s.kids[m], x) <= CountKids(s.kids, x); }
    }
    OldsFacts(c, s, next, i);
    assert x !in Olds(s);
    forall m | 0 <= m < |s.kids| ensures KidIds(NewKids(s, next))[m] != x {
      NewKidShape(s, next, m);
    }
    FlushedCacheAt(c, s, next, x);
  }

  // ----- during the refresh loop -----

  /** A grandchild's id is neither stale nor new. */
  lemma GrandkidElsewhere(c: Store, s: Tree, next: NodeId, i: nat, j: nat)
    requires Ready(c, s, next) && i < |s.kids| && j < |s.kids[i].kids|
    ensures var x := s.kids[i].kids[j].node.id;
            x in c && c[x] == s.kids[i].kids[j].node && x !in Olds(s) && x !in KidIds(NewKids(s, next))
  {
    hide NewKid;
    hide Good;
    var x := s.kids[i].kids[j].node.id;
    assert Rep(c, s.kids[i]) && Rep(c, s.kids[i].kids[j]);
    KidFacts(c, s, next);
    CountKid(s.kids[i], j, x);
    CountKid(s, i, x);
    assert Count(s.kids[i].kids[j], x) > 0 && Count(s, x) <= 1;
    assert s.kids[i].node.id != x && x < next;
    forall m | 0 <= m < |s.kids| ensures s.kids[m].node.id != x && KidIds(NewKids(s, next))[m] != x {
      if m != i { assert Count(s.kids[i], x) + Count(s.kids[m], x) <= CountKids(s.kids, x); }
      NewKidShape(s, next, m);
    }
    OldsFacts(c, s, next, i);
  }

  /** So the refresh loop finds every grandchild in the cache as it was. */
  lemma GrandkidStays(c: Store, s: Tree, next: NodeId, n: nat, i: nat, j: nat)
    requires Ready(c, s, next) && n <= |s.kids| && i < |s.kids| && j < |s.kids[i].kids|
    ensures var x, d := s.kids[i].kids[j].node.id, Refreshed(c, Olds(s), KidNodes(NewKids(s, next)), n);
            x in d && d[x] == s.kids[i].kids[j].node && x !in Olds(s)
  {
    hide NewKid;
    hide Good;
    GrandkidElsewhere(c, s, next, i, j);
    NewNodes(c, s, next);
    var x, ns := s.kids[i].kids[j].node.id, KidNodes(NewKids(s, next));
    RefreshedAt(c, Olds(s), ns, n, x);
    assert forall m :: 0 <= m < |ns| ==> ns[m].id == KidIds(NewKids(s, next))[m];
  }

  lemma FlushKidNode(kid: Tree, bucket: seq<Entry>, id: NodeId)
    ensures var n, gs := Rewritten(kid.node, bucket, id), kid.kids;
            FlushKid(kid, bucket, id).node ==
              if gs == [] then n else FlushToDisk(Widen(n, gs[0].node.minKey, gs[|gs| - 1].node.maxKey))
  {
    hide Create;
    hide FlushToDisk;
    hide Widen;
  }

  lemma NewKidNode(s: Tree, next: NodeId, i: nat)
    requires i < |s.kids|
    ensures var n := Rewritten(s.kids[i].node, Buckets(s)[i], next + Used(Buckets(s), i));
            var gs := s.kids[i].kids;
            NewKid(s, next, i).node ==
              if gs == [] then n else FlushToDisk(Widen(n, gs[0].node.minKey, gs[|gs| - 1].node.maxKey))
  {
    hide FlushKid;
    hide Rewritten;
    hide FlushToDisk;
    hide Widen;
    hide Bucket;
    hide Used;
    FlushKidNode(s.kids[i], Buckets(s)[i], next + Used(Buckets(s), i));
  }

  lemma KidLinks(c: Store, s: Tree, next: NodeId, i: nat)
    requires Ready(c, s, next) && i < |s.kids|
    ensures s.kids[i].node.childIds == KidIds(s.kids[i].kids) && |s.kids[i].kids| <= MAX_FANOUT
  {
    assert Good(s.kids[i]);
  }

  /** The cache just before child `n` is stored. */
  function Dropped(c: Store, oldIds: seq<NodeId>, n: nat): Store {
    if n < |oldIds| then c - {oldIds[n]} else c
  }

  /** Storing child `i`, read as `n` and with its range widened from the cache if internal, stores `ns[i]`. */
  ghost predicate RoundOk(c: Store, oldIds: seq<NodeId>, cs: seq<SSTNode>, ns: seq<SSTNode>, i: nat, bound: NodeId)
    requires i < |cs| == |ns| && |oldIds| <= |ns|
  {
    var n := cs[i];
    var d := Dropped(Refreshed(c, oldIds, ns, i), oldIds, i);
    && ns[i].childIds == n.childIds && ns[i].id < bound
    && (n.childIds == [] ==> ns[i] == n)
    && (n.childIds != [] ==>
          n.childIds[0] in d && n.childIds[|n.childIds| - 1] in d
          && ns[i] == FlushToDisk(Widen(n, d[n.childIds[0]].minKey, d[n.childIds[|n.childIds| - 1]].maxKey)))
  }

  lemma RefreshRound(c: Store, s: Tree, next: NodeId, i: nat)
    requires Ready(c, s, next) && i < |s.kids|
    ensures RoundOk(c, Olds(s), AllRewritten(KidNodes(s.kids), Buckets(s), next, |s.kids|), KidNodes(NewKids(s, next)), i,
                    next + Used(Buckets(s), |s.kids|))
  {
    hide Rewritten;
    hide NewKid;
    hide Good;
    hide FlushToDisk;
    hide Widen;
    hide AllRewritten;
    hide Bucket;
    hide Refreshed;
    KidFacts(c, s, next);
    AllRewrittenAt(KidNodes(s.kids), Buckets(s), next, |s.kids|, i);
    KidLinks(c, s, next, i);
    NewKidNode(s, next, i);
    NewKidShape(s, next, i);
    NewKidChildIds(s, next, i);
    RewrittenChildIds(s.kids[i].node, Buckets(s)[i], next + Used(Buckets(s), i));
    if s.kids[i].kids != [] {
      GrandkidStays(c, s, next, i, i, 0);
      GrandkidStays(c, s, next, i, i, |s.kids[i].kids| - 1);
    }
  }

  lemma NewKidCached(c: Store, s: Tree, next: NodeId, i: nat)
    requires Ready(c, s, next) && i < |s.kids|
    ensures var n, d := NewKids(s, next)[i].node, Refreshed(c, Olds(s), KidNodes(NewKids(s, next)), |s.kids|);
            n.id in d && d[n.id] == n
  {
    hide NewKid;
    hide Good;
    NewNodes(c, s, next);
    RefreshedAt(c, Olds(s), KidNodes(NewKids(s, next)), |s.kids|, NewKids(s, next)[i].node.id);
    assert KidNodes(NewKids(s, next))[i] == NewKids(s, next)[i].node;
  }

  /** `local_flush`'s ids are the new child pointers, and they differ from the old ones only where a child was rewritten. */
  lemma NewPointers(c: Store, s: Tree, next: NodeId)
    requires Ready(c, s, next)
    ensures NodeIds(AllRewritten(KidNodes(s.kids), Buckets(s), next, |s.kids|)) == KidIds(NewKids(s, next))
    ensures forall i :: 0 <= i < |s.kids| && KidIds(s.kids)[i] !in Olds(s) ==> KidIds(NewKids(s, next))[i] == KidIds(s.kids)[i]
  {
    hide NewKid;
    hide Good;
    hide Rewritten;
    hide AllRewritten;
    hide Bucket;
    var rs := AllRewritten(KidNodes(s.kids), Buckets(s), next, |s.kids|);
    forall i | 0 <= i < |s.kids|
      ensures NodeIds(rs)[i] == KidIds(NewKids(s, next))[i]
      ensures KidIds(s.kids)[i] !in Olds(s) ==> KidIds(NewKids(s, next))[i] == KidIds(s.kids)[i]
    {
      AllRewrittenAt(KidNodes(s.kids), Buckets(s), next, |s.kids|, i);
      RewrittenId(s.kids[i].node, Buckets(s)[i], next + Used(Buckets(s), i));
      NewKidShape(s, next, i);
      OldsFacts(c, s, next, i);
    }
  }

  lemma FlushedParent(s: Tree, next: NodeId)
    requires s.kids != []
    ensures var ks := NewKids(s, next);
            FlushNode(s, next).node == FlushToDisk(s.node.(buffer := [], childIds := KidIds(ks),
                                                          minKey := ks[0].node.minKey, maxKey := ks[|ks| - 1].node.maxKey))
  {
    hide FlushToDisk;
    hide NewKid;
  }

  ghost predicate AllRounds(c: Store, oldIds: seq<NodeId>, cs: seq<SSTNode>, ns: seq<SSTNode>, bound: NodeId) {
    |oldIds| <= |cs| == |ns| && forall i :: 0 <= i < |ns| ==> RoundOk(c, oldIds, cs, ns, i, bound)
  }

  lemma AllRoundsOk(c: Store, s: Tree, next: NodeId)
    requires Ready(c, s, next)
    ensures AllRounds(c, Olds(s), AllRewritten(KidNodes(s.kids), Buckets(s), next, |s.kids|), KidNodes(NewKids(s, next)),
                      next + Used(Buckets(s), |s.kids|))
  {
    hide RoundOk;
    hide Ready;
    hide NewKid;
    hide Bucket;
    hide AllRewritten;
    hide Olds;
    hide Used;
    hide Buckets;
    var rs, ns := AllRewritten(KidNodes(s.kids), Buckets(s), next, |s.kids|), KidNodes(NewKids(s, next));
    var bound := next + Used(Buckets(s), |s.kids|);
    forall i | 0 <= i < |ns| ensures RoundOk(c, Olds(s), rs, ns, i, bound) {
      RefreshRound(c, s, next, i);
    }
  }

  /** The rewritten children, as `local_flush` returns them. */
  function FlushedChildren(s: Tree, next: NodeId): (r: seq<SSTNode>)
    ensures |r| == |s.kids|
  {
    AllRewritten(KidNodes(s.kids), Buckets(s), next, |s.kids|)
  }

  /** The cache once the children are refreshed, before the parent is. */
  function Middle(c: Store, s: Tree, next: NodeId): Store {
    Refreshed(c, Olds(s), KidNodes(NewKids(s, next)), |s.kids|)
  }

  /** What `local_flush` returns for this parent, and how the new pointers relate to the old ones. */
  lemma FlushPlan(c: Store, s: Tree, next: NodeId)
    requires Ready(c, s, next)
    ensures BucketsOf(s.node, KidNodes(s.kids)) == Buckets(s)
    ensures Olds(s) == StaleIds(KidNodes(s.kids), Buckets(s), |s.kids|)
    ensures FlushedChildren(s, next) == AllRewritten(KidNodes(s.kids), Buckets(s), next, |s.kids|)
    ensures NodeIds(FlushedChildren(s, next)) == KidIds(NewKids(s, next))
    ensures forall i :: 0 <= i < |s.kids| && s.node.childIds[i] !in Olds(s) ==> KidIds(NewKids(s, next))[i] == s.node.childIds[i]
    ensures AllRounds(c, Olds(s), FlushedChildren(s, next), KidNodes(NewKids(s, next)), next + Used(Buckets(s), |s.kids|))
  {
    hide NewKid;
    hide Good;
    hide AllRewritten;
    hide AllRounds;
    SameBuckets(s);
    NewPointers(c, s, next);
    AllRoundsOk(c, s, next);
  }

  /** Widening the parent's range from the refreshed cache gives the flushed parent. */
  lemma ParentPlan(c: Store, s: Tree, next: NodeId, d: Store, n: SSTNode)
    requires Ready(c, s, next) && d == Middle(c, s, next)
    requires n.childIds == KidIds(NewKids(s, next)) && n.childIds[0] in d && n.childIds[|n.childIds| - 1] in d
    requires n == s.node.(buffer := [], childIds := n.childIds,
                          minKey := d[n.childIds[0]].minKey, maxKey := d[n.childIds[|n.childIds| - 1]].maxKey)
    ensures FlushToDisk(n) == FlushNode(s, next).node && FlushNode(s, next).node.id == s.node.id < next
    ensures FlushedCache(c, s, next) == d[s.node.id := FlushToDisk(n)]
  {
    hide NewKid;
    hide Good;
    hide Refreshed;
    hide FlushNode;
    hide FlushToDisk;
    KidFacts(c, s, next);
    NewKidCached(c, s, next, 0);
    NewKidCached(c, s, next, |s.kids| - 1);
    FlushedParent(s, next);
    FlushedHead(s, next);
  }

  lemma EndsCached(c: Store, s: Tree, next: NodeId)
    requires Ready(c, s, next)
    ensures |KidIds(NewKids(s, next))| == |s.kids| > 0
    ensures KidIds(NewKids(s, next))[0] in Middle(c, s, next) && KidIds(NewKids(s, next))[|s.kids| - 1] in Middle(c, s, next)
  {
    hide NewKid;
    hide Good;
    hide Refreshed;
    NewKidCached(c, s, next, 0);
    NewKidCached(c, s, next, |s.kids| - 1);
  }

  /** The node files at the same moment. */
  ghost function LiveMiddle(l: Store, s: Tree, next: NodeId): Store {
    LiveRefreshed(FlushLive(l, KidNodes(s.kids), Buckets(s), next, |s.kids|), KidNodes(NewKids(s, next)), |s.kids|)
  }

  lemma LivePlan(l: Store, s: Tree, next: NodeId)
    requires s.kids != []
    ensures FlushedLive(l, s, next) == LiveMiddle(l, s, next)[s.node.id := FlushNode(s, next).node]
  {
  }

  // ----- the whole tree -----

  lemma SubReady(c: Store, t: Tree, p: Path, next: NodeId)
    requires Holds(c, t, next) && ValidPath(t, p) && Sub(t, p).kids != []
    ensures Ready(c, Sub(t, p), next)
  {
    RepOpen(c, t, p);
    SubDistinct(t, p);
    if p != [] { SubGood(t, p); }
    forall x: NodeId | Count(Sub(t, p), x) > 0 ensures x < next { assert Count(t, x) > 0; }
  }

  /** Ids outside the flushed subtree are untouched. */
  lemma OutsideKept(c: Store, t: Tree, p: Path, next: NodeId, x: NodeId)
    requires Holds(c, t, next) && ValidPath(t, p) && Ready(c, Sub(t, p), next)
    requires x in c && Count(Sub(t, p), x) == 0
    ensures x in FlushedCache(c, Sub(t, p), next) && FlushedCache(c, Sub(t, p), next)[x] == c[x]
  {
    hide FlushedCache;
    hide NewKid;
    hide Good;
    var s := Sub(t, p);
    KidFacts(c, s, next);
    forall i | 0 <= i < |s.kids| ensures s.kids[i].node.id != x && KidIds(NewKids(s, next))[i] != x {
      CountKid(s, i, x);
      NewKidShape(s, next, i);
    }
    OldsFacts(c, s, next, 0);
    FlushedCacheAt(c, s, next, x);
  }

  lemma FlushedWhole(c: Store, t: Tree, p: Path, next: NodeId)
    requires Holds(c, t, next) && ValidPath(t, p) && Sub(t, p).kids != []
    ensures Rep(FlushedCache(c, Sub(t, p), next), Update(t, p, FlushNode(Sub(t, p), next)))
  {
    hide FlushedCache;
    hide FlushNode;
    hide RootOk;
    SubReady(c, t, p, next);
    var s := Sub(t, p);
    var d := FlushedCache(c, s, next);
    FlushedRep(c, s, next);
    RepOpen(c, t, p);
    SubDistinct(t, p);
    forall x | x in c && Count(t, x) > Count(s, x) ensures x in d && d[x] == c[x] {
      assert Count(t, x) <= 1;
      OutsideKept(c, t, p, next, x);
    }
    RepHoleFrame(c, d, t, p);
    RepFill(d, t, p, FlushNode(s, next));
  }

  lemma FlushedCount(c: Store, t: Tree, p: Path, next: NodeId, x: NodeId)
    requires Holds(c, t, next) && ValidPath(t, p) && Sub(t, p).kids != []
    ensures var d, u := FlushedCache(c, Sub(t, p), next), Update(t, p, FlushNode(Sub(t, p), next));
            && Count(u, x) <= 1 && (x in d <==> Count(u, x) > 0)
            && (x in d ==> x < next + Used(Buckets(Sub(t, p)), |Sub(t, p).kids|))
  {
    hide FlushedCache;
    hide FlushNode;
    hide NewKid;
    hide Good;
    hide RootOk;
    SubReady(c, t, p, next);
    var s := Sub(t, p);
    KidFacts(c, s, next);
    CountUpdate(t, p, FlushNode(s, next), x);
    CountFlush(s, next, x);
    FlushedCacheAt(c, s, next, x);
    OldsFacts(c, s, next, 0);
    NewIdOrigin(c, s, next, x);
    assert Count(t, x) <= 1;
    FlushedCacheAt(c, s, next, s.node.id);
  }

  lemma NewIdOrigin(c: Store, s: Tree, next: NodeId, x: NodeId)
    requires Ready(c, s, next)
    ensures x in KidIds(NewKids(s, next)) ==>
              (if x < next then x in KidIds(s.kids) else x < next + Used(Buckets(s), |s.kids|)) && x !in Olds(s) && x != s.node.id
              && x in FlushedCache(c, s, next)
    ensures x in KidIds(s.kids) ==> Count(s, x) > 0 && x < next && (x in Olds(s) || x in KidIds(NewKids(s, next)))
    ensures Count(s, s.node.id) > 0 && s.node.id in c && forall y :: y in Olds(s) ==> y in KidIds(s.kids)
    ensures s.node.id !in KidIds(s.kids)
  {
    hide FlushedCache;
    hide NewKid;
    hide Good;
    KidFacts(c, s, next);
    OldsFacts(c, s, next, 0);
    if x in KidIds(NewKids(s, next)) {
      var i :| 0 <= i < |s.kids| && KidIds(NewKids(s, next))[i] == x;
      OldsFacts(c, s, next, i);
      NewKidShape(s, next, i);
      FlushedCacheAt(c, s, next, x);
      assert KidIds(s.kids)[i] == s.kids[i].node.id;
    }
    if x in KidIds(s.kids) {
      var i :| 0 <= i < |s.kids| && KidIds(s.kids)[i] == x;
      CountKid(s, i, x);
      OldsFacts(c, s, next, i);
      NewKidShape(s, next, i);
      assert KidIds(NewKids(s, next))[i] == NewKid(s, next, i).node.id;
    }
  }

  /** One flush, anywhere in the tree: the cache holds the flushed tree, which keeps every newest version. */
  lemma FlushHolds(c: Store, t: Tree, p: Path, next: NodeId)
    requires Holds(c, t, next) && ValidPath(t, p) && Sub(t, p).kids != []
    ensures var s := Sub(t, p);
            var u := Update(t, p, FlushNode(s, next));
            && Holds(FlushedCache(c, s, next), u, next + Used(Buckets(s), |s.kids|))
            && u.node.id == t.node.id && Compacts(E(u), E(t)) && (VersionOrder(t) ==> VersionOrder(u))
  {
    hide FlushedCache;
    hide FlushNode;
    hide Good;
    var s := Sub(t, p);
    var d, u := FlushedCache(c, s, next), Update(t, p, FlushNode(s, next));
    FlushedWhole(c, t, p, next);
    forall x: NodeId ensures Count(u, x) <= 1 && (x in d <==> Count(u, x) > 0)
                     ensures x in d ==> x < next + Used(Buckets(s), |s.kids|) {
      FlushedCount(c, t, p, next, x);
    }
    FlushStepOk(t, p, next);
  }

  lemma FlushStepOk(t: Tree, p: Path, next: NodeId)
    requires RootOk(t) && ValidPath(t, p) && Sub(t, p).kids != []
    ensures var u := Update(t, p, FlushNode(Sub(t, p), next));
            RootOk(u) && u.node.id == t.node.id && u.node.level == t.node.level
            && Compacts(E(u), E(t)) && (VersionOrder(t) ==> VersionOrder(u))
  {
    hide FlushNode;
    hide Good;
    hide RootOk;
    hide VersionOrder;
    var s := Sub(t, p);
    if p != [] { SubGood(t, p); }
    FlushNodeGood(s, next);
    FlushNodeFacts(s, next);
    UpdateRoot(t, p, FlushNode(s, next));
    if VersionOrder(t) {
      SubVersions(t, p);
      FlushVersions(s, next);
      UpdateVersions(t, p, FlushNode(s, next));
    }
  }
}
