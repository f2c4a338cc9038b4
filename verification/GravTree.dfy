/** The tree object: node cache, manifest and write buffer, with the represented tree as ghost state. */
module GravTreeModel {
  import opened Types
  import opened Entries
  import opened TreeModel
  import opened TreeFlush
  import opened TreeSplit
  import opened TreeStore
  import opened FlushOps
  import opened FlushStore
  import opened SplitStore
  import opened FlushLoop
  import opened FlushHot
  import opened FlushTidy
  import opened TreeShape
  import opened TreeRead
  import opened WriteView
  import opened Reference
  import opened ManifestModel
  import opened SkipListModel
  import opened TreeOps
  import Interleaving

  class GravTree {
    const manifest: Manifest
    const writeBuf: SkipList
    var cache: Store
    var nextSeq: nat

    /** The tree that the cache represents. */
    ghost var tree: Tree

    /** The newest write of every key in this session. */
    ghost var last: Writes

    ghost predicate TreeOk()
      reads this`cache, this`tree, manifest
    {
      manifest.Valid() && manifest.rootId == tree.node.id && Holds(cache, tree, manifest.nextId)
    }

    /** Every cached node's file is up to date, `x`'s aside. */
    ghost predicate SyncedBut(x: NodeId)
      reads this`cache, this`tree, manifest
    {
      x in cache && manifest.live[x := cache[x]] == cache
    }

    /** Nothing is only in memory, the saved manifest names exactly the nodes of the tree, the directory holds exactly their files. */
    ghost predicate Saved()
      reads this`cache, this`tree, manifest
    {
      manifest.live == cache && manifest.AtSavePoint() && manifest.TextOk() && manifest.Clean()
    }

    /** `open` on an empty directory. */
    constructor (m: Manifest)
      requires m.Valid() && m.Clean() && m.live == map[] && m.saved == None
      modifies m
      ensures manifest == m && Valid() && Saved() && last == map[] && nextSeq == 1 && fresh(writeBuf) && fresh(writeBuf.nodes)
    {
      hide Holds;
      hide VersionOrder;
      hide Current;
      manifest := m;
      writeBuf := new SkipList();
      cache, nextSeq, last := map[], 1, map[];
      tree := Tree(SSTNode(0, 0, [], [], [], []), []);
      new;
      Start();
    }

    method Start()
      requires manifest.Valid() && manifest.Clean() && manifest.live == map[] && manifest.saved == None && cache == map[]
      requires writeBuf.Valid() && writeBuf.Contents() == [] && last == map[]
      modifies this`cache, this`tree, manifest
      ensures Valid() && Saved()
    {
      hide Holds;
      hide VersionOrder;
      hide Current;
      hide E;
      hide Manifest.Clean;
      hide SkipList.Valid;
      hide Manifest.Valid;
      CurrentEmpty(nextSeq);
      EnsureRoot();
      LeafCached(cache, tree, [], manifest.nextId);
    }

    /** `ensure_root` when there is no root yet: an empty leaf. */
    method EnsureRoot()
      requires manifest.Valid() && manifest.Clean() && manifest.live == map[] && manifest.saved == None && cache == map[]
      modifies this`cache, this`tree, manifest
      ensures TreeOk() && Saved() && E(tree) == [] && VersionOrder(tree) && tree.kids == []
    {
      hide Holds;
      hide VersionOrder;
      hide Manifest.Clean;
      hide Manifest.AtSavePoint;
      hide Manifest.TextOk;
      hide Manifest.Valid;
      var rid := manifest.NextNodeId();
      EmptyTree(rid);
      var root := SSTNode(rid, 0, [], [], [], []);
      manifest.Install(root);
      manifest.SetRoot(rid);
      manifest.Save();
      cache := cache[rid := root];
      tree := Tree(root, []);
    }

    // ----- do_flush up to its recursion -----

    /** Copies the children out of the cache. */
    method GatherChildren(pid: NodeId, ghost s: Tree) returns (children: seq<SSTNode>)
      requires Rep(cache, s) && s.node.id == pid && s.node.childIds == KidIds(s.kids)
      ensures children == KidNodes(s.kids)
    {
      var parent := cache[pid];
      children := [];
      for i := 0 to |parent.childIds|
        invariant children == KidNodes(s.kids[..i])
      {
        assert Rep(cache, s.kids[i]);
        assert s.kids[..i + 1] == s.kids[..i] + [s.kids[i]];
        children := children + [cache[parent.childIds[i]]];
      }
      assert s.kids[..|s.kids|] == s.kids;
    }

    /** The refresh loop: new children enter the cache, internal ones with a range over their own children. */
    method RefreshChildren(children: seq<SSTNode>, oldIds: seq<NodeId>, ghost ns: seq<SSTNode>)
      requires manifest.Valid() && AllRounds(cache, oldIds, children, ns, manifest.nextId)
      modifies this`cache, manifest`files, manifest`nodes, manifest`live
      ensures manifest.Valid()
      ensures cache == Refreshed(old(cache), oldIds, ns, |ns|)
      ensures manifest.live == LiveRefreshed(old(manifest.live), ns, |ns|)
    {
      hide Manifest.Valid;
      hide FlushToDisk;
      hide Widen;
      for i := 0 to |children|
        invariant manifest.Valid()
        invariant cache == Refreshed(old(cache), oldIds, ns, i)
        invariant manifest.live == LiveRefreshed(old(manifest.live), ns, i)
      {
        assert RoundOk(old(cache), oldIds, children, ns, i, manifest.nextId);
        if i < |oldIds| {
          cache := cache - {oldIds[i]};
        }
        var c := children[i];
        if |c.childIds| > 0 {
          var cmin := cache[c.childIds[0]].minKey;
          var cmax := cache[c.childIds[|c.childIds| - 1]].maxKey;
          c := FlushToDisk(Widen(c, cmin, cmax));
          manifest.Install(c);
        }
        cache := cache[c.id := c];
      }
    }

    /** LocalFlush on the children, the pointer update and the cache refresh. */
    method FlushChildren(pid: NodeId, ghost s: Tree) returns (parent: SSTNode, newIds: seq<NodeId>)
      requires manifest.Valid() && Ready(cache, s, manifest.nextId) && s.node.id == pid
      modifies this`cache, manifest`nextId, manifest`files, manifest`nodes, manifest`live
      ensures manifest.Valid() && manifest.nextId == old(manifest.nextId) + Used(Buckets(s), |s.kids|)
      ensures newIds == KidIds(NewKids(s, old(manifest.nextId)))
      ensures cache == Middle(old(cache), s, old(manifest.nextId))
      ensures manifest.live == LiveMiddle(old(manifest.live), s, old(manifest.nextId))
      ensures parent == s.node.(childIds := newIds)
    {
      hide Ready;
      hide NewKid;
      hide AllRewritten;
      hide FlushedChildren;
      hide LiveRefreshed;
      hide FlushLive;
      hide AllRounds;
      hide Olds;
      hide StaleIds;
      hide Used;
      hide Buckets;
      hide BucketsOf;
      hide Manifest.Valid;
      ghost var next := manifest.nextId;
      ReadyParts(cache, s, next);
      FlushPlan(cache, s, next);
      parent := cache[pid];
      var children := GatherChildren(pid, s);
      var newChildren, oldIds;
      newChildren, newIds, oldIds := LocalFlush(parent, children, manifest);
      var childIds := UpdatePointers(parent.childIds, newIds, oldIds);
      RefreshChildren(newChildren, oldIds, KidNodes(NewKids(s, next)));
      parent := parent.(childIds := childIds);
    }

    /** `do_flush` up to its recursion: the parent is emptied, its range recomputed, and everything saved. */
    method FlushOne(pid: NodeId, ghost p: Path) returns (newIds: seq<NodeId>)
      requires TreeOk() && SyncedBut(pid) && ValidPath(tree, p)
      requires Sub(tree, p).node.id == pid && Sub(tree, p).kids != []
      modifies this`cache, this`tree, manifest
      ensures TreeOk() && Saved()
      ensures tree == Update(old(tree), p, FlushNode(Sub(old(tree), p), old(manifest.nextId)))
      ensures Interleaving.TreeActs(old(tree), Interleaving.Flush(p, old(manifest.nextId)), tree)
      ensures newIds == KidIds(NewKids(Sub(old(tree), p), old(manifest.nextId)))
      ensures cache == FlushedCache(old(cache), Sub(old(tree), p), old(manifest.nextId))
      ensures manifest.nextId == old(manifest.nextId) + Used(Buckets(Sub(old(tree), p)), |Sub(old(tree), p).kids|)
    {
      hide Holds;
      hide Ready;
      hide RootOk;
      hide NewKid;
      hide FlushNode;
      hide FlushToDisk;
      hide FlushedCache;
      hide FlushedLive;
      hide Middle;
      hide LiveMiddle;
      hide Used;
      hide Buckets;
      hide Update;
      hide KidIds;
      hide NewKids;
      hide ValidPath;
      hide Manifest.AtSavePoint;
      hide Manifest.TextOk;
      hide Manifest.Clean;
      hide Manifest.Valid;
      hide Interleaving.TreeActs;
      ghost var s, next, c, l := Sub(tree, p), manifest.nextId, cache, manifest.live;
      Interleaving.FlushActs(tree, p, next);
      assert Ready(c, s, next) by { SubReady(c, tree, p, next); }
      EndsCached(c, s, next);
      var parent;
      parent, newIds := FlushChildren(pid, s);
      parent := parent.(buffer := []);
      if |newIds| > 0 {
        parent := parent.(minKey := cache[newIds[0]].minKey, maxKey := cache[newIds[|newIds| - 1]].maxKey);
      }
      ParentPlan(c, s, next, cache, parent);
      parent := FlushToDisk(parent);
      manifest.Install(parent);
      cache := cache[pid := parent];
      tree := Update(tree, p, FlushNode(s, next));
      assert manifest.live == cache by {
        HoldsParts(c, old(tree), next);
        LivePlan(l, s, next);
        FlushedLiveIsCache(c, l, s, next);
      }
      assert Holds(cache, tree, manifest.nextId) && tree.node.id == old(tree).node.id by { FlushHolds(c, old(tree), p, next); }
      manifest.SaveAndGc();
    }

    // ----- path_to -----

    /** The depth-first search: `has` says whether the target is in this subtree, at `q`. */
    method Dfs(id: NodeId, target: NodeId, path: seq<NodeId>, ghost t: Tree, ghost q: Path, ghost has: bool)
      returns (found: bool, r: seq<NodeId>)
      requires t.node.id == id && Linked(t)
      requires if has then ValidPath(t, q) && Distinct(t) && Sub(t, q).node.id == target && RepHole(cache, t, q)
               else Count(t, target) == 0 && Rep(cache, t)
      ensures found == has && r == if has then path + IdsAlong(t, q) else path
      decreases t
    {
      r := path + [id];
      if has { OnlyAtTarget(t, q, target); }
      if id == target { return true, r; }
      var node := cache[id];
      for i := 0 to |node.childIds|
        invariant r == path + [id] && (has ==> i <= q[0])
      {
        if has { KidDistinct(t, i); } else { CountKid(t, i, target); }
        found, r := Dfs(node.childIds[i], target, r, t.kids[i], if has then q[1..] else [], has && i == q[0]);
        if found { return; }
      }
      return false, path;
    }

    method PathTo(target: NodeId, ghost q: Path) returns (r: seq<NodeId>)
      requires manifest.rootId == tree.node.id && Linked(tree) && Distinct(tree)
      requires ValidPath(tree, q) && Sub(tree, q).node.id == target && RepHole(cache, tree, q)
      ensures r == IdsAlong(tree, q)
    {
      var found;
      found, r := Dfs(manifest.rootId, target, [], tree, q, true);
    }

    // ----- insert_child -----

    /** What `insert_child` finds when it is called: `l` and `r` are in place of the subtree at `p`. */
    ghost predicate SplitPending(p: Path, l: Tree, r: Tree)
      reads this, manifest
    {
      && manifest.Valid() && manifest.rootId == tree.node.id && manifest.live == cache
      && Splitting(cache, tree, p, l, r, manifest.nextId)
    }

    /** The root was split: a new one, one level up, over the two halves. */
    method GrowRoot(leftId: NodeId, rightId: NodeId, level: nat, ghost l: Tree, ghost r: Tree)
      requires SplitPending([], l, r)
      requires leftId == l.node.id && rightId == r.node.id && level == l.node.level + 1
      modifies this`cache, this`tree, manifest
      ensures TreeOk() && manifest.live == cache
      ensures (tree, manifest.nextId) == InsertAt(old(tree), [], l, r, old(manifest.nextId))
      ensures cache == old(cache)[old(manifest.nextId) := tree.node]
    {
      hide Holds;
      hide Splitting;
      hide NewRoot;
      hide Create;
      hide FlushToDisk;
      hide Manifest.Valid;
      ghost var c, next := cache, manifest.nextId;
      HalvesCached(c, tree, [], l, r, next);
      NewRootNode(l, r, next);
      NewRootIds(l, r, next);
      NewRootHolds(c, tree, l, r, next);
      var id := manifest.NextNodeId();
      var root := CreateNode(id, level, [], [leftId, rightId]);
      root := FlushToDisk(root.(minKey := cache[leftId].minKey, maxKey := cache[rightId].maxKey));
      manifest.Install(root);
      manifest.SetRoot(id);
      cache := cache[id := root];
      tree := NewRoot(l, r, next);
    }

    /** The parent has room. */
    method AdoptHalves(parentId: NodeId, pos: nat, leftId: NodeId, rightId: NodeId, ghost p: Path, ghost l: Tree, ghost r: Tree)
      requires p != [] && SplitPending(p, l, r) && ValidPath(tree, Parent(p))
      requires parentId == Sub(tree, Parent(p)).node.id && pos == Last(p) < |Sub(tree, Parent(p)).kids| < MAX_FANOUT
      requires leftId == l.node.id && rightId == r.node.id
      modifies this`cache, this`tree, manifest
      ensures TreeOk() && manifest.live == cache && manifest.nextId == old(manifest.nextId)
      ensures tree == Update(old(tree), Parent(p), Adopt(Sub(old(tree), Parent(p)), Last(p), l, r))
      ensures cache == old(cache)[parentId := Adopt(Sub(old(tree), Parent(p)), Last(p), l, r).node]
    {
      hide Holds;
      hide Splitting;
      hide Adopt;
      hide FlushToDisk;
      hide Manifest.Valid;
      hide Update;
      ghost var c, next, q := cache, manifest.nextId, Sub(tree, Parent(p));
      ParentView(c, tree, p, l, r, next);
      AdoptHolds(c, tree, p, l, r, next);
      AdoptNode(q, pos, l, r);
      AdoptIds(q, pos, l, r);
      AdoptRootId(tree, p, l, r);
      var parent := cache[parentId];
      var ids := ShiftIn(parent.childIds, pos, leftId, rightId);
      assert ids == KidIds(Two(q.kids, pos, l, r));
      parent := FlushToDisk(parent.(childIds := ids, minKey := cache[ids[0]].minKey, maxKey := cache[ids[|ids| - 1]].maxKey));
      manifest.Install(parent);
      cache := cache[parentId := parent];
      tree := Update(tree, Parent(p), Adopt(q, pos, l, r));
    }

    /** A node gives way to two new ones, in the manifest, on disk and in the cache. */
    method SwapNodes(oldId: NodeId, ln: SSTNode, rn: SSTNode)
      requires manifest.Valid() && SyncedBut(oldId) && ln.id != oldId && rn.id != oldId
      requires ln.id < manifest.nextId && rn.id < manifest.nextId
      modifies this`cache, manifest`files, manifest`nodes, manifest`live
      ensures manifest.Valid() && manifest.live == cache && cache == Replaced(old(cache), oldId, ln, rn)
    {
      hide Manifest.Valid;
      hide Replaced;
      ReplacedLast(cache, manifest.live, oldId, ln, rn);
      manifest.Invalidate(oldId);
      manifest.Install(ln);
      manifest.Install(rn);
      cache := cache[ln.id := ln][rn.id := rn];
      cache := cache - {oldId};
    }

    /** The two nodes that a full parent is split into; they are not in the cache yet. */
    method MakeHalves(parent: SSTNode, pos: nat, leftId: NodeId, rightId: NodeId, lid: NodeId, ghost p: Path, ghost l: Tree, ghost r: Tree)
      returns (ln: SSTNode, rn: SSTNode)
      requires p != [] && Splitting(cache, tree, p, l, r, lid) && ValidPath(tree, Parent(p))
      requires parent == Sub(tree, Parent(p)).node && pos == Last(p) < |Sub(tree, Parent(p)).kids| == MAX_FANOUT
      requires leftId == l.node.id && rightId == r.node.id
      ensures ln == LeftHalf(Sub(tree, Parent(p)), pos, l, r, lid).node && ln.id == lid
      ensures rn == RightHalf(Sub(tree, Parent(p)), pos, l, r, lid).node && rn.id == lid + 1
    {
      hide Splitting;
      hide LeftHalf;
      hide RightHalf;
      hide Create;
      hide FlushToDisk;
      ghost var q := Sub(tree, Parent(p));
      ParentView(cache, tree, p, l, r, lid);
      HalfNodes(q, pos, l, r, lid);
      HalfIds(q, pos, l, r, lid);
      var kids := parent.childIds[..pos] + [leftId, rightId] + parent.childIds[pos + 1..];
      assert kids == KidIds(Two(q.kids, pos, l, r));
      var half := |kids| / 2;
      var rightMin := cache[kids[half]].minKey;
      var lbuf, rbuf := DivideBuffer(parent.buffer, rightMin);
      ln := CreateNode(lid, parent.level, lbuf, kids[..half]);
      rn := CreateNode(lid + 1, parent.level, rbuf, kids[half..]);
      ln := FlushToDisk(ln.(minKey := cache[kids[0]].minKey, maxKey := cache[kids[half - 1]].maxKey));
      rn := FlushToDisk(rn.(minKey := cache[kids[half]].minKey, maxKey := cache[kids[|kids| - 1]].maxKey));
    }

    /** The parent is full: it is replaced by two nodes, one of which takes each half of the children. */
    method SplitParent(parentId: NodeId, pos: nat, leftId: NodeId, rightId: NodeId, ghost p: Path, ghost l: Tree, ghost r: Tree)
      returns (lid: NodeId, rid: NodeId, path: seq<NodeId>)
      requires p != [] && SplitPending(p, l, r) && ValidPath(tree, Parent(p))
      requires parentId == Sub(tree, Parent(p)).node.id && pos == Last(p) < |Sub(tree, Parent(p)).kids| == MAX_FANOUT
      requires leftId == l.node.id && rightId == r.node.id
      modifies this`cache, manifest
      ensures lid == old(manifest.nextId) && rid == lid + 1 && path == IdsAlong(tree, Parent(p))
      ensures var a, b := LeftHalf(Sub(tree, Parent(p)), pos, l, r, lid), RightHalf(Sub(tree, Parent(p)), pos, l, r, lid);
              && a.node.id == lid && b.node.id == rid
              && SplitPending(Parent(p), a, b) && cache == Replaced(old(cache), parentId, a.node, b.node)
      ensures manifest.nextId == lid + 2
    {
      hide Splitting;
      hide LeftHalf;
      hide RightHalf;
      hide Two;
      hide IdsAlong;
      hide ValidPath;
      hide Linked;
      hide Distinct;
      hide RepHole;
      hide Manifest.Valid;
      ghost var c, next := cache, manifest.nextId;
      ParentCached(c, tree, p, l, r, next);
      CascadeStep(c, tree, p, l, r, next);
      var parent := cache[parentId];
      var ln, rn := MakeHalves(parent, pos, leftId, rightId, manifest.nextId, p, l, r);
      lid := manifest.NextNodeId();
      rid := manifest.NextNodeId();
      path := PathTo(parentId, Parent(p));
      SwapNodes(parentId, ln, rn);
    }

    /**
     * `insert_child`: the parent takes both halves in the old child's slot, or splits in turn and
     * passes its own halves up, or the tree grows a root.
     */
    method InsertChild(parentId: NodeId, oldId: NodeId, leftId: NodeId, rightId: NodeId, ghost p: Path, ghost l: Tree, ghost r: Tree)
      requires p != [] && SplitPending(p, l, r) && ValidPath(tree, Parent(p))
      requires parentId == Sub(tree, Parent(p)).node.id && oldId == Sub(tree, p).node.id
      requires leftId == l.node.id && rightId == r.node.id
      modifies this`cache, this`tree, manifest
      ensures TreeOk() && manifest.live == cache
      ensures (tree, manifest.nextId) == InsertAt(old(tree), p, l, r, old(manifest.nextId))
      ensures KeptBut(old(cache), cache, IdsAlong(old(tree), p), old(manifest.nextId))
      ensures |Sub(old(tree), Parent(p)).kids| == MAX_FANOUT ==> parentId !in cache
      decreases |p|
    {
      hide Splitting;
      hide LeftHalf;
      hide RightHalf;
      hide Adopt;
      hide Update;
      hide InsertAt;
      hide IdsAlong;
      hide KeptBut;
      hide Two;
      hide RepHole;
      hide Manifest.Valid;
      hide Holds;
      ghost var c, next, q := cache, manifest.nextId, Sub(tree, Parent(p));
      ParentView(c, tree, p, l, r, next);
      var parent := cache[parentId];
      InsertAtStep(tree, p, l, r, next);
      var pos := Find(parent.childIds, oldId);
      if |parent.childIds| < MAX_FANOUT {
        if q.node.buffer == [] { AdoptEmpty(q, pos, l, r); }
        AdoptHalves(parentId, pos, leftId, rightId, p, l, r);
        KeptOne(c, cache, old(tree), p, Adopt(q, pos, l, r).node, next);
        return;
      }
      var lid, rid, path := SplitParent(parentId, pos, leftId, rightId, p, l, r);
      ghost var a, b := LeftHalf(q, pos, l, r, next), RightHalf(q, pos, l, r, next);
      ghost var d := cache;
      HalvesCached(d, tree, Parent(p), a, b, next + 2);
      KeptReplaced(c, d, tree, Parent(p), a.node, b.node, next);
      if |path| == 1 {
        GrowRoot(lid, rid, parent.level + 1, a, b);
      } else {
        ParentPath(tree, Parent(p));
        SecondLast(tree, Parent(p));
        InsertChild(path[|path| - 2], parentId, lid, rid, Parent(p), a, b);
      }
      KeptTrans(c, d, cache, old(tree), p, next, next + 2);
      manifest.SaveAndGc();
    }

    // ----- split_leaf -----

    /** The two new leaves. */
    method HalveLeaf(leaf: SSTNode, lid: NodeId, ghost t: Tree) returns (ln: SSTNode, rn: SSTNode)
      requires t.node == leaf
      ensures ln == LeftLeaf(t, lid).node && rn == RightLeaf(t, lid).node && ln.id == lid && rn.id == lid + 1
    {
      hide StableSort;
      hide SortBuffer;
      var sorted := StableSorted(leaf.buffer);
      var mid := |sorted| / 2;
      ln := CreateNode(lid, 0, sorted[..mid], []);
      rn := CreateNode(lid + 1, 0, sorted[mid..], []);
    }

    /** The leaf gives way to its two halves; nothing points at them yet. */
    method ReplaceLeaf(leafId: NodeId, ghost p: Path) returns (lid: NodeId, rid: NodeId)
      requires TreeOk() && SyncedBut(leafId) && ValidPath(tree, p)
      requires Sub(tree, p).node.id == leafId && Sub(tree, p).kids == [] && Sub(tree, p).node.level == 0
      requires CleanCut(StableSort(Sub(tree, p).node.buffer))
      modifies this`cache, manifest`nextId, manifest`files, manifest`nodes, manifest`live
      ensures var l, r := LeftLeaf(Sub(tree, p), lid), RightLeaf(Sub(tree, p), lid);
              SplitPending(p, l, r) && l.node.id == lid && r.node.id == rid
      ensures lid == old(manifest.nextId) && manifest.nextId == lid + 2
      ensures KeptBut(old(cache), cache, IdsAlong(tree, p), lid)
    {
      hide Holds;
      hide Splitting;
      hide LeftLeaf;
      hide RightLeaf;
      hide CleanCut;
      hide StableSort;
      hide IdsAlong;
      hide Replaced;
      hide Manifest.Valid;
      ghost var c, next := cache, manifest.nextId;
      LeafCached(c, tree, p, next);
      LeafStart(c, tree, p, next);
      HoldsParts(c, tree, next);
      LeafIds(Sub(tree, p), next);
      var leaf := cache[leafId];
      var ln, rn := HalveLeaf(leaf, manifest.nextId, Sub(tree, p));
      lid := manifest.NextNodeId();
      rid := manifest.NextNodeId();
      SwapNodes(leafId, ln, rn);
      KeptReplaced(c, cache, tree, p, ln, rn, next);
    }

    /** `split_leaf`, for a leaf that no key straddles; `path` ends in the leaf's parent and the leaf. */
    method SplitLeaf(leafId: NodeId, path: seq<NodeId>, ghost p: Path)
      requires TreeOk() && SyncedBut(leafId) && ValidPath(tree, p)
      requires Sub(tree, p).node.id == leafId && Sub(tree, p).kids == [] && Sub(tree, p).node.level == 0
      requires CleanCut(StableSort(Sub(tree, p).node.buffer))
      requires if p == [] then |path| == 1
               else |path| >= 2 && ValidPath(tree, Parent(p)) && path[|path| - 2] == Sub(tree, Parent(p)).node.id
      modifies this`cache, this`tree, manifest
      ensures TreeOk() && Saved()
      ensures (tree, manifest.nextId) == SplitAt(old(tree), p, old(manifest.nextId))
      ensures Interleaving.TreeActs(old(tree), Interleaving.Split(p, old(manifest.nextId)), tree)
      ensures KeptBut(old(cache), cache, IdsAlong(old(tree), p), old(manifest.nextId))
      ensures p != [] && |Sub(old(tree), Parent(p)).kids| == MAX_FANOUT ==> Sub(old(tree), Parent(p)).node.id !in cache
    {
      hide Holds;
      hide Splitting;
      hide LeftLeaf;
      hide RightLeaf;
      hide CleanCut;
      hide StableSort;
      hide InsertAt;
      hide IdsAlong;
      hide ValidPath;
      hide KeptBut;
      hide Interleaving.TreeActs;
      hide SplitOf;
      hide Manifest.Valid;
      ghost var t, next, leaf := tree, manifest.nextId, Sub(tree, p);
      HoldsParts(cache, tree, next);
      Interleaving.SplitActs(tree, p, next);
      var lid, rid := ReplaceLeaf(leafId, p);
      ghost var l, r, d := LeftLeaf(leaf, next), RightLeaf(leaf, next), cache;
      ghost var u := InsertAt(t, p, l, r, next + 2);
      assert u == SplitAt(t, p, next);
      hide SplitAt;
      if |path| == 1 {
        assert p == [];
        HalvesCached(d, tree, p, l, r, next + 2);
        GrowRoot(lid, rid, 1, l, r);
      } else {
        InsertChild(path[|path| - 2], leafId, lid, rid, p, l, r);
      }
      assert (tree, manifest.nextId) == u;
      KeptChain(old(cache), d, cache, IdsAlong(t, p), next, next + 2);
      manifest.SaveAndGc();
    }

    // ----- do_flush -----

    /** What a completed step promises about the tree it started from. */
    ghost predicate Kept(c0: Store, t0: Tree, s: Tree)
      reads this, manifest
    {
      && TreeOk() && Saved()
      && Compacts(E(tree), E(t0)) && (VersionOrder(t0) ==> VersionOrder(tree)) && Keeps(c0, cache, s)
    }

    /**
     * `do_flush`: one flush, then every new child that overflowed is split or flushed in turn.
     * It runs to the end exactly if no child has to be split under a parent that an earlier split
     * of the same loop has already replaced; otherwise `get_node` throws, because the parent is
     * neither cached nor listed as valid any more.
     */
    method DoFlush(pid: NodeId, ghost p: Path, ghost h: nat) returns (ok: bool, ghost mid: seq<Tree>)
      requires TreeOk() && SyncedBut(pid) && Small(E(tree)) && ValidPath(tree, p)
      requires Sub(tree, p).node.id == pid && Sub(tree, p).kids != [] && Sub(tree, p).node.level == h
      modifies this`cache, this`tree, manifest
      ensures ok <==> !Stuck(Sub(old(tree), p).node.buffer, Sub(old(tree), p).kids)
      ensures ok ==> Kept(old(cache), old(tree), Sub(old(tree), p))
      ensures ok ==> Flushed(old(cache), old(tree), old(manifest.nextId), p, cache, tree, mid) && manifest.nextId >= old(manifest.nextId)
      decreases h, 1
    {
      hide Holds;
      hide Progress;
      hide Tidy;
      hide Flushed;
      hide FlushedCache;
      hide FlushNode;
      hide NewKid;
      hide Update;
      hide Stuck;
      hide Filled;
      hide VersionOrder;
      hide Keeps;
      hide Manifest.Valid;
      ghost var c0, t0, n0 := cache, tree, manifest.nextId;
      ProgressStart(c0, t0, n0, p);
      TidyStart(c0, t0, n0, p);
      var newIds := FlushOne(pid, p);
      mid := [];
      for i := 0 to |newIds|
        invariant TreeOk() && Saved() && Progress(c0, t0, n0, p, cache, tree, i)
        invariant Tidy(c0, t0, n0, p, cache, tree, i, mid) && manifest.nextId >= n0
      {
        var cid := newIds[i];
        ProgressHead(c0, t0, n0, p, cache, tree, i);
        if cid in cache {
          ok, mid := Settle(pid, cid, c0, t0, n0, p, i, h, mid);
          if !ok { return; }
        }
      }
      ProgressEnd(c0, t0, n0, p, cache, tree);
      TidyEnd(c0, t0, n0, p, cache, tree, mid);
      ok := true;
    }

    /** One round of the loop: a full leaf is split, a full inner child is flushed. */
    method Settle(pid: NodeId, cid: NodeId, ghost c0: Store, ghost t0: Tree, ghost n0: NodeId, ghost p: Path, ghost i: nat, ghost h: nat,
                  ghost done: seq<Tree>)
      returns (ok: bool, ghost more: seq<Tree>)
      requires TreeOk() && Saved() && Progress(c0, t0, n0, p, cache, tree, i) && ValidPath(t0, p) && i < |Sub(t0, p).kids|
      requires Tidy(c0, t0, n0, p, cache, tree, i, done) && manifest.nextId >= n0
      requires pid == Sub(t0, p).node.id && Sub(t0, p).node.level == h && cid == NewKid(Sub(t0, p), n0, i).node.id
      requires cid in cache
      modifies this`cache, this`tree, manifest
      ensures ok ==> TreeOk() && Saved() && Progress(c0, t0, n0, p, cache, tree, i + 1)
      ensures ok ==> Tidy(c0, t0, n0, p, cache, tree, i + 1, more) && manifest.nextId >= old(manifest.nextId)
      ensures !ok ==> Stuck(Sub(t0, p).node.buffer, Sub(t0, p).kids)
      decreases h, 0
    {
      hide Holds;
      hide Progress;
      hide Tidy;
      hide Flushed;
      hide NewKid;
      hide Stuck;
      hide Filled;
      hide VersionOrder;
      hide Keeps;
      hide Good;
      hide Rep;
      hide Linked;
      hide CleanCut;
      hide StableSort;
      hide SplitAt;
      hide KeptBut;
      hide IdsAlong;
      hide Leaves;
      hide Manifest.Valid;
      ghost var c, t, next := cache, tree, manifest.nextId;
      ProgressHead(c0, t0, n0, p, c, t, i);
      var child := cache[cid];
      if !BufferFull(child.buffer) {
        ProgressSkip(c0, t0, n0, p, c, t, i);
        TidySkip(c0, t0, n0, p, c, t, i, done, next);
        return true, done + Leaves(NewKid(Sub(t0, p), n0, i));
      }
      if child.level == 0 && |child.childIds| == 0 {
        AliveOrDead(c0, t0, n0, p, c, t, i, next);
        if pid !in cache { return false, done; }
        ghost var j := SplitReady(c0, t0, n0, p, c, t, i, next);
        SplitLeaf(cid, [pid, cid], p + [j]);
        SplitAtNext(t, p + [j], next);
        ProgressSplit(c0, t0, n0, p, c, t, i, next, j, cache);
        ghost var mid := TidySplit(c0, t0, n0, p, c, t, i, done, next, j, cache);
        more := done + mid;
      } else {
        ghost var q := FindSub(c, t, next, NewKid(Sub(t0, p), n0, i));
        ProgressSmall(c0, t0, n0, p, c, t, i);
        ghost var mid;
        ok, mid := DoFlush(cid, q, h - 1);
        if !ok {
          ProgressFlushable(c0, t0, n0, p, c, t, i);
          StuckInner(Sub(t0, p), i);
          return false, done;
        }
        ProgressInner(c0, t0, n0, p, c, t, i, cache, tree);
        TidyInner(c0, t0, n0, p, c, t, i, done, next, q, cache, tree, mid);
        more := done + mid;
      }
      ok := true;
    }

    // ----- the read path -----

    /** The scan of `find_path` over one node's children: stop at the first minimum above the key. */
    method PickChild(node: SSTNode, k: Key, ghost t: Tree) returns (next: NodeId)
      requires Rep(cache, t) && t.node == node && node.childIds == KidIds(t.kids) && t.kids != []
      ensures var r := ScanUp(KidMins(t.kids), k, 0); r < |t.kids| && next == t.kids[r].node.id
    {
      ScanEnd(KidMins(t.kids), k, 0);
      next := node.childIds[0];
      var i := 0;
      while i < |node.childIds|
        invariant 0 <= i <= |t.kids| && next == t.kids[if i == 0 then 0 else i - 1].node.id
        invariant ScanUp(KidMins(t.kids), k, i) == ScanUp(KidMins(t.kids), k, 0)
      {
        assert Rep(cache, t.kids[i]);
        var child := cache[node.childIds[i]];
        if KeyLess(k, child.minKey) { break; }
        next := node.childIds[i];
        i := i + 1;
      }
    }

    method FindPath(k: Key) returns (path: seq<NodeId>)
      requires TreeOk()
      ensures path == IdsAlong(tree, RoutePath(tree, k))
      ensures forall x, e :: x in cache && e in cache[x].buffer && e.key == k ==> x in path
    {
      hide Holds;
      hide RoutePath;
      hide IdsAlong;
      hide ScanUp;
      hide RootOk;
      hide Good;
      HoldsParts(cache, tree, manifest.nextId);
      VersionsOnPath(cache, tree, manifest.nextId, k);
      path := [];
      var cur := manifest.rootId;
      ghost var t := tree;
      while true
        invariant Rep(cache, t) && t.node.id == cur && (RootOk(t) || Good(t))
        invariant path + IdsAlong(t, RoutePath(t, k)) == IdsAlong(tree, RoutePath(tree, k))
        decreases t
      {
        NodeShape(t);
        path := path + [cur];
        var node := cache[cur];
        if node.level == 0 {
          RouteLeaf(t, k);
          break;
        }
        RouteStep(t, k);
        cur := PickChild(node, k, t);
        t := t.kids[ScanUp(KidMins(t.kids), k, 0)];
      }
    }

    /**
     * `get` below the write buffer.  `maybe` is the Bloom filter's answer, which the guard asks for
     * only when the buffer is empty: whatever it answers, the newest stored version is found.
     */
    method GetFromTree(k: Key, maybe: SSTNode -> bool) returns (r: Option<Entry>)
      requires TreeOk() && VersionOrder(tree)
      ensures r == Best(E(tree), k)
    {
      hide Holds;
      hide NodeGet;
      hide Lookup;
      hide RootOk;
      hide VersionOrder;
      var path := FindPath(k);
      HoldsParts(cache, tree, manifest.nextId);
      LookupAlong(cache, tree, k);
      LookupIsBest(tree, k);
      for i := 0 to |path|
        invariant FirstHit(cache, path[i..], k) == Best(E(tree), k)
      {
        assert path[i..][0] == path[i] && path[i..][1..] == path[i + 1..];
        var node := cache[path[i]];
        EmptyMisses(k);
        if node.buffer != [] || maybe(node) {
          var hit := NodeGet(node.buffer, k);
          if hit.Some? { return hit; }
        }
      }
      r := None;
    }

    // ----- writes and reads -----

    /** The invariant between operations: one session's writes, no more and no less, and no full inner node below the root. */
    ghost predicate Valid()
      reads this, manifest, writeBuf, writeBuf.nodes
    {
      Steady() && writeBuf.Valid() && Current(writeBuf.Contents(), E(tree), nextSeq, last)
    }

    /** The part of it that writes do not touch: the tree, its files but for the root's, the manifest. */
    ghost predicate Steady()
      reads this`cache, this`tree, manifest
    {
      && TreeOk() && VersionOrder(tree)
      && manifest.AtSavePoint() && manifest.TextOk() && SyncedBut(tree.node.id)
      && (tree.node.buffer == [] ==> manifest.live == cache)
      && manifest.Clean() && HotKids(tree.kids) == 0
    }

    /** The object as a state of the interleaving model, between operations. */
    ghost function View(): Interleaving.State
      requires |writeBuf.nodes| >= 1
      reads this, writeBuf
    {
      Interleaving.State(writeBuf.Contents(), [], tree, nextSeq, last)
    }

    /** Every entry is smaller than a full buffer. */
    ghost predicate AllSmall()
      reads this, writeBuf
    {
      |writeBuf.nodes| >= 1 && Small(writeBuf.Contents()) && Small(E(tree))
    }

    /** `insert` and `remove`: one entry with the next sequence number. */
    method Write(e: Entry, h: nat)
      requires Valid() && e.seqNo == nextSeq && 1 <= h <= MAX_HEIGHT
      modifies this`nextSeq, this`last, writeBuf, writeBuf.nodes
      ensures Valid() && last == old(last)[e.key := e] && nextSeq == old(nextSeq) + 1
      ensures writeBuf.Contents() == InsertEntry(e, old(writeBuf.Contents()))
      ensures View() == Interleaving.Do(old(View()), Interleaving.Write(e))
      ensures forall n :: n in writeBuf.nodes ==> n in old(writeBuf.nodes) || fresh(n)
    {
      hide Holds;
      hide VersionOrder;
      hide Current;
      hide InsertEntry;
      hide GravTree.Steady;
      hide SkipList.Valid;
      hide Inserted;
      hide LowerBound;
      hide Sorted;
      hide Values;
      writeBuf.ContentsSorted();
      CurrentInsert(writeBuf.Contents(), E(tree), nextSeq, last, e);
      writeBuf.Insert(e, h);
      writeBuf.ContentsSorted();
      nextSeq := nextSeq + 1;
      last := last[e.key := e];
    }

    method Insert(k: Key, v: Value, h: nat)
      requires Valid() && nextSeq <= MAX_SEQ && 1 <= h <= MAX_HEIGHT
      modifies this`nextSeq, this`last, writeBuf, writeBuf.nodes
      ensures Valid() && last == old(last)[k := Entry(k, v, old(nextSeq), false)] && nextSeq == old(nextSeq) + 1
      ensures old(AllSmall()) && EntryBytes(Entry(k, v, 0, false)) < BUFFER_THRESHOLD ==> AllSmall()
      ensures forall n :: n in writeBuf.nodes ==> n in old(writeBuf.nodes) || fresh(n)
    {
      hide Holds;
      hide VersionOrder;
      hide Current;
      hide Small;
      hide InsertEntry;
      hide GravTree.Steady;
      var e := Entry(k, v, nextSeq, false);
      if AllSmall() && EntryBytes(e) < BUFFER_THRESHOLD { SmallInsert(writeBuf.Contents(), e); }
      Write(e, h);
    }

    method Remove(k: Key, h: nat)
      requires Valid() && nextSeq <= MAX_SEQ && 1 <= h <= MAX_HEIGHT
      modifies this`nextSeq, this`last, writeBuf, writeBuf.nodes
      ensures Valid() && last == old(last)[k := Entry(k, [], old(nextSeq), true)] && nextSeq == old(nextSeq) + 1
      ensures old(AllSmall()) && EntryBytes(Entry(k, [], 0, true)) < BUFFER_THRESHOLD ==> AllSmall()
      ensures forall n :: n in writeBuf.nodes ==> n in old(writeBuf.nodes) || fresh(n)
    {
      hide Holds;
      hide VersionOrder;
      hide Current;
      hide Small;
      hide InsertEntry;
      hide GravTree.Steady;
      var e := Entry(k, [], nextSeq, true);
      if AllSmall() && EntryBytes(e) < BUFFER_THRESHOLD { SmallInsert(writeBuf.Contents(), e); }
      Write(e, h);
    }

    /** `get`: the value of the newest write of the key, whatever the Bloom filters answer. */
    method Get(k: Key, maybe: SSTNode -> bool) returns (r: Option<Value>)
      requires Valid()
      ensures r == Answer(Latest(last, k))
    {
      hide Holds;
      hide VersionOrder;
      hide Current;
      CurrentRead(writeBuf.Contents(), E(tree), nextSeq, last, k);
      var e := writeBuf.FindKey(k);
      if e.None? { e := GetFromTree(k, maybe); }
      if e.None? || e.value.deleted { return None; }
      r := Some(e.value.value);
    }

    /** Empties the write buffer. */
    method TakeBuffer() returns (pending: seq<Entry>)
      requires writeBuf.Valid()
      modifies writeBuf, writeBuf.nodes
      ensures writeBuf.Valid() && pending == old(writeBuf.Contents()) && writeBuf.Contents() == []
      ensures forall n :: n in writeBuf.nodes ==> n in old(writeBuf.nodes)
    {
      pending := writeBuf.ToSortedVector();
      writeBuf.Clear();
    }

    /** Appends the entries to the root's buffer and sorts it. */
    method MergeIntoRoot(pending: seq<Entry>)
      requires Steady()
      modifies this`cache, this`tree
      ensures tree == Drained(old(tree), pending) && TreeOk() && SyncedBut(tree.node.id)
      ensures tree.node.buffer == [] ==> manifest.live == cache
    {
      hide Holds;
      hide VersionOrder;
      hide StableSort;
      hide Manifest.Valid;
      hide Manifest.Clean;
      DrainHolds(cache, tree, manifest.nextId, pending);
      DrainNothing(tree, pending);
      var id := manifest.rootId;
      var root := cache[id];
      var sorted := StableSorted(root.buffer + pending);
      root := root.(buffer := sorted);
      cache := cache[id := root];
      tree := Drained(tree, pending);
    }

    /** Takes the write buffer and merges it into the root's buffer. */
    method DrainToRoot()
      requires Valid()
      modifies this`cache, this`tree, writeBuf, writeBuf.nodes
      ensures tree == Drained(old(tree), old(writeBuf.Contents()))
      ensures writeBuf.Valid() && View() == Interleaving.Do(Interleaving.Do(old(View()), Interleaving.Take), Interleaving.Merge(0))
      ensures TreeOk() && VersionOrder(tree) && SyncedBut(tree.node.id) && (tree.node.buffer == [] ==> manifest.live == cache)
      ensures writeBuf.Contents() == [] && Current([], E(tree), nextSeq, last)
      ensures forall n :: n in writeBuf.nodes ==> n in old(writeBuf.nodes)
    {
      hide Holds;
      hide VersionOrder;
      hide Current;
      hide Drained;
      hide Interleaving.Do;
      hide SkipList.Valid;
      hide Manifest.Valid;
      hide Manifest.Clean;
      writeBuf.ContentsSorted();
      ghost var w := writeBuf.Contents();
      Interleaving.DrainActs(View());
      CurrentDrain(w, tree, nextSeq, last);
      DrainOrdered(w, tree, nextSeq, last);
      var pending := TakeBuffer();
      MergeIntoRoot(pending);
      writeBuf.ContentsSorted();
    }

    // ----- flushing -----

    /** The tree was rewritten into one with the same newest versions, and everything was saved. */
    lemma StillValid(w: seq<Entry>, t0: Tree)
      requires TreeOk() && Saved() && VersionOrder(tree) && Compacts(E(tree), E(t0)) && HotKids(tree.kids) == 0
      requires writeBuf.Valid() && writeBuf.Contents() == w && Current(w, E(t0), nextSeq, last)
      ensures Valid()
    {
      hide Holds;
      hide VersionOrder;
      hide Current;
      hide SkipList.Valid;
      hide Manifest.Clean;
      hide HotKids;
      hide Manifest.Valid;
      CurrentCompact(w, E(t0), E(tree), nextSeq, last);
      LeafCached(cache, tree, [], manifest.nextId);
    }

    /** The root is a leaf that overflowed: the tree grows its first level. */
    method SplitRootLeaf(id: NodeId)
      requires TreeOk() && VersionOrder(tree) && SyncedBut(id) && id == tree.node.id
      requires tree.kids == [] && CleanCut(tree.node.buffer)
      modifies this`cache, this`tree, manifest
      ensures TreeOk() && Saved() && VersionOrder(tree) && Compacts(E(tree), E(old(tree)))
      ensures (tree, manifest.nextId) == SplitAt(old(tree), [], old(manifest.nextId))
    {
      hide Holds;
      hide VersionOrder;
      hide Manifest.Valid;
      hide SplitAt;
      hide Compacts;
      hide CleanCut;
      hide RootOk;
      HoldsParts(cache, tree, manifest.nextId);
      RootLeafCuts(tree);
      var root := cache[id];
      var path := FindPath(if root.buffer == [] then [] else root.buffer[0].key);
      SplitAtFacts(tree, [], manifest.nextId);
      SplitLeaf(id, path, []);
    }

    /** The root overflowed: a leaf is split, an inner root is flushed. */
    method FlushFullRoot(id: NodeId) returns (ok: bool)
      requires TreeOk() && VersionOrder(tree) && SyncedBut(id) && id == tree.node.id
      requires BufferFull(tree.node.buffer) && HotKids(tree.kids) == 0
      requires if tree.kids == [] then CleanCut(tree.node.buffer) else Small(E(tree))
      modifies this`cache, this`tree, manifest
      ensures ok <==> old(tree).kids == [] || !Stuck(old(tree).node.buffer, old(tree).kids)
      ensures ok ==> TreeOk() && Saved() && VersionOrder(tree) && Compacts(E(tree), E(old(tree)))
      ensures ok ==> RoundDone(old(tree), old(manifest.nextId), tree) && HotCount(tree) == 0 && tree.kids != []
    {
      hide Holds;
      hide VersionOrder;
      hide CleanCut;
      hide Stuck;
      hide Compacts;
      hide Keeps;
      hide Small;
      hide SplitAt;
      hide Flushed;
      hide HotCount;
      hide RoundDone;
      hide Manifest.Valid;
      ghost var c, t, next := cache, tree, manifest.nextId;
      RootShape(cache, tree, manifest.nextId);
      var root := cache[id];
      if root.level == 0 && |root.childIds| == 0 {
        SplitRootLeaf(id);
        LeafRoundDone(t, next);
        ok := true;
      } else {
        ghost var mid;
        ok, mid := DoFlush(id, [], tree.node.level);
        if ok { InnerRoundDone(c, t, next, cache, tree, manifest.nextId, mid); }
      }
    }

    /**
     * One round of the flush thread.  It completes exactly if no parent is gone when a child of it
     * has to be split.  A completed round changes no read and leaves neither the root nor any other
     * inner node full: a full root leaf has become two leaves, a full inner root has been emptied
     * all the way down.
     */
    method BackgroundFlush() returns (ok: bool)
      requires Valid() && !Straddles(tree, writeBuf.Contents()) && (tree.kids != [] ==> AllSmall())
      modifies this`cache, this`tree, manifest, writeBuf, writeBuf.nodes
      ensures ok <==> !Jams(old(tree), old(writeBuf.Contents()))
      ensures ok ==> Valid() && writeBuf.Contents() == [] && (old(AllSmall()) ==> AllSmall())
      ensures ok ==> RoundDone(Drained(old(tree), old(writeBuf.Contents())), old(manifest.nextId), tree)
      ensures ok ==> !BufferFull(tree.node.buffer) && HotCount(tree) == 0
      ensures forall n :: n in writeBuf.nodes ==> n in old(writeBuf.nodes)
    {
      hide Holds;
      hide VersionOrder;
      hide Current;
      hide CleanCut;
      hide Stuck;
      hide Compacts;
      hide Small;
      hide Drained;
      hide Straddles;
      hide Jams;
      hide HotCount;
      hide HotKids;
      hide RoundDone;
      hide BufferFull;
      hide SkipList.Valid;
      hide Manifest.Clean;
      hide Manifest.Valid;
      writeBuf.ContentsSorted();
      RoundParts(tree, writeBuf.Contents());
      if AllSmall() { SmallDrain(tree, writeBuf.Contents()); }
      DrainToRoot();
      writeBuf.ContentsSorted();
      SmallNothing();
      ghost var t0, next := tree, manifest.nextId;
      var id := manifest.rootId;
      RootShape(cache, tree, manifest.nextId);
      ok := true;
      if BufferFull(cache[id].buffer) {
        ok := FlushFullRoot(id);
        if ok {
          CoolRoot(tree);
          SmallCompact(E(tree), E(t0));
          StillValid([], t0);
        }
      } else {
        QuietRound(t0, next);
      }
    }

    /** Writes the root's buffer to its file, under the same id, and saves. */
    method PersistRoot(id: NodeId)
      requires TreeOk() && VersionOrder(tree) && SyncedBut(id) && id == tree.node.id && manifest.Clean()
      modifies this`cache, this`tree, manifest
      ensures TreeOk() && Saved() && VersionOrder(tree) && Compacts(E(tree), E(old(tree)))
      ensures Interleaving.TreeActs(old(tree), Interleaving.Persist, tree)
      ensures tree == Persisted(old(tree)) && manifest.nextId == old(manifest.nextId)
    {
      hide Holds;
      hide VersionOrder;
      hide FlushToDisk;
      hide Interleaving.TreeActs;
      hide Compacts;
      hide Manifest.Clean;
      hide Manifest.AtSavePoint;
      hide Manifest.TextOk;
      hide Manifest.Valid;
      LeafCached(cache, tree, [], manifest.nextId);
      PersistHolds(cache, tree, manifest.nextId);
      PersistKeeps(tree);
      Interleaving.PersistActs(tree);
      var root := FlushToDisk(cache[id]);
      manifest.Install(root);
      manifest.Save();
      cache := cache[id := root];
      tree := Persisted(tree);
    }

    /** `flush` after the flush thread has come to rest: drain, persist the root, save. */
    method Flush()
      requires Valid()
      modifies this`cache, this`tree, manifest, writeBuf, writeBuf.nodes
      ensures Valid() && Saved() && writeBuf.Contents() == [] && (old(AllSmall()) ==> AllSmall())
      ensures var t := Drained(old(tree), old(writeBuf.Contents())); tree == if t.node.buffer == [] then t else Persisted(t)
      ensures forall n :: n in writeBuf.nodes ==> n in old(writeBuf.nodes)
    {
      hide Holds;
      hide VersionOrder;
      hide Current;
      hide StableSort;
      hide Compacts;
      hide SkipList.Valid;
      hide Manifest.Clean;
      hide Manifest.Valid;
      hide Small;
      hide Drained;
      hide HotKids;
      writeBuf.ContentsSorted();
      RoundParts(tree, writeBuf.Contents());
      if AllSmall() { SmallDrain(tree, writeBuf.Contents()); }
      DrainToRoot();
      writeBuf.ContentsSorted();
      SmallNothing();
      ghost var t0 := tree;
      var id := manifest.rootId;
      LeafCached(cache, tree, [], manifest.nextId);
      if cache[id].buffer != [] {
        PersistRoot(id);
        SmallCompact(E(tree), E(t0));
        StillValid([], t0);
      }
    }

    // ----- closing and opening again -----

    /** `open` on a directory whose manifest and node files make up the tree `t`; every node is loaded. */
    constructor Open(m: Manifest, ghost t: Tree)
      requires m.Valid() && m.rootId == t.node.id && Holds(m.live, t, m.nextId)
      ensures manifest == m && TreeOk() && tree == t && cache == m.live
      ensures writeBuf.Valid() && writeBuf.Contents() == [] && nextSeq == 1
    {
      hide Holds;
      manifest := m;
      writeBuf := new SkipList();
      var loaded := map x | x in m.nodes && m.nodes[x].valid && x in m.files :: m.files[x];
      assert loaded.Keys == ValidIds(m.nodes);
      assert loaded == m.live;
      cache, nextSeq, last := loaded, 1, map[];
      tree := t;
    }

    /** At a save point, opening the directory again reaches the same tree, so every read of it is the same. */
    method Reopened() returns (g: GravTree)
      requires TreeOk() && Saved()
      ensures fresh(g) && fresh(g.manifest) && g.TreeOk() && g.tree == tree && g.cache == cache && g.manifest.live == manifest.live
      ensures g.writeBuf.Valid() && g.writeBuf.Contents() == []
      ensures manifest.strays == {} ==> g.manifest.strays == {} && g.manifest.files.Keys == g.cache.Keys
    {
      hide Holds;
      var m := new Manifest.Reopen(manifest);
      g := new GravTree.Open(m, tree);
    }

    /** `flush`, close, open: the new session reads back every write of the old one. */
    method FlushAndReopen(k: Key, maybe: SSTNode -> bool) returns (r: Option<Value>)
      requires Valid()
      modifies this`cache, this`tree, manifest, writeBuf, writeBuf.nodes
      ensures r == Answer(Latest(last, k))
    {
      hide Holds;
      hide VersionOrder;
      hide Current;
      Flush();
      CurrentRead([], E(tree), nextSeq, last, k);
      var g := Reopened();
      var e := g.writeBuf.FindKey(k);
      if e.None? { e := g.GetFromTree(k, maybe); }
      r := if e.None? || e.value.deleted then None else Some(e.value.value);
    }

    // ----- whole runs -----

    /** A copy of the cached subtree. */
    method Snapshot(id: NodeId, ghost t: Tree) returns (r: Tree)
      requires Rep(cache, t) && Linked(t) && t.node.id == id
      ensures r == t
      decreases t
    {
      var node := cache[id];
      var kids: seq<Tree> := [];
      for i := 0 to |node.childIds|
        invariant kids == t.kids[..i]
      {
        var kid := Snapshot(node.childIds[i], t.kids[i]);
        kids := kids + [kid];
      }
      r := Tree(node, kids);
    }

    /** Whether the next round of the flush thread would go wrong, decided on a copy before it starts. */
    method RoundHazard() returns (b: bool)
      requires Valid()
      ensures b == (Straddles(tree, writeBuf.Contents()) || Jams(tree, writeBuf.Contents()))
    {
      hide Holds;
      hide VersionOrder;
      hide Current;
      hide Straddles;
      hide Jams;
      hide RootOk;
      HoldsParts(cache, tree, manifest.nextId);
      RootLinked(tree);
      var copy := Snapshot(manifest.rootId, tree);
      var pending := writeBuf.ToSortedVector();
      b := Straddles(copy, pending) || Jams(copy, pending);
    }

    /**
     * One operation of a run, against the plain map.  It is refused, and nothing changes, exactly
     * if it is a background round that would go wrong.
     */
    method Apply(op: Op, maybe: SSTNode -> bool, ghost m: Plain) returns (ok: bool, r: seq<Option<Value>>)
      requires Valid() && AllSmall() && Mirrors(last, m) && nextSeq <= MAX_SEQ && OpOk(op)
      modifies this, manifest, writeBuf, writeBuf.nodes
      ensures ok <==> !(op == Background && (Straddles(old(tree), old(writeBuf.Contents())) || Jams(old(tree), old(writeBuf.Contents()))))
      ensures Valid() && AllSmall() && nextSeq <= old(nextSeq) + 1
      ensures ok ==> Mirrors(last, Effect(op, m)) && r == Reply(op, m)
      ensures !ok ==> last == old(last) && tree == old(tree) && writeBuf.Contents() == old(writeBuf.Contents())
      ensures forall n :: n in writeBuf.nodes ==> n in old(writeBuf.nodes) || fresh(n)
    {
      hide Holds;
      hide VersionOrder;
      hide Current;
      hide Straddles;
      hide Jams;
      hide Small;
      hide SkipList.Valid;
      hide GravTree.Steady;
      hide Manifest.Valid;
      writeBuf.ContentsSorted();
      ok, r := true, [];
      match op
      case Put(k, v, h) =>
        MirrorWrite(last, m, Entry(k, v, nextSeq, false));
        Insert(k, v, h);
      case Delete(k, h) =>
        MirrorWrite(last, m, Entry(k, [], nextSeq, true));
        Remove(k, h);
      case Read(k) =>
        var v := Get(k, maybe);
        r := [v];
      case Background =>
        var unsafe := RoundHazard();
        if unsafe { return false, []; }
        ok := BackgroundFlush();
      case Sync =>
        Flush();
    }

    /**
     * Every run of inserts, removes, reads, background rounds and flushes returns what a plain map
     * would.  A run stops early only in front of a background round that would, from the state
     * reached, split a root leaf inside a key or meet a parent already replaced.
     */
    method Run(ops: seq<Op>, maybe: SSTNode -> bool, ghost m: Plain) returns (n: nat, out: seq<Option<Value>>)
      requires Valid() && AllSmall() && Mirrors(last, m) && nextSeq + |ops| <= MAX_SEQ
      requires forall i :: 0 <= i < |ops| ==> OpOk(ops[i])
      modifies this, manifest, writeBuf, writeBuf.nodes
      ensures n <= |ops| && out == Outputs(ops[..n], m)
      ensures Valid() && AllSmall() && Mirrors(last, After(ops[..n], m))
      ensures n < |ops| ==> ops[n] == Background && (Straddles(tree, writeBuf.Contents()) || Jams(tree, writeBuf.Contents()))
    {
      hide Holds;
      hide Mirrors;
      hide Straddles;
      hide Jams;
      hide Effect;
      hide Reply;
      hide GravTree.AllSmall;
      hide GravTree.Valid;
      hide Current;
      hide VersionOrder;
      hide Manifest.Valid;
      n, out := 0, [];
      while n < |ops|
        invariant n <= |ops| && Valid() && AllSmall() && Mirrors(last, After(ops[..n], m)) && nextSeq + |ops| - n <= MAX_SEQ
        invariant out == Outputs(ops[..n], m)
        invariant forall i :: 0 <= i < |writeBuf.nodes| ==> writeBuf.nodes[i] in old(writeBuf.nodes) || fresh(writeBuf.nodes[i])
      {
        Step(ops, m, n);
        assert forall x :: x in writeBuf.nodes ==> x in old(writeBuf.nodes) || fresh(x);
        var ok, r := Apply(ops[n], maybe, After(ops[..n], m));
        if !ok { return; }
        assert forall x :: x in writeBuf.nodes ==> x in old(writeBuf.nodes) || fresh(x);
        out := out + r;
        n := n + 1;
      }
    }
  }
}
