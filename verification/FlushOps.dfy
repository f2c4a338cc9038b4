/** The loops of flush.cpp and node.cpp, each against the function it computes. */
module FlushOps {
  import opened Types
  import opened Entries
  import opened TreeModel
  import opened TreeFlush
  import opened ManifestModel

  /** `partition_entries`: one bucket per child, filled in input order. */
  method PartitionEntries(entries: seq<Entry>, mins: seq<Key>) returns (buckets: seq<seq<Entry>>)
    requires mins != []
    ensures |buckets| == |mins|
    ensures forall i :: 0 <= i < |mins| ==> buckets[i] == Bucket(entries, mins, i)
  {
    buckets := seq(|mins|, _ => []);
    for n := 0 to |entries|
      invariant |buckets| == |mins|
      invariant forall i :: 0 <= i < |mins| ==> buckets[i] == Bucket(entries[..n], mins, i)
    {
      var e := entries[n];
      var target := 0;
      var i := |mins|;
      while i > 0
        invariant 0 <= i <= |mins| && target == 0
        invariant Route(mins, e.key) == ScanDown(mins, e.key, i)
      {
        i := i - 1;
        if !KeyLess(e.key, mins[i]) {
          target := i;
          break;
        }
      }
      assert target == Route(mins, e.key);
      forall j | 0 <= j < |mins|
        ensures Bucket(entries[..n + 1], mins, j) ==
                if j == target then Bucket(entries[..n], mins, j) + [e] else Bucket(entries[..n], mins, j)
      {
        assert entries[..n + 1] == entries[..n] + [e];
        BucketAppend(entries[..n], [e], mins, j);
        assert [e][1..] == [];
      }
      buckets := buckets[target := buckets[target] + [e]];
    }
    assert entries[..|entries|] == entries;
  }

  /** `merge_sorted_entries`. */
  method MergeSortedEntries(a: seq<Entry>, b: seq<Entry>) returns (out: seq<Entry>)
    ensures out == Merge(a, b)
  {
    hide Merge;
    hide KeyLess;
    out := [];
    var i, j := 0, 0;
    ghost var all, rest := Merge(a, b), Merge(a, b);
    while i < |a| && j < |b|
      invariant 0 <= i <= |a| && 0 <= j <= |b|
      invariant rest == Merge(a[i..], b[j..]) && out + rest == all
      decreases |a| - i + |b| - j
    {
      var e, i', j' := a[i], i, j;
      if KeyLess(a[i].key, b[j].key) {
        i' := i + 1;
      } else if KeyLess(b[j].key, a[i].key) {
        e, j' := b[j], j + 1;
      } else if a[i].seqNo >= b[j].seqNo {
        i', j' := i + 1, j + 1;
      } else {
        e, i', j' := b[j], i + 1, j + 1;
      }
      MergeStep(a, b, i, j, e, i', j');
      rest := Merge(a[i'..], b[j'..]);
      Assoc(out, [e], rest);
      out, i, j := out + [e], i', j';
    }
    MergeEnd(a[i..], b[j..]);
    Assoc(out, a[i..], b[j..]);
    out := out + a[i..] + b[j..];
  }

  lemma MergeEnd(a: seq<Entry>, b: seq<Entry>)
    requires a == [] || b == []
    ensures Merge(a, b) == a + b
  {
  }

  lemma MergeStep(a: seq<Entry>, b: seq<Entry>, i: nat, j: nat, e: Entry, i': nat, j': nat)
    requires i < |a| && j < |b|
    requires if KeyLess(a[i].key, b[j].key) then e == a[i] && i' == i + 1 && j' == j
             else if KeyLess(b[j].key, a[i].key) then e == b[j] && i' == i && j' == j + 1
             else e == (if a[i].seqNo >= b[j].seqNo then a[i] else b[j]) && i' == i + 1 && j' == j + 1
    ensures Merge(a[i..], b[j..]) == [e] + Merge(a[i'..], b[j'..])
  {
    assert a[i..][1..] == a[i + 1..] && b[j..][1..] == b[j + 1..];
  }

  /** The loop of `sort_buffer` after the sort: keeps the first entry of every run of equal keys. */
  method DedupeSorted(s: seq<Entry>) returns (out: seq<Entry>)
    ensures out == Dedupe(s)
  {
    if |s| <= 1 { return s; }
    out := [];
    for n := 0 to |s|
      invariant out == Dedupe(s[..n]) && (n > 0 ==> out != [])
    {
      assert s[..n + 1][..n] == s[..n];
      if out != [] && out[|out| - 1].key == s[n].key {
      } else {
        out := out + [s[n]];
      }
    }
    assert s[..|s|] == s;
  }

  /** `stable_sort`, as an insertion of each entry from the right. */
  method StableSorted(s: seq<Entry>) returns (out: seq<Entry>)
    ensures out == StableSort(s)
  {
    out := [];
    var n := |s|;
    while n > 0
      invariant 0 <= n <= |s| && out == StableSort(s[n..])
    {
      n := n - 1;
      assert s[n..][1..] == s[n + 1..];
      out := InsertEntry(s[n], out);
    }
  }

  /** `SSTNode::create` up to the file write. */
  method CreateNode(id: NodeId, level: nat, entries: seq<Entry>, children: seq<NodeId>) returns (n: SSTNode)
    ensures n == Create(id, level, entries, children)
  {
    var sorted := StableSorted(entries);
    var b := DedupeSorted(sorted);
    n := SSTNode(id, level, if |children| <= MAX_FANOUT then children else children[..MAX_FANOUT], [], [], b);
    if b != [] {
      n := n.(minKey := b[0].key, maxKey := b[|b| - 1].key);
    }
  }

  /** The node child `i` becomes in `local_flush`, before the tree widens its range. */
  function Rewritten(c: SSTNode, bucket: seq<Entry>, id: NodeId): SSTNode {
    if bucket == [] then c else Create(id, c.level, Merge(bucket, c.buffer), c.childIds)
  }

  /** The first `n` children after the rewrite; fresh ids go left to right to those that receive entries. */
  function AllRewritten(cs: seq<SSTNode>, bs: seq<seq<Entry>>, next: NodeId, n: nat): (r: seq<SSTNode>)
    requires n <= |cs| == |bs|
    ensures |r| == n
  {
    if n == 0 then [] else AllRewritten(cs, bs, next, n - 1) + [Rewritten(cs[n - 1], bs[n - 1], next + Used(bs, n - 1))]
  }

  lemma {:induction false} AllRewrittenAt(cs: seq<SSTNode>, bs: seq<seq<Entry>>, next: NodeId, n: nat, i: nat)
    requires i < n <= |cs| == |bs|
    ensures AllRewritten(cs, bs, next, n)[i] == Rewritten(cs[i], bs[i], next + Used(bs, i))
  {
    hide Rewritten;
    if i < n - 1 { AllRewrittenAt(cs, bs, next, n - 1, i); }
  }

  function Mins(cs: seq<SSTNode>): (r: seq<Key>)
    ensures |r| == |cs| && forall i :: 0 <= i < |r| ==> r[i] == cs[i].minKey
  {
    seq(|cs|, i requires 0 <= i < |cs| => cs[i].minKey)
  }

  function BucketsOf(parent: SSTNode, children: seq<SSTNode>): (r: seq<seq<Entry>>)
    ensures |r| == |children|
  {
    BucketsFrom(StableSort(parent.buffer), Mins(children), 0)
  }

  /** One round of `local_flush`: the child as it is, or merged and installed under a fresh id. */
  method RewriteChild(child: SSTNode, part: seq<Entry>, m: Manifest) returns (n: SSTNode)
    requires m.Valid()
    modifies m`nextId, m`files, m`nodes, m`live
    ensures m.Valid() && n == Rewritten(child, part, old(m.nextId))
    ensures m.nextId == old(m.nextId) + if part == [] then 0 else 1
    ensures m.live == if part == [] then old(m.live) else old(m.live)[n.id := n] - {child.id}
  {
    if part == [] { return child; }
    var merged := MergeSortedEntries(part, child.buffer);
    var id := m.NextNodeId();
    n := CreateNode(id, child.level, merged, child.childIds);
    m.Install(n);
    m.Invalidate(child.id);
  }

  /** The live nodes after the first `n` children have been rewritten. */
  ghost function FlushLive(live: map<NodeId, SSTNode>, cs: seq<SSTNode>, bs: seq<seq<Entry>>, next: NodeId, n: nat): map<NodeId, SSTNode>
    requires n <= |cs| == |bs|
  {
    if n == 0 then live
    else
      var l := FlushLive(live, cs, bs, next, n - 1);
      var c := Rewritten(cs[n - 1], bs[n - 1], next + Used(bs, n - 1));
      if bs[n - 1] == [] then l else l[c.id := c] - {cs[n - 1].id}
  }

  /** The ids of the first `n` children that were rewritten. */
  function StaleIds(children: seq<SSTNode>, bs: seq<seq<Entry>>, n: nat): (r: seq<NodeId>)
    requires n <= |children| == |bs|
    ensures |r| <= n
  {
    if n == 0 then []
    else if bs[n - 1] == [] then StaleIds(children, bs, n - 1)
    else StaleIds(children, bs, n - 1) + [children[n - 1].id]
  }

  lemma {:induction false} StaleMember(children: seq<SSTNode>, bs: seq<seq<Entry>>, n: nat, i: nat)
    requires i < n <= |children| == |bs|
    requires forall a, b :: 0 <= a < b < |children| ==> children[a].id != children[b].id
    ensures children[i].id in StaleIds(children, bs, n) <==> bs[i] != []
  {
    if i < n - 1 {
      StaleMember(children, bs, n - 1, i);
    } else {
      StaleFresh(children, bs, n - 1, i);
    }
  }

  lemma {:induction false} StaleFresh(children: seq<SSTNode>, bs: seq<seq<Entry>>, n: nat, i: nat)
    requires n <= i < |children| == |bs|
    requires forall a, b :: 0 <= a < b < |children| ==> children[a].id != children[b].id
    ensures children[i].id !in StaleIds(children, bs, n)
  {
    if n > 0 { StaleFresh(children, bs, n - 1, i); }
  }

  lemma {:induction false} StaleFrom(children: seq<SSTNode>, bs: seq<seq<Entry>>, n: nat, x: NodeId) returns (i: nat)
    requires n <= |children| == |bs| && x in StaleIds(children, bs, n)
    ensures i < n && bs[i] != [] && children[i].id == x
  {
    if bs[n - 1] != [] && children[n - 1].id == x {
      i := n - 1;
    } else {
      i := StaleFrom(children, bs, n - 1, x);
    }
  }

  /** The loop of `local_flush` over the children and their buckets. */
  method RewriteChildren(children: seq<SSTNode>, bs: seq<seq<Entry>>, m: Manifest)
    returns (newChildren: seq<SSTNode>, newIds: seq<NodeId>, oldIds: seq<NodeId>)
    requires m.Valid() && |children| == |bs|
    modifies m`nextId, m`files, m`nodes, m`live
    ensures m.Valid() && m.nextId == old(m.nextId) + Used(bs, |bs|)
    ensures newChildren == AllRewritten(children, bs, old(m.nextId), |children|)
    ensures newIds == NodeIds(newChildren)
    ensures oldIds == StaleIds(children, bs, |children|)
    ensures m.live == FlushLive(old(m.live), children, bs, old(m.nextId), |children|)
  {
    hide Rewritten;
    hide NodeIds;
    hide Manifest.Valid;
    ghost var next := m.nextId;
    newChildren, newIds, oldIds := [], [], [];
    for i := 0 to |children|
      invariant m.Valid() && m.nextId == next + Used(bs, i)
      invariant newChildren == AllRewritten(children, bs, next, i)
      invariant newIds == NodeIds(newChildren)
      invariant oldIds == StaleIds(children, bs, i)
      invariant m.live == FlushLive(old(m.live), children, bs, next, i)
    {
      var n := RewriteChild(children[i], bs[i], m);
      newChildren, newIds := newChildren + [n], newIds + [n.id];
      if bs[i] != [] { oldIds := oldIds + [children[i].id]; }
    }
  }

  function NodeIds(ns: seq<SSTNode>): (r: seq<NodeId>)
    ensures |r| == |ns| && forall i :: 0 <= i < |r| ==> r[i] == ns[i].id
  {
    seq(|ns|, i requires 0 <= i < |ns| => ns[i].id)
  }

  /**
   * `local_flush`: every child whose bucket is not empty is merged with it and written under a
   * fresh id, its old record is marked stale; the other children keep their id and file.
   */
  method LocalFlush(parent: SSTNode, children: seq<SSTNode>, m: Manifest)
    returns (newChildren: seq<SSTNode>, newIds: seq<NodeId>, oldIds: seq<NodeId>)
    requires m.Valid() && children != []
    modifies m`nextId, m`files, m`nodes, m`live
    ensures m.Valid()
    ensures var bs := BucketsOf(parent, children);
            && m.nextId == old(m.nextId) + Used(bs, |bs|)
            && newChildren == AllRewritten(children, bs, old(m.nextId), |children|)
            && newIds == NodeIds(newChildren)
            && oldIds == StaleIds(children, bs, |children|)
            && m.live == FlushLive(old(m.live), children, bs, old(m.nextId), |children|)
  {
    var bs := PartitionBuffer(parent, children);
    newChildren, newIds, oldIds := RewriteChildren(children, bs, m);
  }

  method PartitionBuffer(parent: SSTNode, children: seq<SSTNode>) returns (bs: seq<seq<Entry>>)
    requires children != []
    ensures bs == BucketsOf(parent, children)
  {
    var sorted := StableSorted(parent.buffer);
    bs := PartitionEntries(sorted, Mins(children));
  }

  /** `do_flush`'s pointer update, with its nested search of the rewritten ids. */
  method UpdatePointers(ids: seq<NodeId>, newIds: seq<NodeId>, oldIds: seq<NodeId>) returns (r: seq<NodeId>)
    requires |ids| == |newIds|
    requires forall i :: 0 <= i < |ids| && ids[i] !in oldIds ==> newIds[i] == ids[i]
    ensures r == newIds
  {
    r := ids;
    var j := 0;
    for i := 0 to |ids|
      invariant |r| == |ids| && j == i
      invariant forall m :: 0 <= m < |ids| ==> r[m] == if m < i then newIds[m] else ids[m]
    {
      var k := 0;
      var found := false;
      while k < |oldIds|
        invariant 0 <= k <= |oldIds| && !found && ids[i] !in oldIds[..k]
      {
        if oldIds[k] == r[i] {
          found := true;
          break;
        }
        k := k + 1;
      }
      if found { r := r[i := newIds[j]]; }
      j := j + 1;
    }
  }

  // ----- write cost -----

  /** Bytes written: the children that received entries. */
  function Written(cs: seq<SSTNode>, bs: seq<seq<Entry>>, next: NodeId): nat
    requires |cs| == |bs|
  {
    if cs == [] then 0
    else (if bs[0] == [] then 0 else Bytes(Rewritten(cs[0], bs[0], next).buffer)) + Written(cs[1..], bs[1..], next)
  }

  /** Bytes held before: the same children. */
  function Touched(cs: seq<SSTNode>, bs: seq<seq<Entry>>): nat
    requires |cs| == |bs|
  {
    if cs == [] then 0 else (if bs[0] == [] then 0 else Bytes(cs[0].buffer)) + Touched(cs[1..], bs[1..])
  }

  lemma {:induction false} WrittenBound(cs: seq<SSTNode>, bs: seq<seq<Entry>>, next: NodeId)
    requires |cs| == |bs|
    ensures Written(cs, bs, next) <= Bytes(Flatten(bs)) + Touched(cs, bs)
  {
    if cs != [] {
      WrittenBound(cs[1..], bs[1..], next);
      BytesAppend(bs[0], Flatten(bs[1..]));
      MergeBytes(bs[0], cs[0].buffer);
      SortBufferBytes(Merge(bs[0], cs[0].buffer));
    }
  }

  /**
   * LocalFlush writes at most the parent's buffer plus the children that received data, whatever
   * the tree around them holds, and uses at most one fresh id per child.
   */
  lemma LocalFlushCost(parent: SSTNode, children: seq<SSTNode>, next: NodeId)
    requires children != []
    ensures var bs := BucketsOf(parent, children);
            Written(children, bs, next) <= Bytes(parent.buffer) + Touched(children, bs) && Used(bs, |bs|) <= |children|
  {
    var bs := BucketsOf(parent, children);
    BucketsBytes(StableSort(parent.buffer), Mins(children), 0);
    BytesFromEnds(StableSort(parent.buffer), Mins(children));
    StableSortBytes(parent.buffer);
    WrittenBound(children, bs, next);
  }
}
