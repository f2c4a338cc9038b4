/** The write buffer: a skip list with up to twelve forward lists. */
module SkipListModel {
  import opened Types
  import opened Entries

  const MAX_HEIGHT: nat := 12

  class Node {
    const val: Entry
    const height: nat
    var next: seq<Node?>

    constructor (v: Entry, h: nat)
      ensures val == v && height == h && next == seq(MAX_HEIGHT, _ => null)
    {
      val, height := v, h;
      next := seq(MAX_HEIGHT, _ => null);
    }
  }

  function Fill<T>(n: nat, x: T): (r: seq<T>)
    ensures |r| == n
  {
    seq(n, _ => x)
  }

  // ----- the lists as index arithmetic -----

  /** `r` is the first position at or after `j` whose node is taller than `lv`, or the end. */
  ghost predicate Hop(ns: seq<Node>, j: nat, lv: nat, r: nat) {
    j <= r <= |ns| && (r < |ns| ==> ns[r].height > lv) && forall i :: j <= i < r ==> ns[i].height <= lv
  }

  lemma {:induction false} HopExists(ns: seq<Node>, j: nat, lv: nat)
    requires j <= |ns|
    ensures exists r :: Hop(ns, j, lv, r)
    decreases |ns| - j
  {
    if j == |ns| || ns[j].height > lv {
      assert Hop(ns, j, lv, j);
    } else {
      HopExists(ns, j + 1, lv);
      var r :| Hop(ns, j + 1, lv, r);
      assert Hop(ns, j, lv, r);
    }
  }

  ghost function NextTall(ns: seq<Node>, j: nat, lv: nat): (r: nat)
    requires j <= |ns|
    ensures Hop(ns, j, lv, r)
  {
    HopExists(ns, j, lv);
    var r :| Hop(ns, j, lv, r);
    r
  }

  lemma NextTallIs(ns: seq<Node>, j: nat, lv: nat, r: nat)
    requires j <= |ns| && Hop(ns, j, lv, r)
    ensures NextTall(ns, j, lv) == r
  {
  }

  ghost function At(ns: seq<Node>, i: nat): Node?
    requires i <= |ns|
  {
    if i == |ns| then null else ns[i]
  }

  /** The forward pointers `nx` of the nodes `ns` lead to the next node tall enough. */
  ghost predicate LinkedBy(ns: seq<Node>, nx: seq<seq<Node?>>) {
    && |nx| == |ns|
    && (forall i {:trigger nx[i]} :: 0 <= i < |ns| ==> |nx[i]| == MAX_HEIGHT && ns[i].height <= MAX_HEIGHT)
    && forall i, lv {:trigger nx[i][lv]} :: 0 <= i < |ns| && 0 <= lv < ns[i].height ==> nx[i][lv] == At(ns, NextTall(ns, i + 1, lv))
  }

  ghost function Nexts(ns: seq<Node>): (nx: seq<seq<Node?>>)
    reads ns
    ensures |nx| == |ns| && forall i :: 0 <= i < |ns| ==> nx[i] == ns[i].next
  {
    seq(|ns|, i requires 0 <= i < |ns| reads ns => ns[i].next)
  }

  /** `at[lv]`, for each level below `h`: the last position up to `p` that is on that level. */
  ghost predicate Preds(ns: seq<Node>, at: seq<nat>, h: nat, p: nat) {
    h <= |at| && forall lv :: 0 <= lv < h ==>
      at[lv] <= p < |ns| && ns[at[lv]].height > lv && NextTall(ns, at[lv] + 1, lv) > p
  }

  /** Predecessors found so far, from level `lo` up. */
  ghost predicate PredsFrom(ns: seq<Node>, at: seq<nat>, prev: seq<Node>, lo: nat, hi: nat, p: nat) {
    hi <= |at| == |prev| && forall lv :: lo <= lv < hi ==>
      at[lv] <= p < |ns| && prev[lv] == ns[at[lv]] && ns[at[lv]].height > lv && NextTall(ns, at[lv] + 1, lv) > p
  }

  lemma PredsFromNone(ns: seq<Node>, at: seq<nat>, prev: seq<Node>, hi: nat, p: nat)
    requires hi <= |at| == |prev|
    ensures PredsFrom(ns, at, prev, hi, hi, p)
  {
  }

  lemma PredsFromStep(ns: seq<Node>, at: seq<nat>, prev: seq<Node>, lo: nat, hi: nat, p: nat, c: nat)
    requires PredsFrom(ns, at, prev, lo + 1, hi, p) && lo < hi
    requires c <= p < |ns| && ns[c].height > lo && NextTall(ns, c + 1, lo) > p
    ensures PredsFrom(ns, at[lo := c], prev[lo := ns[c]], lo, hi, p)
  {
    hide NextTall;
  }

  lemma PredsFromAll(ns: seq<Node>, at: seq<nat>, prev: seq<Node>, hi: nat, p: nat)
    requires PredsFrom(ns, at, prev, 0, hi, p) && hi >= 1 && forall i :: 0 <= i < |ns| ==> ns[i].height >= 1
    ensures Preds(ns, at, hi, p) && at[0] == p < |ns| && forall lv :: 0 <= lv < hi ==> prev[lv] == ns[at[lv]]
  {
    if at[0] < p { NextTallIs(ns, at[0] + 1, 0, at[0] + 1); }
  }

  lemma PredsLower(ns: seq<Node>, at: seq<nat>, h: nat, g: nat, p: nat)
    requires Preds(ns, at, h, p) && g <= h
    ensures Preds(ns, at, g, p) && forall lv :: 0 <= lv < h ==> at[lv] < |ns|
  {
  }

  ghost function Inserted(ns: seq<Node>, p: nat, nd: Node): seq<Node>
    requires p <= |ns|
  {
    ns[..p] + [nd] + ns[p..]
  }

  lemma InsertedAt(ns: seq<Node>, p: nat, nd: Node)
    requires p <= |ns|
    ensures |Inserted(ns, p, nd)| == |ns| + 1 && Inserted(ns, p, nd)[p] == nd
    ensures forall n :: n in Inserted(ns, p, nd) ==> n == nd || n in ns
  {
  }

  /** How inserting a node moves the successors seen from before, at, and after it. */
  lemma NextTallInserted(ns: seq<Node>, p: nat, nd: Node, j: nat, lv: nat)
    requires j <= |ns| && p <= |ns|
    ensures j <= p && NextTall(ns, j, lv) < p ==>
              NextTall(Inserted(ns, p, nd), j, lv) == NextTall(ns, j, lv)
    ensures j <= p && NextTall(ns, j, lv) >= p ==>
              NextTall(Inserted(ns, p, nd), j, lv) == if nd.height > lv then p else NextTall(ns, j, lv) + 1
    ensures j >= p ==> NextTall(Inserted(ns, p, nd), j + 1, lv) == NextTall(ns, j, lv) + 1
  {
    var ms := Inserted(ns, p, nd);
    var r := NextTall(ns, j, lv);
    assert forall i :: 0 <= i < p ==> ms[i] == ns[i];
    assert ms[p] == nd;
    assert forall i :: p < i < |ms| ==> ms[i] == ns[i - 1];
    if j <= p && r < p {
      NextTallIs(ms, j, lv, r);
    } else if j <= p {
      NextTallIs(ms, j, lv, if nd.height > lv then p else r + 1);
    }
    if j >= p {
      NextTallIs(ms, j + 1, lv, r + 1);
    }
  }

  /** The pointers after redirecting, on each of its levels, the predecessor to the new node. */
  ghost predicate SplicedBy(nx: seq<seq<Node?>>, ny: seq<seq<Node?>>, at: seq<nat>, nd: Node) {
    && |nx| == |ny| && nd.height <= |at| && nd.height <= MAX_HEIGHT
    && (forall i :: 0 <= i < |nx| ==> |nx[i]| == |ny[i]| == MAX_HEIGHT)
    && forall i, lv {:trigger ny[i][lv]} :: 0 <= i < |nx| && 0 <= lv < MAX_HEIGHT ==>
         ny[i][lv] == if lv < nd.height && i == at[lv] then nd else nx[i][lv]
  }

  lemma PredUnique(ns: seq<Node>, a: nat, p: nat, i: nat, lv: nat)
    requires a <= p < |ns| && ns[a].height > lv && NextTall(ns, a + 1, lv) > p
    requires i <= p && ns[i].height > lv
    ensures i == a <==> NextTall(ns, i + 1, lv) > p
  {
  }

  lemma LinkBefore(ns: seq<Node>, p: nat, nd: Node, i: nat, lv: nat)
    requires i <= p < |ns|
    ensures At(Inserted(ns, p + 1, nd), NextTall(Inserted(ns, p + 1, nd), i + 1, lv)) ==
            if lv < nd.height && NextTall(ns, i + 1, lv) > p then nd else At(ns, NextTall(ns, i + 1, lv))
  {
    NextTallInserted(ns, p + 1, nd, i + 1, lv);
  }

  lemma LinkAt(ns: seq<Node>, p: nat, nd: Node, a: nat, lv: nat)
    requires a <= p < |ns| && NextTall(ns, a + 1, lv) > p
    ensures At(Inserted(ns, p + 1, nd), NextTall(Inserted(ns, p + 1, nd), p + 2, lv)) == At(ns, NextTall(ns, a + 1, lv))
  {
    NextTallIs(ns, p + 1, lv, NextTall(ns, a + 1, lv));
    NextTallInserted(ns, p + 1, nd, p + 1, lv);
  }

  lemma LinkAfter(ns: seq<Node>, p: nat, nd: Node, i: nat, lv: nat)
    requires p < i < |ns|
    ensures At(Inserted(ns, p + 1, nd), NextTall(Inserted(ns, p + 1, nd), i + 2, lv)) == At(ns, NextTall(ns, i + 1, lv))
  {
    NextTallInserted(ns, p + 1, nd, i + 1, lv);
  }

  /** After the splice every old node's pointer leads to the next node tall enough in the longer list. */
  lemma RelinkedOne(ns: seq<Node>, nx: seq<seq<Node?>>, ny: seq<seq<Node?>>, at: seq<nat>, p: nat, nd: Node, i: nat, lv: nat)
    requires LinkedBy(ns, nx) && SplicedBy(nx, ny, at, nd) && Preds(ns, at, nd.height, p)
    requires p < |ns| && i < |ns| && lv < ns[i].height
    ensures var ms := Inserted(ns, p + 1, nd);
            ny[i][lv] == At(ms, NextTall(ms, (if i <= p then i else i + 1) + 1, lv))
  {
    assert nx[i][lv] == At(ns, NextTall(ns, i + 1, lv));
    if i <= p {
      LinkBefore(ns, p, nd, i, lv);
      if lv < nd.height { PredUnique(ns, at[lv], p, i, lv); }
    } else {
      LinkAfter(ns, p, nd, i, lv);
      assert lv < nd.height ==> at[lv] <= p;
    }
  }

  // ----- contents -----

  ghost function Values(ns: seq<Node>): (s: seq<Entry>)
    ensures |s| == |ns| && forall i :: 0 <= i < |s| ==> s[i] == ns[i].val
  {
    seq(|ns|, i requires 0 <= i < |ns| => ns[i].val)
  }

  /** The nodes on level `lv`. */
  ghost function Level(ns: seq<Node>, lv: nat): seq<Node> {
    if ns == [] then [] else if ns[0].height > lv then [ns[0]] + Level(ns[1..], lv) else Level(ns[1..], lv)
  }

  /** Each level is the level below without its shorter nodes. */
  lemma {:induction false} LevelsNest(ns: seq<Node>, lv: nat)
    ensures Level(Level(ns, lv), lv + 1) == Level(ns, lv + 1)
    ensures forall n :: n in Level(ns, lv) <==> n in ns && n.height > lv
  {
    if ns != [] {
      LevelsNest(ns[1..], lv);
      assert ns == [ns[0]] + ns[1..];
      if ns[0].height > lv {
        assert ([ns[0]] + Level(ns[1..], lv))[1..] == Level(ns[1..], lv);
      }
    }
  }

  lemma {:induction false} LevelSkip(ns: seq<Node>, j: nat, lv: nat)
    requires j <= |ns|
    ensures Level(ns[j..], lv) == Level(ns[NextTall(ns, j, lv)..], lv)
    decreases |ns| - j
  {
    if j < |ns| && ns[j].height <= lv {
      assert ns[j..][0] == ns[j] && ns[j..][1..] == ns[j + 1..];
      LevelSkip(ns, j + 1, lv);
      NextTallIs(ns, j, lv, NextTall(ns, j + 1, lv));
    } else {
      NextTallIs(ns, j, lv, j);
    }
  }

  lemma LevelNone(lv: nat)
    ensures Level([], lv) == []
  {
  }

  lemma LevelStep(ns: seq<Node>, c: nat, lv: nat)
    requires c < |ns| && ns[c].height > lv
    ensures Level(ns[c..], lv) == [ns[c]] + Level(ns[NextTall(ns, c + 1, lv)..], lv)
  {
    assert ns[c..][0] == ns[c] && ns[c..][1..] == ns[c + 1..];
    LevelSkip(ns, c + 1, lv);
  }

  /** Insertion position: everything before is below `v`, nothing from there on is. */
  ghost predicate Gap(s: seq<Entry>, v: Entry, p: nat) {
    p <= |s| && (forall i :: 0 <= i < p ==> EntryLess(s[i], v)) && forall i :: p <= i < |s| ==> !EntryLess(s[i], v)
  }

  lemma GapInside(s: seq<Entry>, v: Entry, p: nat)
    requires Gap(s, v, p)
    ensures p <= |s|
  {
  }

  lemma {:induction false} GapIsInsert(s: seq<Entry>, v: Entry, p: nat)
    requires Gap(s, v, p)
    ensures s[..p] + [v] + s[p..] == InsertEntry(v, s)
  {
    if p == 0 {
      assert s[..0] + [v] + s == [v] + s;
      if s != [] { assert !EntryLess(s[0], v); }
    } else {
      GapIsInsert(s[1..], v, p - 1);
      assert s[..p] == [s[0]] + s[1..][..p - 1] && s[p..] == s[1..][p - 1..];
      assert EntryLess(s[0], v);
    }
  }

  class SkipList {
    const head: Node
    var curHeight: nat
    var size: nat
    var bytes: nat

    /** The sentinel and all nodes in list order. */
    ghost var nodes: seq<Node>

    ghost predicate Linked(ns: seq<Node>)
      reads ns
    {
      forall i, lv :: 0 <= i < |ns| && 0 <= lv < ns[i].height && lv < |ns[i].next| ==>
        ns[i].next[lv] == At(ns, NextTall(ns, i + 1, lv))
    }

    ghost predicate Shaped()
      reads this, nodes
    {
      && |nodes| >= 1 && nodes[0] == head && head.height == MAX_HEIGHT
      && (forall i, j :: 0 <= i < j < |nodes| ==> nodes[i] != nodes[j])
      && (forall i :: 0 <= i < |nodes| ==> |nodes[i].next| == MAX_HEIGHT && 1 <= nodes[i].height <= MAX_HEIGHT)
      && 1 <= curHeight <= MAX_HEIGHT
      && (forall i :: 1 <= i < |nodes| ==> nodes[i].height <= curHeight)
      && Linked(nodes)
    }

    /** Every level links exactly the nodes taller than it, in sorted order; the counters are exact. */
    ghost predicate Valid()
      reads this, nodes
    {
      Shaped() && Sorted(Contents()) && size == |Contents()| && bytes == Bytes(Contents())
    }

    ghost function Contents(): seq<Entry>
      requires |nodes| >= 1
      reads this
    {
      Values(nodes[1..])
    }

    lemma ContentsSorted()
      requires Valid()
      ensures |nodes| >= 1 && Sorted(Contents())
    {
    }

    constructor ()
      ensures Valid() && fresh(nodes) && Contents() == [] && curHeight == 1
    {
      var h := new Node(Entry([], [], 0, false), MAX_HEIGHT);
      head := h;
      curHeight, size, bytes := 1, 0, 0;
      nodes := [h];
    }

    lemma NextLink(i: nat, lv: nat)
      requires Shaped() && i < |nodes| && lv < nodes[i].height
      ensures |nodes[i].next| == MAX_HEIGHT && lv < MAX_HEIGHT
      ensures nodes[i].next[lv] == At(nodes, NextTall(nodes, i + 1, lv))
    {
    }

    /** Advances on one level while the next node is below `v`. */
    method Advance(v: Entry, from: Node, lv: nat, ghost start: nat, ghost p: nat) returns (cur: Node, ghost c: nat)
      requires Shaped() && Gap(Contents(), v, p)
      requires lv < from.height && start <= p && nodes[start] == from
      ensures c <= p && nodes[c] == cur && cur.height > lv && NextTall(nodes, c + 1, lv) > p
    {
      cur, c := from, start;
      NextLink(c, lv);
      while cur.next[lv] != null && EntryLess(cur.next[lv].val, v)
        invariant c <= p && nodes[c] == cur && cur.height > lv
        invariant |cur.next| == MAX_HEIGHT && lv < MAX_HEIGHT && cur.next[lv] == At(nodes, NextTall(nodes, c + 1, lv))
        decreases |nodes| - c
      {
        ghost var d := NextTall(nodes, c + 1, lv);
        assert Contents()[d - 1] == nodes[d].val;
        cur := cur.next[lv];
        c := d;
        NextLink(c, lv);
      }
      ghost var d := NextTall(nodes, c + 1, lv);
      assert d < |nodes| ==> Contents()[d - 1] == nodes[d].val;
    }

    /**
     * The descent shared by `find_prev` and `find_key`: at every level the last node below `v`.
     * Returns the predecessors and, for the proof, their positions and the insertion position.
     */
    method FindPrev(v: Entry, ghost p: nat) returns (prev: seq<Node>, ghost at: seq<nat>)
      requires Shaped() && Gap(Contents(), v, p)
      ensures |prev| == |at| == MAX_HEIGHT && at[0] == p < |nodes|
      ensures Preds(nodes, at, curHeight, p)
      ensures forall lv :: 0 <= lv < curHeight ==> prev[lv] == nodes[at[lv]]
    {
      GapInside(Contents(), v, p);
      hide Gap;
      hide NextTall;
      hide PredsFrom;
      prev, at := Fill(MAX_HEIGHT, head), Fill<nat>(MAX_HEIGHT, 0);
      PredsFromNone(nodes, at, prev, curHeight, p);
      var cur := head;
      ghost var c: nat := 0;
      var lv := curHeight;
      while lv > 0
        invariant 0 <= lv <= curHeight && |prev| == |at| == MAX_HEIGHT
        invariant c <= p < |nodes| && nodes[c] == cur && cur.height >= lv
        invariant PredsFrom(nodes, at, prev, lv, curHeight, p)
      {
        lv := lv - 1;
        cur, c := Advance(v, cur, lv, c, p);
        PredsFromStep(nodes, at, prev, lv, curHeight, p, c);
        prev := prev[lv := cur];
        at := at[lv := c];
      }
      PredsFromAll(nodes, at, prev, curHeight, p);
    }

    lemma SortedGap(v: Entry, p: nat)
      requires Valid() && p == LowerBound(Contents(), v)
      ensures Gap(Contents(), v, p)
    {
      EntryOrder();
      var s := Contents();
      forall i | p <= i < |s| ensures !EntryLess(s[i], v) {
        if i > p { assert !EntryLess(s[i], s[p]); }
      }
    }

    /** `insert`; the random height is the parameter `h`. */
    method Insert(v: Entry, h: nat)
      requires Valid() && 1 <= h <= MAX_HEIGHT
      modifies this, nodes
      ensures Valid() && fresh(set n | n in nodes && n !in old(nodes))
      ensures Contents() == InsertEntry(v, old(Contents()))
      ensures var p := LowerBound(old(Contents()), v) + 1;
              && p <= |old(nodes)| && p < |nodes| && fresh(nodes[p]) && nodes[p].val == v && nodes[p].height == h
              && nodes == Inserted(old(nodes), p, nodes[p])
      ensures curHeight == if h > old(curHeight) then h else old(curHeight)
    {
      hide InsertEntry;
      hide Bytes;
      hide Gap;
      hide LowerBound;
      hide Sorted;
      hide Values;
      hide Inserted;
      ghost var p := LowerBound(Contents(), v);
      SortedGap(v, p);
      ghost var ns, was := nodes, Contents();
      var nd := Splice(v, h, p);
      bytes := bytes + EntryBytes(v);
      size := size + 1;
      InsertedContents(ns, p, nd, was);
    }

    method Splice(v: Entry, h: nat, ghost p: nat) returns (nd: Node)
      requires Shaped() && 1 <= h <= MAX_HEIGHT && Gap(Contents(), v, p)
      modifies this`curHeight, this`nodes, nodes
      ensures Shaped() && p < |old(nodes)| && fresh(nd) && nd.val == v && nd.height == h
      ensures curHeight == if h > old(curHeight) then h else old(curHeight)
      ensures nodes == Inserted(old(nodes), p + 1, nd) && |nodes| == |old(nodes)| + 1 && nodes[p + 1] == nd
      ensures forall n :: n in nodes ==> n == nd || n in old(nodes)
    {
      hide Gap;
      hide NextTall;
      hide At;
      hide SplicedBy;
      hide EntryLess;
      hide Preds;
      hide Inserted;
      var prev, at := FindPrev(v, p);
      prev, at := RaiseHeight(h, prev, at, p);
      PredsLower(nodes, at, curHeight, h, p);
      nd := new Node(v, h);
      InsertedAt(nodes, p + 1, nd);
      SpliceAt(nd, prev, at, p);
    }

    /** Links the new node in and records its place. */
    method SpliceAt(nd: Node, prev: seq<Node>, ghost at: seq<nat>, ghost p: nat)
      requires Shaped() && nd !in nodes && |nd.next| == MAX_HEIGHT && 1 <= nd.height <= curHeight
      requires |prev| == |at| == MAX_HEIGHT && p < |nodes| && Preds(nodes, at, nd.height, p)
      requires forall lv :: 0 <= lv < nd.height ==> at[lv] < |nodes| && prev[lv] == nodes[at[lv]]
      modifies this`nodes, nodes, nd
      ensures Shaped() && nodes == Inserted(old(nodes), p + 1, nd)
    {
      hide NextTall;
      hide At;
      hide SplicedBy;
      hide Preds;
      hide Inserted;
      ghost var ns, nx := nodes, Nexts(nodes);
      LinkIn(nd, prev, ns, at);
      AllLinked(ns, nx, at, p, nd);
      InsertedShape(ns, p, nd, curHeight);
      nodes := Inserted(ns, p + 1, nd);
    }

    lemma InsertedShape(ns: seq<Node>, p: nat, nd: Node, top: nat)
      requires p < |ns| && nd !in ns && forall i, j :: 0 <= i < j < |ns| ==> ns[i] != ns[j]
      requires |nd.next| == MAX_HEIGHT && 1 <= nd.height <= top <= MAX_HEIGHT
      requires forall i :: 0 <= i < |ns| ==> |ns[i].next| == MAX_HEIGHT && 1 <= ns[i].height <= MAX_HEIGHT
      requires forall i :: 1 <= i < |ns| ==> ns[i].height <= top
      ensures var ms := Inserted(ns, p + 1, nd);
              |ms| == |ns| + 1 && (forall i, j :: 0 <= i < j < |ms| ==> ms[i] != ms[j]) && ms[0] == ns[0]
              && (forall i :: 0 <= i < |ms| ==> |ms[i].next| == MAX_HEIGHT && 1 <= ms[i].height <= MAX_HEIGHT)
              && (forall i :: 1 <= i < |ms| ==> ms[i].height <= top)
    {
      var ms := Inserted(ns, p + 1, nd);
      assert forall i :: 0 <= i < |ms| ==> ms[i] == if i <= p then ns[i] else if i == p + 1 then nd else ns[i - 1];
    }

    lemma AllLinked(ns: seq<Node>, nx: seq<seq<Node?>>, at: seq<nat>, p: nat, nd: Node)
      requires LinkedBy(ns, nx) && SplicedBy(nx, Nexts(ns), at, nd) && Preds(ns, at, nd.height, p) && p < |ns|
      requires |nd.next| == MAX_HEIGHT && forall lv {:trigger nd.next[lv]} :: 0 <= lv < nd.height ==> nd.next[lv] == nx[at[lv]][lv]
      ensures Linked(Inserted(ns, p + 1, nd))
    {
      var ms := Inserted(ns, p + 1, nd);
      forall i, lv | 0 <= i < |ms| && 0 <= lv < ms[i].height && lv < |ms[i].next|
        ensures ms[i].next[lv] == At(ms, NextTall(ms, i + 1, lv))
      {
        OneLinked(ns, nx, at, p, nd, i, lv);
      }
    }

    lemma OneLinked(ns: seq<Node>, nx: seq<seq<Node?>>, at: seq<nat>, p: nat, nd: Node, i: nat, lv: nat)
      requires LinkedBy(ns, nx) && SplicedBy(nx, Nexts(ns), at, nd) && Preds(ns, at, nd.height, p) && p < |ns|
      requires |nd.next| == MAX_HEIGHT && forall lv {:trigger nd.next[lv]} :: 0 <= lv < nd.height ==> nd.next[lv] == nx[at[lv]][lv]
      requires var ms := Inserted(ns, p + 1, nd); i < |ms| && lv < ms[i].height && lv < |ms[i].next|
      ensures var ms := Inserted(ns, p + 1, nd); ms[i].next[lv] == At(ms, NextTall(ms, i + 1, lv))
    {
      if i == p + 1 {
        LinkAt(ns, p, nd, at[lv], lv);
        assert nx[at[lv]][lv] == At(ns, NextTall(ns, at[lv] + 1, lv));
      } else {
        var j := if i <= p then i else i - 1;
        assert Inserted(ns, p + 1, nd)[i] == ns[j];
        RelinkedOne(ns, nx, Nexts(ns), at, p, nd, j, lv);
      }
    }

    /** Levels above the current height start at the sentinel. */
    method RaiseHeight(h: nat, prev0: seq<Node>, ghost at0: seq<nat>, ghost p: nat) returns (prev: seq<Node>, ghost at: seq<nat>)
      requires Shaped() && h <= MAX_HEIGHT
      requires |prev0| == |at0| == MAX_HEIGHT && p < |nodes|
      requires Preds(nodes, at0, curHeight, p)
      requires forall lv :: 0 <= lv < curHeight ==> prev0[lv] == nodes[at0[lv]]
      modifies this`curHeight
      ensures Shaped() && curHeight == if h > old(curHeight) then h else old(curHeight)
      ensures |prev| == |at| == MAX_HEIGHT && Preds(nodes, at, curHeight, p)
      ensures forall lv :: 0 <= lv < curHeight ==> prev[lv] == nodes[at[lv]]
    {
      prev, at := prev0, at0;
      if h > curHeight {
        var i := curHeight;
        while i < h
          invariant curHeight <= i <= h && |prev| == |at| == MAX_HEIGHT
          invariant Preds(nodes, at, i, p)
          invariant forall lv :: 0 <= lv < i ==> prev[lv] == nodes[at[lv]]
        {
          NextTallIs(nodes, 1, i, |nodes|);
          prev := prev[i := head];
          at := at[i := 0];
          i := i + 1;
        }
        curHeight := h;
      }
    }

    lemma InsertedContents(ns: seq<Node>, p: nat, nd: Node, was: seq<Entry>)
      requires |ns| >= 1 && p < |ns| && was == Values(ns[1..]) && Gap(was, nd.val, p) && Sorted(was)
      ensures Values(Inserted(ns, p + 1, nd)[1..]) == InsertEntry(nd.val, was)
      ensures Sorted(InsertEntry(nd.val, was))
      ensures |InsertEntry(nd.val, was)| == |was| + 1
      ensures Bytes(InsertEntry(nd.val, was)) == Bytes(was) + EntryBytes(nd.val)
    {
      var ms := Inserted(ns, p + 1, nd);
      assert Values(ms[1..]) == was[..p] + [nd.val] + was[p..];
      GapIsInsert(was, nd.val, p);
      InsertEntrySorted(nd.val, was);
      InsertEntryBytes(nd.val, was);
    }

    /** Splices `nd` into its levels, one forward pointer at a time. */
    method LinkIn(nd: Node, prev: seq<Node>, ghost ns: seq<Node>, ghost at: seq<nat>)
      requires nd !in ns && |nd.next| == MAX_HEIGHT && 1 <= nd.height <= MAX_HEIGHT
      requires |prev| == |at| == MAX_HEIGHT
      requires forall i, j :: 0 <= i < j < |ns| ==> ns[i] != ns[j]
      requires forall i :: 0 <= i < |ns| ==> |ns[i].next| == MAX_HEIGHT
      requires forall lv :: 0 <= lv < nd.height ==> at[lv] < |ns| && ns[at[lv]] == prev[lv]
      modifies ns, nd
      ensures SplicedBy(old(Nexts(ns)), Nexts(ns), at, nd)
      ensures |nd.next| == MAX_HEIGHT
      ensures forall lv :: 0 <= lv < nd.height ==> nd.next[lv] == old(prev[lv].next[lv])
    {
      for i := 0 to nd.height
        invariant |nd.next| == MAX_HEIGHT && forall j :: 0 <= j < |ns| ==> |ns[j].next| == MAX_HEIGHT
        invariant forall j, lv :: 0 <= j < |ns| && 0 <= lv < MAX_HEIGHT ==>
                    ns[j].next[lv] == if lv < i && j == at[lv] then nd else old(ns[j].next[lv])
        invariant forall lv :: 0 <= lv < i ==> nd.next[lv] == old(prev[lv].next[lv])
      {
        assert prev[i] == ns[at[i]];
        nd.next := nd.next[i := prev[i].next[i]];
        prev[i].next := prev[i].next[i := nd];
      }
    }

    /** `find_key`: the newest version of the key, or nothing exactly when the key is absent. */
    method FindKey(k: Key) returns (r: Option<Entry>)
      requires Valid()
      ensures r == Best(Contents(), k)
    {
      var probe := Probe(k);
      ghost var p := LowerBound(Contents(), probe);
      SortedGap(probe, p);
      var prev, at := FindPrev(probe, p);
      NextLink(p, 0);
      var candidate := prev[0].next[0];
      NodeGetIsBest(Contents(), k);
      NextTallIs(nodes, p + 1, 0, p + 1);
      if candidate != null && candidate.val.key == k {
        r := Some(candidate.val);
      } else {
        r := None;
      }
    }

    method Clear()
      requires Valid()
      modifies this, head
      ensures Valid() && nodes == [head] && Contents() == [] && curHeight == 1
    {
      head.next := seq(MAX_HEIGHT, _ => null);
      curHeight, size, bytes := 1, 0, 0;
      nodes := [head];
    }

    method ToSortedVector() returns (out: seq<Entry>)
      requires Shaped()
      ensures out == Contents()
    {
      out := [];
      NextLink(0, 0);
      var cur := head.next[0];
      ghost var c := 1;
      NextTallIs(nodes, 1, 0, 1);
      while cur != null
        invariant 1 <= c <= |nodes| && cur == At(nodes, c)
        invariant out == Values(nodes[1..c])
        decreases |nodes| - c
      {
        NextLink(c, 0);
        NextTallIs(nodes, c + 1, 0, c + 1);
        assert nodes[1..c + 1] == nodes[1..c] + [nodes[c]];
        out := out + [cur.val];
        cur := cur.next[0];
        c := c + 1;
      }
    }

    lemma HeadFirst()
      requires Shaped()
      ensures |nodes| >= 1 && nodes[0] == head && head.height == MAX_HEIGHT
    {
    }

    /** Following the forward pointers of one level visits exactly the nodes taller than it. */
    method WalkLevel(lv: nat) returns (out: seq<Node>)
      requires Shaped() && lv < MAX_HEIGHT
      ensures out == Level(nodes[1..], lv)
    {
      hide NextTall;
      hide Level;
      hide SkipList.Shaped;
      HeadFirst();
      out := [];
      NextLink(0, lv);
      var cur := head.next[lv];
      ghost var c := NextTall(nodes, 1, lv);
      LevelSkip(nodes, 1, lv);
      ghost var all := Level(nodes[1..], lv);
      ghost var rest := Level(nodes[c..], lv);
      while cur != null
        invariant c <= |nodes| && cur == At(nodes, c) && (c < |nodes| ==> nodes[c].height > lv)
        invariant out + rest == all && rest == Level(nodes[c..], lv)
        decreases |nodes| - c
      {
        NextLink(c, lv);
        LevelStep(nodes, c, lv);
        ghost var d := NextTall(nodes, c + 1, lv);
        rest := Level(nodes[d..], lv);
        assert out + ([nodes[c]] + rest) == (out + [nodes[c]]) + rest;
        out := out + [cur];
        cur := cur.next[lv];
        c := d;
      }
      assert nodes[|nodes|..] == [];
      LevelNone(lv);
    }
  }
}
