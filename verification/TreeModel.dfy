/** The tree as a value: nodes with their subtrees, and the invariants that every step keeps. */
module TreeModel {
  import opened Types
  import opened Entries

  const MIN_FANOUT: nat := 8

  /** One node as the cache and the node files hold it. */
  datatype SSTNode = SSTNode(
    id: NodeId, level: nat, childIds: seq<NodeId>, minKey: Key, maxKey: Key, buffer: seq<Entry>)

  datatype Tree = Tree(node: SSTNode, kids: seq<Tree>)

  type Path = seq<nat>

  // ----- node operations -----

  /** `SSTNode::create`: sorted and deduplicated entries, key range taken from them. */
  function Create(id: NodeId, level: nat, entries: seq<Entry>, children: seq<NodeId>): SSTNode {
    var b := SortBuffer(entries);
    SSTNode(id, level, if |children| <= MAX_FANOUT then children else children[..MAX_FANOUT],
            if b != [] then b[0].key else [], if b != [] then b[|b| - 1].key else [], b)
  }

  /** The node that `flush_to_disk` leaves in memory and writes: the range only grows. */
  function FlushToDisk(n: SSTNode): SSTNode {
    var b := SortBuffer(n.buffer);
    n.(buffer := b,
       minKey := if b != [] && (n.minKey == [] || KeyLess(b[0].key, n.minKey)) then b[0].key else n.minKey,
       maxKey := if b != [] && (n.maxKey == [] || KeyLess(n.maxKey, b[|b| - 1].key)) then b[|b| - 1].key else n.maxKey)
  }

  /** `do_flush` widens an internal child's range to span its own children. */
  function Widen(n: SSTNode, cmin: Key, cmax: Key): SSTNode {
    n.(minKey := if n.minKey == [] || KeyLess(cmin, n.minKey) then cmin else n.minKey,
       maxKey := if n.maxKey == [] || KeyLess(n.maxKey, cmax) then cmax else n.maxKey)
  }

  /** Sets the key range to span the given children. */
  function Span(n: SSTNode, kids: seq<Tree>): SSTNode
    requires kids != []
  {
    n.(minKey := kids[0].node.minKey, maxKey := kids[|kids| - 1].node.maxKey)
  }

  // ----- contents -----

  /** Every entry stored in the subtree, a node's buffer before its children. */
  function E(t: Tree): seq<Entry>
    decreases t, 1
  {
    t.node.buffer + EKids(t.kids)
  }

  function EKids(ks: seq<Tree>): seq<Entry>
    decreases ks, 0
  {
    if ks == [] then [] else E(ks[0]) + EKids(ks[1..])
  }

  function KidIds(ks: seq<Tree>): (r: seq<NodeId>)
    ensures |r| == |ks| && forall i :: 0 <= i < |ks| ==> r[i] == ks[i].node.id
  {
    seq(|ks|, i requires 0 <= i < |ks| => ks[i].node.id)
  }

  function KidMins(ks: seq<Tree>): (r: seq<Key>)
    ensures |r| == |ks| && forall i :: 0 <= i < |ks| ==> r[i] == ks[i].node.minKey
  {
    seq(|ks|, i requires 0 <= i < |ks| => ks[i].node.minKey)
  }

  /** `find_path` followed by the node lookups of `get`: the first hit on the way down. */
  function Lookup(t: Tree, k: Key): Option<Entry> {
    var hit := NodeGet(t.node.buffer, k);
    if hit.Some? || t.kids == [] then hit
    else
      var r := ScanUp(KidMins(t.kids), k, 0);
      if r < |t.kids| then Lookup(t.kids[r], k) else None
  }

  // ----- invariants -----

  ghost predicate HasKey(s: seq<Entry>, k: Key) {
    exists e :: e in s && e.key == k
  }

  ghost predicate Below(s: seq<Entry>, m: Key) {
    forall e :: e in s ==> KeyLess(e.key, m)
  }

  ghost predicate AtLeast(s: seq<Entry>, m: Key) {
    forall e :: e in s ==> !KeyLess(e.key, m)
  }

  /**
   * The cached minimum is a stored key and no stored key is below it.  The code reads an empty
   * minimum as "not set", so the lower bound is lost, harmlessly, once the empty key is stored.
   */
  ghost predicate MinOk(m: Key, s: seq<Entry>) {
    HasKey(s, m) && (HasKey(s, []) || AtLeast(s, m))
  }

  /** The cached minimum keys fence the children off from each other. */
  ghost predicate Separated(ks: seq<Tree>) {
    forall j :: 0 < j < |ks| ==>
      AtLeast(E(ks[j]), ks[j].node.minKey) &&
      forall i :: 0 <= i < j ==> Below(E(ks[i]), ks[j].node.minKey)
  }

  ghost predicate GoodKids(ks: seq<Tree>, level: int) {
    Separated(ks) && forall i :: 0 <= i < |ks| ==> ks[i].node.level == level && Good(ks[i])
  }

  /** A node below the root. */
  ghost predicate Good(t: Tree) {
    && t.node.childIds == KidIds(t.kids)
    && StrictKeys(t.node.buffer)
    && MinOk(t.node.minKey, E(t))
    && (if t.node.level == 0 then t.kids == [] else MIN_FANOUT <= |t.kids| <= MAX_FANOUT)
    && Separated(t.kids)
    && forall i :: 0 <= i < |t.kids| ==> t.kids[i].node.level == t.node.level - 1 && Good(t.kids[i])
  }

  /** The root: its buffer may hold several versions of a key, its range is not used for routing. */
  ghost predicate RootOk(t: Tree) {
    && t.node.childIds == KidIds(t.kids)
    && Sorted(t.node.buffer)
    && (if t.node.level == 0 then t.kids == [] else 2 <= |t.kids| <= MAX_FANOUT)
    && GoodKids(t.kids, t.node.level - 1)
  }

  ghost predicate Above(s: seq<Entry>, below: seq<Entry>) {
    forall e, f :: e in s && f in below && e.key == f.key ==> f.seqNo < e.seqNo
  }

  /** Versions of a key get strictly older on the way down. */
  ghost predicate VersionOrder(t: Tree) {
    && Above(t.node.buffer, EKids(t.kids))
    && forall i :: 0 <= i < |t.kids| ==> VersionOrder(t.kids[i])
  }

  /** `b` keeps the newest version of every key of `a` and adds nothing. */
  ghost predicate Compacts(b: seq<Entry>, a: seq<Entry>) {
    SameView(b, a) && Within(b, a)
  }

  // ----- contents of child lists -----

  lemma {:induction false} EKidsAppend(a: seq<Tree>, b: seq<Tree>)
    ensures EKids(a + b) == EKids(a) + EKids(b)
  {
    if a == [] {
      assert a + b == b;
    } else {
      hide E;
      EKidsAppend(a[1..], b);
      assert (a + b)[0] == a[0] && (a + b)[1..] == a[1..] + b;
      Assoc(E(a[0]), EKids(a[1..]), EKids(b));
    }
  }

  lemma {:induction false} EKidsMember(ks: seq<Tree>, e: Entry)
    ensures e in EKids(ks) <==> exists i :: 0 <= i < |ks| && e in E(ks[i])
  {
    if ks != [] {
      EKidsMember(ks[1..], e);
      assert ks == [ks[0]] + ks[1..];
      if e in EKids(ks[1..]) {
        var i :| 0 <= i < |ks[1..]| && e in E(ks[1..][i]);
        assert e in E(ks[i + 1]);
      }
      if i :| 0 <= i < |ks| && e in E(ks[i]) && i > 0 {
        assert e in E(ks[1..][i - 1]);
      }
    }
  }

  lemma EKidsAt(ks: seq<Tree>, i: nat)
    requires i < |ks|
    ensures EKids(ks) == EKids(ks[..i]) + E(ks[i]) + EKids(ks[i + 1..])
  {
    hide E;
    assert ks == ks[..i] + ks[i..];
    EKidsAppend(ks[..i], ks[i..]);
    assert ks[i..][0] == ks[i] && ks[i..][1..] == ks[i + 1..];
    Assoc(EKids(ks[..i]), E(ks[i]), EKids(ks[i + 1..]));
  }

  /** If only child `r` can hold `k`, the newest version below is that child's. */
  lemma {:induction false} BestOfOneKid(ks: seq<Tree>, r: nat, k: Key)
    requires r < |ks|
    requires forall i :: 0 <= i < |ks| && i != r ==> !HasKey(E(ks[i]), k)
    ensures Best(EKids(ks), k) == Best(E(ks[r]), k)
  {
    EKidsAt(ks, r);
    var a, b := EKids(ks[..r]), EKids(ks[r + 1..]);
    BestAppend(a + E(ks[r]), b, k);
    BestAppend(a, E(ks[r]), k);
    forall e | e in a ensures e.key != k {
      EKidsMember(ks[..r], e);
      var i :| 0 <= i < |ks[..r]| && e in E(ks[..r][i]);
      assert !HasKey(E(ks[i]), k);
    }
    forall e | e in b ensures e.key != k {
      EKidsMember(ks[r + 1..], e);
      var i :| 0 <= i < |ks[r + 1..]| && e in E(ks[r + 1..][i]);
      assert !HasKey(E(ks[i + r + 1]), k);
    }
    BestIsNewest(a, k);
    BestIsNewest(b, k);
  }

  // ----- routing -----

  lemma SeparatedIncreasing(ks: seq<Tree>, level: int)
    requires GoodKids(ks, level)
    ensures Increasing(KidMins(ks))
  {
    var mins := KidMins(ks);
    forall i, j | 0 <= i < j < |ks| ensures KeyLess(mins[i], mins[j]) {
      assert Below(E(ks[i]), ks[j].node.minKey);
      assert Good(ks[i]);
    }
  }

  /** Every stored version of `k` is in the child that the key routes to. */
  lemma OffPath(ks: seq<Tree>, level: int, k: Key, r: nat, i: nat)
    requires GoodKids(ks, level) && Covers(KidMins(ks), k, r)
    requires i < |ks| && i != r
    ensures !HasKey(E(ks[i]), k)
  {
    KeyOrder();
    if i < r {
      assert Below(E(ks[i]), ks[r].node.minKey);
    } else {
      assert AtLeast(E(ks[i]), ks[i].node.minKey);
    }
  }

  lemma KidRoute(ks: seq<Tree>, level: int, k: Key) returns (r: nat)
    requires GoodKids(ks, level) && ks != []
    ensures r < |ks| && r == Route(KidMins(ks), k) == ScanUp(KidMins(ks), k, 0)
    ensures Covers(KidMins(ks), k, r)
    ensures Best(EKids(ks), k) == Best(E(ks[r]), k)
  {
    SeparatedIncreasing(ks, level);
    RoutersAgree(KidMins(ks), k);
    r := Route(KidMins(ks), k);
    forall i | 0 <= i < |ks| && i != r ensures !HasKey(E(ks[i]), k) {
      OffPath(ks, level, k, r, i);
    }
    BestOfOneKid(ks, r, k);
  }

  lemma NewestOnTop(s: seq<Entry>, below: seq<Entry>, k: Key)
    requires Above(s, below)
    ensures Best(s + below, k) == if Best(s, k).Some? then Best(s, k) else Best(below, k)
  {
    BestAppend(s, below, k);
    BestIsNewest(s, k);
    BestIsNewest(below, k);
  }

  /** The first hit on the path is the newest version stored anywhere in the tree. */
  lemma {:induction false} LookupIsBest(t: Tree, k: Key)
    requires RootOk(t) || Good(t)
    requires VersionOrder(t)
    ensures Lookup(t, k) == Best(E(t), k)
  {
    if Good(t) { StrictIsSorted(t.node.buffer); }
    NodeGetIsBest(t.node.buffer, k);
    NewestOnTop(t.node.buffer, EKids(t.kids), k);
    if t.kids != [] {
      var r := KidRoute(t.kids, t.node.level - 1, k);
      LookupIsBest(t.kids[r], k);
    }
  }

  // ----- minimum keys depend only on which keys are stored -----

  lemma SameKeysMinOk(m: Key, a: seq<Entry>, b: seq<Entry>)
    requires MinOk(m, a) && SameView(a, b)
    ensures MinOk(m, b)
  {
    var e :| e in a && e.key == m;
    var f := SameViewSameKeys(a, b, e);
    if HasKey(a, []) {
      var e0 :| e0 in a && e0.key == [];
      var f0 := SameViewSameKeys(a, b, e0);
    } else {
      forall x | x in b ensures !KeyLess(x.key, m) {
        var y := SameViewSameKeys(b, a, x);
      }
    }
  }

  lemma NoEmptyKey(s: seq<Entry>, m: Key)
    requires AtLeast(s, m) && m != []
    ensures !HasKey(s, [])
  {
  }

  /** Two exact minimums over the same keys are equal. */
  lemma MinUnique(m: Key, n: Key, a: seq<Entry>, b: seq<Entry>)
    requires SameView(a, b) && HasKey(a, m) && AtLeast(a, m) && MinOk(n, b) && m != []
    ensures m == n && AtLeast(b, n)
  {
    KeyOrder();
    forall x | x in b ensures !KeyLess(x.key, m) {
      var y := SameViewSameKeys(b, a, x);
    }
    var e :| e in a && e.key == m;
    var f := SameViewSameKeys(a, b, e);
    NoEmptyKey(b, m);
  }

  // ----- replacing one child -----

  lemma KidUpdate(ks: seq<Tree>, level: int, i: nat, c: Tree)
    requires GoodKids(ks, level) && i < |ks|
    requires Good(c) && c.node.level == level && Compacts(E(c), E(ks[i]))
    ensures GoodKids(ks[i := c], level)
    ensures Compacts(EKids(ks[i := c]), EKids(ks))
  {
    var ls := ks[i := c];
    SeparatedUpdate(ks, level, i, c);
    EKidsAt(ks, i);
    EKidsAt(ls, i);
    assert ls[..i] == ks[..i] && ls[i + 1..] == ks[i + 1..];
    CompactsInContext(EKids(ks[..i]), E(c), E(ks[i]), EKids(ks[i + 1..]));
  }

  lemma SeparatedUpdate(ks: seq<Tree>, level: int, i: nat, c: Tree)
    requires GoodKids(ks, level) && i < |ks|
    requires Good(c) && Compacts(E(c), E(ks[i]))
    ensures Separated(ks[i := c])
  {
    var ls := ks[i := c];
    if 0 < i {
      assert Below(E(ks[0]), ks[i].node.minKey);
      assert Good(ks[0]);
      MinUnique(ks[i].node.minKey, c.node.minKey, E(ks[i]), E(c));
    }
    forall j | 0 < j < |ls|
      ensures AtLeast(E(ls[j]), ls[j].node.minKey)
      ensures forall m :: 0 <= m < j ==> Below(E(ls[m]), ls[j].node.minKey)
    {
      forall m | 0 <= m < j ensures Below(E(ls[m]), ls[j].node.minKey) {
        assert Below(E(ks[m]), ks[j].node.minKey);
      }
    }
  }

  lemma CompactsInContext(a: seq<Entry>, x: seq<Entry>, y: seq<Entry>, b: seq<Entry>)
    requires Compacts(x, y)
    ensures Compacts(a + x + b, a + y + b)
  {
    SameViewAppend(a, a, x, y);
    SameViewAppend(a + x, a + y, b, b);
  }

  // ----- replacing one child by two -----

  /** `l` and `r` together stand for `was`, with `r`'s minimum key as the fence. */
  ghost predicate SplitOf(was: Tree, l: Tree, r: Tree) {
    && Good(l) && Good(r)
    && l.node.level == r.node.level == was.node.level
    && Below(E(l), r.node.minKey) && AtLeast(E(r), r.node.minKey)
    && Compacts(E(l) + E(r), E(was))
  }

  function Two(ks: seq<Tree>, i: nat, l: Tree, r: Tree): seq<Tree>
    requires i < |ks|
  {
    ks[..i] + [l, r] + ks[i + 1..]
  }

  lemma SplitKeepsMin(was: Tree, l: Tree, r: Tree)
    requires SplitOf(was, l, r) && AtLeast(E(was), was.node.minKey) && HasKey(E(was), was.node.minKey)
    requires was.node.minKey != []
    ensures l.node.minKey == was.node.minKey && AtLeast(E(l), l.node.minKey)
    ensures KeyLess(was.node.minKey, r.node.minKey)
  {
    KeyOrder();
    var m := was.node.minKey;
    var e :| e in E(was) && e.key == m;
    var f := SameViewSameKeys(E(was), E(l) + E(r), e);
    var x :| x in E(l) && x.key == l.node.minKey;
    var y :| y in E(r) && y.key == r.node.minKey;
    assert x in E(l) + E(r) && y in E(l) + E(r);
    assert forall z :: z in E(l) ==> z in E(l) + E(r);
    NoEmptyKey(E(was), m);
    assert !HasKey(E(l), []);
  }

  lemma EKidsTwo(ks: seq<Tree>, i: nat, l: Tree, r: Tree)
    requires i < |ks|
    ensures EKids(Two(ks, i, l, r)) == EKids(ks[..i]) + (E(l) + E(r)) + EKids(ks[i + 1..])
  {
    EKidsAppend(ks[..i], [l, r]);
    EKidsAppend(ks[..i] + [l, r], ks[i + 1..]);
    EKidsOne(l);
    EKidsOne(r);
    EKidsAppend([l], [r]);
    assert [l] + [r] == [l, r];
  }

  lemma EKidsOne(t: Tree)
    ensures EKids([t]) == E(t)
  {
    assert EKids([t]) == E(t) + EKids([]);
  }

  lemma KidSplit(ks: seq<Tree>, level: int, i: nat, l: Tree, r: Tree)
    requires GoodKids(ks, level) && i < |ks| && SplitOf(ks[i], l, r)
    ensures GoodKids(Two(ks, i, l, r), level)
    ensures Compacts(EKids(Two(ks, i, l, r)), EKids(ks))
  {
    SeparatedTwo(ks, level, i, l, r);
    LevelsTwo(ks, level, i, l, r);
    EKidsAt(ks, i);
    EKidsTwo(ks, i, l, r);
    CompactsInContext(EKids(ks[..i]), E(l) + E(r), E(ks[i]), EKids(ks[i + 1..]));
  }

  lemma BelowLess(s: seq<Entry>, m: Key, n: Key)
    requires Below(s, m) && KeyLess(m, n)
    ensures Below(s, n)
  {
    KeyOrder();
  }

  lemma BelowParts(was: Tree, l: Tree, r: Tree)
    requires Within(E(l) + E(r), E(was))
    ensures forall m :: Below(E(was), m) ==> Below(E(l), m) && Below(E(r), m)
  {
    assert forall e :: e in E(l) ==> e in E(l) + E(r);
    assert forall e :: e in E(r) ==> e in E(l) + E(r);
  }

  lemma LevelsTwo(ks: seq<Tree>, level: int, i: nat, l: Tree, r: Tree)
    requires GoodKids(ks, level) && i < |ks| && SplitOf(ks[i], l, r)
    ensures forall j :: 0 <= j < |ks| + 1 ==>
              Two(ks, i, l, r)[j].node.level == level && Good(Two(ks, i, l, r)[j])
  {
    var ls := Two(ks, i, l, r);
    forall j | 0 <= j < |ls| ensures ls[j].node.level == level && Good(ls[j]) {
      assert ls[j] == if j < i then ks[j] else if j == i then l else if j == i + 1 then r else ks[j - 1];
    }
  }

  lemma SeparatedTwo(ks: seq<Tree>, level: int, i: nat, l: Tree, r: Tree)
    requires GoodKids(ks, level) && i < |ks| && SplitOf(ks[i], l, r)
    ensures Separated(Two(ks, i, l, r))
  {
    var ls := Two(ks, i, l, r);
    if 0 < i {
      assert Below(E(ks[0]), ks[i].node.minKey) && Good(ks[0]) && Good(ks[i]);
      SplitKeepsMin(ks[i], l, r);
    }
    BelowParts(ks[i], l, r);
    forall j | 0 < j < |ls|
      ensures AtLeast(E(ls[j]), ls[j].node.minKey)
      ensures forall m :: 0 <= m < j ==> Below(E(ls[m]), ls[j].node.minKey)
    {
      forall m | 0 <= m < j ensures Below(E(ls[m]), ls[j].node.minKey) {
        FenceTwo(ks, i, l, r, m, j);
      }
    }
  }

  lemma FenceTwo(ks: seq<Tree>, i: nat, l: Tree, r: Tree, m: nat, j: nat)
    requires Separated(ks) && i < |ks| && m < j < |ks| + 1
    requires Below(E(l), r.node.minKey)
    requires forall x :: Below(E(ks[i]), x) ==> Below(E(l), x) && Below(E(r), x)
    requires 0 < i ==> l.node.minKey == ks[i].node.minKey && KeyLess(ks[i].node.minKey, r.node.minKey)
    ensures Below(E(Two(ks, i, l, r)[m]), Two(ks, i, l, r)[j].node.minKey)
  {
    var m' := if m <= i then m else m - 1;
    var j' := if j <= i then j else j - 1;
    if m' < j' {
      assert Below(E(ks[m']), ks[j'].node.minKey);
      if j == i + 1 {
        BelowLess(E(ks[m']), ks[i].node.minKey, r.node.minKey);
      }
    }
  }
}
