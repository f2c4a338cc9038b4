/** split_leaf and insert_child: splitting a leaf and propagating the split upward. */
module TreeSplit {
  import opened Types
  import opened Entries
  import opened TreeModel
  import opened TreeFlush

  // ----- positions -----

  predicate ValidPath(t: Tree, p: Path) {
    p == [] || (p[0] < |t.kids| && ValidPath(t.kids[p[0]], p[1..]))
  }

  function Sub(t: Tree, p: Path): Tree
    requires ValidPath(t, p)
  {
    if p == [] then t else Sub(t.kids[p[0]], p[1..])
  }

  /** `t` with the subtree at `p` replaced. */
  function Update(t: Tree, p: Path, s: Tree): Tree
    requires ValidPath(t, p)
  {
    if p == [] then s else t.(kids := t.kids[p[0] := Update(t.kids[p[0]], p[1..], s)])
  }

  function Parent(p: Path): Path
    requires p != []
  {
    p[..|p| - 1]
  }

  function Last(p: Path): nat
    requires p != []
  {
    p[|p| - 1]
  }

  lemma {:induction false} ParentPath(t: Tree, p: Path)
    requires p != [] && ValidPath(t, p)
    ensures ValidPath(t, Parent(p)) && Last(p) < |Sub(t, Parent(p)).kids|
    ensures Sub(t, Parent(p)).kids[Last(p)] == Sub(t, p)
  {
    if |p| > 1 {
      ParentPath(t.kids[p[0]], p[1..]);
      assert Parent(p)[1..] == Parent(p[1..]);
    }
  }

  // ----- the steps -----

  /** `split_leaf`: the sorted buffer cut in the middle, each half a new leaf. */
  function LeftLeaf(leaf: Tree, next: NodeId): Tree {
    var s := StableSort(leaf.node.buffer);
    Tree(Create(next, 0, s[..|s| / 2], []), [])
  }

  function RightLeaf(leaf: Tree, next: NodeId): Tree {
    var s := StableSort(leaf.node.buffer);
    Tree(Create(next + 1, 0, s[|s| / 2..], []), [])
  }

  /** A parent with room takes both halves in place of the old child. */
  function Adopt(p: Tree, i: nat, l: Tree, r: Tree): Tree
    requires i < |p.kids|
  {
    var ks := Two(p.kids, i, l, r);
    Tree(FlushToDisk(Span(p.node.(childIds := KidIds(ks)), ks)), ks)
  }

  function KeysBelow(s: seq<Entry>, m: Key): seq<Entry> {
    if s == [] then [] else if KeyLess(s[0].key, m) then [s[0]] + KeysBelow(s[1..], m) else KeysBelow(s[1..], m)
  }

  function KeysFrom(s: seq<Entry>, m: Key): seq<Entry> {
    if s == [] then [] else if KeyLess(s[0].key, m) then KeysFrom(s[1..], m) else [s[0]] + KeysFrom(s[1..], m)
  }

  function Half(id: NodeId, level: nat, buffer: seq<Entry>, ks: seq<Tree>): Tree
    requires ks != []
  {
    Tree(FlushToDisk(Span(Create(id, level, buffer, KidIds(ks)), ks)), ks)
  }

  /** A full parent becomes two nodes at its own level, its buffer divided at the fence. */
  function LeftOf(n: SSTNode, ks: seq<Tree>, next: NodeId): Tree
    requires |ks| >= 2
  {
    var h := |ks| / 2;
    Half(next, n.level, KeysBelow(n.buffer, ks[h].node.minKey), ks[..h])
  }

  function RightOf(n: SSTNode, ks: seq<Tree>, next: NodeId): Tree
    requires |ks| >= 2
  {
    var h := |ks| / 2;
    Half(next + 1, n.level, KeysFrom(n.buffer, ks[h].node.minKey), ks[h..])
  }

  function LeftHalf(p: Tree, i: nat, l: Tree, r: Tree, next: NodeId): Tree
    requires i < |p.kids|
  {
    LeftOf(p.node, Two(p.kids, i, l, r), next)
  }

  function RightHalf(p: Tree, i: nat, l: Tree, r: Tree, next: NodeId): Tree
    requires i < |p.kids|
  {
    RightOf(p.node, Two(p.kids, i, l, r), next)
  }

  function NewRoot(l: Tree, r: Tree, next: NodeId): Tree {
    Half(next, l.node.level + 1, [], [l, r])
  }

  /** `insert_child`, with the path to the replaced child in place of the search for it. */
  function InsertAt(t: Tree, p: Path, l: Tree, r: Tree, next: NodeId): (Tree, NodeId)
    requires ValidPath(t, p)
    decreases |p|
  {
    if p == [] then (NewRoot(l, r, next), next + 1)
    else
      ParentPath(t, p);
      var q := Sub(t, Parent(p));
      if |q.kids| < MAX_FANOUT then (Update(t, Parent(p), Adopt(q, Last(p), l, r)), next)
      else InsertAt(t, Parent(p), LeftHalf(q, Last(p), l, r, next), RightHalf(q, Last(p), l, r, next), next + 2)
  }

  /** `split_leaf` on the leaf at `p`. */
  function SplitAt(t: Tree, p: Path, next: NodeId): (Tree, NodeId)
    requires ValidPath(t, p)
  {
    InsertAt(t, p, LeftLeaf(Sub(t, p), next), RightLeaf(Sub(t, p), next), next + 2)
  }

  /** Ids are only ever taken from the counter. */
  lemma {:induction false} InsertAtNext(t: Tree, p: Path, l: Tree, r: Tree, next: NodeId)
    requires ValidPath(t, p)
    ensures InsertAt(t, p, l, r, next).1 >= next
    decreases |p|
  {
    hide LeftHalf;
    hide RightHalf;
    hide Adopt;
    hide NewRoot;
    if p != [] {
      ParentPath(t, p);
      var q, i := Sub(t, Parent(p)), Last(p);
      InsertAtNext(t, Parent(p), LeftHalf(q, i, l, r, next), RightHalf(q, i, l, r, next), next + 2);
    }
  }

  lemma SplitAtNext(t: Tree, p: Path, next: NodeId)
    requires ValidPath(t, p)
    ensures SplitAt(t, p, next).1 >= next
  {
    hide InsertAt;
    InsertAtNext(t, p, LeftLeaf(Sub(t, p), next), RightLeaf(Sub(t, p), next), next + 2);
  }

  /** One level of `insert_child`. */
  lemma InsertAtStep(t: Tree, p: Path, l: Tree, r: Tree, next: NodeId)
    requires ValidPath(t, p) && p != [] && ValidPath(t, Parent(p)) && Last(p) < |Sub(t, Parent(p)).kids|
    ensures var q, i := Sub(t, Parent(p)), Last(p);
            InsertAt(t, p, l, r, next) ==
            if |q.kids| < MAX_FANOUT then (Update(t, Parent(p), Adopt(q, i, l, r)), next)
            else InsertAt(t, Parent(p), LeftHalf(q, i, l, r, next), RightHalf(q, i, l, r, next), next + 2)
  {
  }

  // ----- replacing a subtree in place -----

  lemma {:induction false} UpdateGood(t: Tree, p: Path, s: Tree)
    requires Good(t) && ValidPath(t, p) && Good(s)
    requires s.node.id == Sub(t, p).node.id && s.node.level == Sub(t, p).node.level
    requires Compacts(E(s), E(Sub(t, p)))
    ensures Good(Update(t, p, s)) && Compacts(E(Update(t, p, s)), E(t))
    ensures Update(t, p, s).node.id == t.node.id && Update(t, p, s).node.level == t.node.level
  {
    if p != [] {
      var c := Update(t.kids[p[0]], p[1..], s);
      UpdateGood(t.kids[p[0]], p[1..], s);
      UpdateKid(t, p[0], c);
      SameKeysMinOk(t.node.minKey, E(t), E(Update(t, p, s)));
    }
  }

  lemma UpdateKid(t: Tree, i: nat, c: Tree)
    requires GoodKids(t.kids, t.node.level - 1) && i < |t.kids| && Good(c)
    requires c.node.id == t.kids[i].node.id && c.node.level == t.node.level - 1
    requires Compacts(E(c), E(t.kids[i]))
    ensures GoodKids(t.kids[i := c], t.node.level - 1)
    ensures Compacts(E(t.(kids := t.kids[i := c])), E(t))
    ensures KidIds(t.kids[i := c]) == KidIds(t.kids)
  {
    hide Good;
    hide Best;
    KidUpdate(t.kids, t.node.level - 1, i, c);
    SameViewAppend(t.node.buffer, t.node.buffer, EKids(t.kids[i := c]), EKids(t.kids));
  }

  /** Replacing a subtree by a compacted one keeps every invariant of the tree around it. */
  lemma UpdateRoot(t: Tree, p: Path, s: Tree)
    requires RootOk(t) && ValidPath(t, p) && (if p == [] then RootOk(s) else Good(s))
    requires s.node.id == Sub(t, p).node.id && s.node.level == Sub(t, p).node.level
    requires Compacts(E(s), E(Sub(t, p)))
    ensures RootOk(Update(t, p, s)) && Compacts(E(Update(t, p, s)), E(t))
    ensures Update(t, p, s).node.id == t.node.id && Update(t, p, s).node.level == t.node.level
  {
    if p != [] {
      UpdateGood(t.kids[p[0]], p[1..], s);
      UpdateKid(t, p[0], Update(t.kids[p[0]], p[1..], s));
    }
  }

  lemma {:induction false} UpdateVersions(t: Tree, p: Path, s: Tree)
    requires VersionOrder(t) && ValidPath(t, p) && VersionOrder(s)
    requires Within(E(s), E(Sub(t, p)))
    ensures VersionOrder(Update(t, p, s)) && Within(E(Update(t, p, s)), E(t))
  {
    if p != [] {
      var c := Update(t.kids[p[0]], p[1..], s);
      var ks := t.kids[p[0] := c];
      UpdateVersions(t.kids[p[0]], p[1..], s);
      forall e | e in EKids(ks) ensures e in EKids(t.kids) {
        EKidsMember(ks, e);
        EKidsMember(t.kids, e);
        var i :| 0 <= i < |ks| && e in E(ks[i]);
        assert e in E(t.kids[i]);
      }
    }
  }

  lemma {:induction false} SubGood(t: Tree, p: Path)
    requires ValidPath(t, p) && (Good(t) || (RootOk(t) && p != []))
    ensures Good(Sub(t, p))
  {
    if p != [] {
      assert Good(t.kids[p[0]]);
      SubGood(t.kids[p[0]], p[1..]);
    }
  }

  lemma {:induction false} SubWithin(t: Tree, p: Path)
    requires ValidPath(t, p)
    ensures Within(E(Sub(t, p)), E(t))
  {
    if p != [] {
      SubWithin(t.kids[p[0]], p[1..]);
      forall e | e in E(t.kids[p[0]]) ensures e in E(t) { EKidsMember(t.kids, e); }
    }
  }

  // ----- splitting a leaf -----

  /** The two halves of the sorted leaf hold different keys at the cut. */
  predicate CleanCut(s: seq<Entry>) {
    |s| >= 2 && s[|s| / 2 - 1].key != s[|s| / 2].key
  }

  lemma LeafSplitOk(leaf: Tree, next: NodeId)
    requires leaf.kids == [] && leaf.node.level == 0 && CleanCut(StableSort(leaf.node.buffer))
    ensures SplitOf(leaf, LeftLeaf(leaf, next), RightLeaf(leaf, next))
  {
    hide StableSort;
    hide Create;
    hide Good;
    hide Best;
    hide KeyLess;
    var s := StableSort(leaf.node.buffer);
    var h := |s| / 2;
    StableSortFacts(leaf.node.buffer);
    LeafOk(next, s[..h]);
    LeafOk(next + 1, s[h..]);
    LeafMin(next + 1, s, h);
    CutOrder(s);
    var l, r := LeftLeaf(leaf, next), RightLeaf(leaf, next);
    CutView(s, E(l), E(r));
    LeafView(leaf, s, E(l) + E(r));
  }

  lemma LeafView(leaf: Tree, s: seq<Entry>, x: seq<Entry>)
    requires leaf.kids == [] && Compacts(x, s) && SameView(s, leaf.node.buffer) && Within(s, leaf.node.buffer)
    ensures Compacts(x, E(leaf))
  {
    assert E(leaf) == leaf.node.buffer;
  }

  lemma LeafMin(id: NodeId, s: seq<Entry>, h: nat)
    requires Sorted(s) && h < |s|
    ensures Create(id, 0, s[h..], []).minKey == s[h].key
  {
    hide SortBuffer;
    SortBufferHead(s, h);
  }

  lemma CutView(s: seq<Entry>, a: seq<Entry>, b: seq<Entry>)
    requires Compacts(a, s[..|s| / 2]) && Compacts(b, s[|s| / 2..])
    ensures Compacts(a + b, s)
  {
    var h := |s| / 2;
    assert s[..h] + s[h..] == s;
    SameViewAppend(a, s[..h], b, s[h..]);
  }

  lemma LeafOk(id: NodeId, s: seq<Entry>)
    requires s != []
    ensures Good(Tree(Create(id, 0, s, []), []))
    ensures Compacts(E(Tree(Create(id, 0, s, []), [])), s)
    ensures AtLeast(E(Tree(Create(id, 0, s, []), [])), Create(id, 0, s, []).minKey) && Create(id, 0, s, []).level == 0
  {
    SortBufferFacts(s);
    FrontIsMin(SortBuffer(s));
    assert E(Tree(Create(id, 0, s, []), [])) == SortBuffer(s);
  }

  lemma SortBufferHead(s: seq<Entry>, h: nat)
    requires Sorted(s) && h < |s|
    ensures SortBuffer(s[h..]) != [] && SortBuffer(s[h..])[0] == s[h]
  {
    StableSortOfSorted(s[h..]);
    DedupeFacts(s[h..]);
  }

  lemma CutOrder(s: seq<Entry>)
    requires Sorted(s) && CleanCut(s)
    ensures forall e :: e in s[..|s| / 2] ==> KeyLess(e.key, s[|s| / 2].key)
  {
    var h := |s| / 2;
    KeyOrder();
    forall e | e in s[..h] ensures KeyLess(e.key, s[h].key) {
      var i :| 0 <= i < h && s[i] == e;
      assert !EntryLess(s[h], s[h - 1]);
      assert i < h - 1 ==> !EntryLess(s[h - 1], s[i]);
    }
  }

  lemma StrictCutsClean(s: seq<Entry>)
    requires StrictKeys(s) && |s| >= 2
    ensures StableSort(s) == s && CleanCut(s)
  {
    StrictIsSorted(s);
    StableSortOfSorted(s);
    KeyOrder();
    assert KeyLess(s[|s| / 2 - 1].key, s[|s| / 2].key);
  }

  // ----- a parent adopts both halves -----

  lemma AdoptOk(p: Tree, i: nat, l: Tree, r: Tree)
    requires GoodKids(p.kids, p.node.level - 1) && i < |p.kids| && SplitOf(p.kids[i], l, r)
    ensures var a := Adopt(p, i, l, r);
            GoodKids(a.kids, p.node.level - 1) && a.node.childIds == KidIds(a.kids)
            && a.node.buffer == SortBuffer(p.node.buffer)
            && a.node.id == p.node.id && a.node.level == p.node.level
            && |a.kids| == |p.kids| + 1
            && Compacts(E(a), E(p))
            && (StrictKeys(p.node.buffer) ==> MinOk(a.node.minKey, E(a)))
  {
    var a := Adopt(p, i, l, r);
    KidSplit(p.kids, p.node.level - 1, i, l, r);
    SortBufferFacts(p.node.buffer);
    SameViewAppend(a.node.buffer, p.node.buffer, EKids(a.kids), EKids(p.kids));
    SpanMin(a.kids, p.node.level - 1);
    if StrictKeys(p.node.buffer) {
      MinOkFlush(Span(p.node.(childIds := KidIds(a.kids)), a.kids), EKids(a.kids));
    }
  }

  lemma AdoptGood(p: Tree, i: nat, l: Tree, r: Tree)
    requires (Good(p) || RootOk(p)) && i < |p.kids| < MAX_FANOUT && SplitOf(p.kids[i], l, r)
    ensures Good(p) ==> Good(Adopt(p, i, l, r))
    ensures RootOk(p) ==> RootOk(Adopt(p, i, l, r))
  {
    AdoptOk(p, i, l, r);
    SortBufferFacts(p.node.buffer);
  }

  // ----- a full parent splits -----

  lemma {:induction false} KeysBelowBest(s: seq<Entry>, m: Key, k: Key)
    ensures Best(KeysBelow(s, m), k) == if KeyLess(k, m) then Best(s, k) else None
    ensures Best(KeysFrom(s, m), k) == if KeyLess(k, m) then None else Best(s, k)
  {
    if s != [] {
      KeysBelowBest(s[1..], m, k);
      BestCons(s[0], KeysBelow(s[1..], m), k);
      BestCons(s[0], KeysFrom(s[1..], m), k);
    }
  }

  lemma {:induction false} KeysBelowMember(s: seq<Entry>, m: Key, e: Entry)
    ensures e in KeysBelow(s, m) <==> e in s && KeyLess(e.key, m)
    ensures e in KeysFrom(s, m) <==> e in s && !KeyLess(e.key, m)
  {
    if s != [] {
      KeysBelowMember(s[1..], m, e);
      assert s == [s[0]] + s[1..];
    }
  }

  lemma HalfOk(id: NodeId, level: nat, buffer: seq<Entry>, ks: seq<Tree>)
    requires GoodKids(ks, level - 1) && 0 < |ks| <= MAX_FANOUT && level > 0
    ensures var t := Half(id, level, buffer, ks);
            t.node.childIds == KidIds(ks) && t.node.level == level && t.node.id == id
            && t.node.buffer == SortBuffer(buffer) && StrictKeys(t.node.buffer)
            && MinOk(t.node.minKey, E(t))
            && E(t) == t.node.buffer + EKids(ks)
            && (MIN_FANOUT <= |ks| ==> Good(t))
            && (2 <= |ks| ==> RootOk(t))
  {
    SortBufferFacts(buffer);
    SpanMin(ks, level - 1);
    MinOkFlush(Span(Create(id, level, buffer, KidIds(ks)), ks), EKids(ks));
  }

  lemma GoodSlice(ks: seq<Tree>, level: int, i: nat, j: nat)
    requires GoodKids(ks, level) && i <= j <= |ks|
    ensures GoodKids(ks[i..j], level)
  {
    var ls := ks[i..j];
    forall b | 0 < b < |ls|
      ensures AtLeast(E(ls[b]), ls[b].node.minKey)
      ensures forall a :: 0 <= a < b ==> Below(E(ls[a]), ls[b].node.minKey)
    {
      assert ls[b] == ks[i + b];
      forall a | 0 <= a < b ensures Below(E(ls[a]), ls[b].node.minKey) {
        assert ls[a] == ks[i + a];
      }
    }
  }

  /** At an inner fence, everything left is below and everything right is not. */
  lemma KidsAtFence(ks: seq<Tree>, level: int, h: nat)
    requires GoodKids(ks, level) && 0 < h < |ks|
    ensures Below(EKids(ks[..h]), ks[h].node.minKey)
    ensures AtLeast(EKids(ks[h..]), ks[h].node.minKey)
  {
    KeyOrder();
    var m := ks[h].node.minKey;
    forall e | e in EKids(ks[..h]) ensures KeyLess(e.key, m) {
      EKidsMember(ks[..h], e);
      var i :| 0 <= i < h && e in E(ks[..h][i]);
      assert Below(E(ks[i]), m);
    }
    forall e | e in EKids(ks[h..]) ensures !KeyLess(e.key, m) {
      EKidsMember(ks[h..], e);
      var i :| 0 <= i < |ks| - h && e in E(ks[h..][i]);
      assert e in E(ks[h + i]) && AtLeast(E(ks[h + i]), ks[h + i].node.minKey);
      if i > 0 {
        assert Below(E(ks[h]), ks[h + i].node.minKey) && Good(ks[h]);
      }
    }
  }

  lemma HalvesView(buffer: seq<Entry>, ks: seq<Tree>, level: int, h: nat, a: seq<Entry>, b: seq<Entry>)
    requires GoodKids(ks, level) && 0 < h < |ks|
    requires SameView(a, KeysBelow(buffer, ks[h].node.minKey)) && SameView(b, KeysFrom(buffer, ks[h].node.minKey))
    ensures SameView(a + EKids(ks[..h]) + (b + EKids(ks[h..])), buffer + EKids(ks))
  {
    var m := ks[h].node.minKey;
    var x, y := EKids(ks[..h]), EKids(ks[h..]);
    assert ks == ks[..h] + ks[h..];
    EKidsAppend(ks[..h], ks[h..]);
    KidsAtFence(ks, level, h);
    forall k ensures Best(a + x + (b + y), k) == Best(buffer + EKids(ks), k) {
      BestAppend(a + x, b + y, k);
      BestAppend(a, x, k);
      BestAppend(b, y, k);
      BestAppend(buffer, x + y, k);
      BestAppend(x, y, k);
      KeysBelowBest(buffer, m, k);
      BestIsNewest(x, k);
      BestIsNewest(y, k);
    }
  }

  /** Two good nodes over the two runs of children, with the buffer divided at the fence between them. */
  lemma SidesSplit(buffer: seq<Entry>, ks: seq<Tree>, level: int, h: nat, l: Tree, r: Tree)
    requires GoodKids(ks, level) && 0 < h < |ks|
    requires Good(l) && Good(r) && l.kids == ks[..h] && r.kids == ks[h..]
    requires Compacts(l.node.buffer, KeysBelow(buffer, ks[h].node.minKey))
    requires Compacts(r.node.buffer, KeysFrom(buffer, ks[h].node.minKey))
    ensures Below(E(l), r.node.minKey) && AtLeast(E(r), r.node.minKey)
    ensures Compacts(E(l) + E(r), buffer + EKids(ks))
  {
    hide KeysBelow;
    hide KeysFrom;
    hide Best;
    var m := ks[h].node.minKey;
    KidsAtFence(ks, level, h);
    SidesBelow(buffer, m, l, r, EKids(ks[..h]), EKids(ks[h..]));
    assert Good(ks[0]) && Below(E(ks[0]), m);
    GoodSlice(ks, level, h, |ks|);
    assert ks[h..|ks|] == ks[h..];
    RightMinIsFence(r, m, ks[h..], level);
    HalvesView(buffer, ks, level, h, l.node.buffer, r.node.buffer);
    assert ks == ks[..h] + ks[h..];
    EKidsAppend(ks[..h], ks[h..]);
  }

  lemma SidesBelow(buffer: seq<Entry>, m: Key, l: Tree, r: Tree, x: seq<Entry>, y: seq<Entry>)
    requires E(l) == l.node.buffer + x && E(r) == r.node.buffer + y
    requires Within(l.node.buffer, KeysBelow(buffer, m)) && Within(r.node.buffer, KeysFrom(buffer, m))
    requires Below(x, m) && AtLeast(y, m)
    ensures Below(E(l), m) && AtLeast(E(r), m)
    ensures Within(E(l) + E(r), buffer + (x + y))
  {
    forall e | e in E(l) ensures KeyLess(e.key, m) && e in buffer + (x + y) {
      KeysBelowMember(buffer, m, e);
    }
    forall e | e in E(r) ensures !KeyLess(e.key, m) && e in buffer + (x + y) {
      KeysBelowMember(buffer, m, e);
    }
  }

  lemma RightMinIsFence(r: Tree, m: Key, ks: seq<Tree>, level: int)
    requires Good(r) && r.kids == ks && ks != [] && GoodKids(ks, level) && ks[0].node.minKey == m
    requires AtLeast(E(r), m) && m != []
    ensures r.node.minKey == m
  {
    KeyOrder();
    SpanMin(ks, level);
    NoEmptyKey(E(r), m);
    var e :| e in EKids(ks) && e.key == m;
    assert e in E(r);
  }

  /** A full parent's two halves stand for it exactly as two leaf halves stand for the leaf. */
  lemma ParentSplitOk(p: Tree, i: nat, l: Tree, r: Tree, next: NodeId)
    requires GoodKids(p.kids, p.node.level - 1) && p.node.level > 0
    requires i < |p.kids| == MAX_FANOUT && SplitOf(p.kids[i], l, r)
    ensures SplitOf(p, LeftHalf(p, i, l, r, next), RightHalf(p, i, l, r, next))
  {
    var ks := Two(p.kids, i, l, r);
    KidSplit(p.kids, p.node.level - 1, i, l, r);
    HalvesSplit(p, ks, next);
  }

  lemma HalvesSplit(p: Tree, ks: seq<Tree>, next: NodeId)
    requires p.node.level > 0 && GoodKids(ks, p.node.level - 1) && |ks| == MAX_FANOUT + 1
    requires Compacts(EKids(ks), EKids(p.kids))
    ensures SplitOf(p, LeftOf(p.node, ks, next), RightOf(p.node, ks, next))
  {
    hide LeftOf;
    hide RightOf;
    hide Good;
    hide GoodKids;
    hide Compacts;
    hide KeysBelow;
    hide KeysFrom;
    hide Below;
    hide AtLeast;
    var l, r := LeftOf(p.node, ks, next), RightOf(p.node, ks, next);
    LeftGood(p.node, ks, next);
    RightGood(p.node, ks, next);
    SidesSplit(p.node.buffer, ks, p.node.level - 1, |ks| / 2, l, r);
    CompactsTrans(p, ks, E(l) + E(r));
  }

  lemma CompactsTrans(p: Tree, ks: seq<Tree>, s: seq<Entry>)
    requires Compacts(s, p.node.buffer + EKids(ks)) && Compacts(EKids(ks), EKids(p.kids))
    ensures Compacts(s, E(p))
  {
    SameViewAppend(p.node.buffer, p.node.buffer, EKids(ks), EKids(p.kids));
  }

  lemma LeftGood(n: SSTNode, ks: seq<Tree>, next: NodeId)
    requires n.level > 0 && GoodKids(ks, n.level - 1) && |ks| == MAX_FANOUT + 1
    ensures var l := LeftOf(n, ks, next);
            Good(l) && l.kids == ks[..|ks| / 2] && l.node.level == n.level
            && Compacts(l.node.buffer, KeysBelow(n.buffer, ks[|ks| / 2].node.minKey))
  {
    var h := |ks| / 2;
    GoodSlice(ks, n.level - 1, 0, h);
    assert ks[0..h] == ks[..h];
    HalfOk(next, n.level, KeysBelow(n.buffer, ks[h].node.minKey), ks[..h]);
    SortBufferFacts(KeysBelow(n.buffer, ks[h].node.minKey));
  }

  lemma RightGood(n: SSTNode, ks: seq<Tree>, next: NodeId)
    requires n.level > 0 && GoodKids(ks, n.level - 1) && |ks| == MAX_FANOUT + 1
    ensures var r := RightOf(n, ks, next);
            Good(r) && r.kids == ks[|ks| / 2..] && r.node.level == n.level
            && Compacts(r.node.buffer, KeysFrom(n.buffer, ks[|ks| / 2].node.minKey))
  {
    var h := |ks| / 2;
    GoodSlice(ks, n.level - 1, h, |ks|);
    assert ks[h..|ks|] == ks[h..];
    HalfOk(next + 1, n.level, KeysFrom(n.buffer, ks[h].node.minKey), ks[h..]);
    SortBufferFacts(KeysFrom(n.buffer, ks[h].node.minKey));
  }

  lemma NewRootOk(was: Tree, l: Tree, r: Tree, next: NodeId)
    requires SplitOf(was, l, r)
    ensures RootOk(NewRoot(l, r, next)) && Compacts(E(NewRoot(l, r, next)), E(was))
    ensures NewRoot(l, r, next).node.level == was.node.level + 1
  {
    PairGood(l, r);
    SortBufferOfStrict([]);
    HalfOk(next, l.node.level + 1, [], [l, r]);
    assert [] + EKids([l, r]) == EKids([l, r]);
  }

  lemma PairGood(l: Tree, r: Tree)
    requires Good(l) && Good(r) && l.node.level == r.node.level
    requires Below(E(l), r.node.minKey) && AtLeast(E(r), r.node.minKey)
    ensures GoodKids([l, r], l.node.level)
    ensures EKids([l, r]) == E(l) + E(r)
  {
    EKidsOne(l);
    EKidsOne(r);
    EKidsAppend([l], [r]);
    assert [l] + [r] == [l, r];
  }

  lemma AdoptStep(t: Tree, p: Path, l: Tree, r: Tree)
    requires RootOk(t) && p != [] && ValidPath(t, p) && SplitOf(Sub(t, p), l, r)
    requires ValidPath(t, Parent(p)) && Last(p) < |Sub(t, Parent(p)).kids| < MAX_FANOUT
    requires Sub(t, Parent(p)).kids[Last(p)] == Sub(t, p)
    ensures var u := Update(t, Parent(p), Adopt(Sub(t, Parent(p)), Last(p), l, r));
            RootOk(u) && Compacts(E(u), E(t)) && u.node.level == t.node.level
  {
    var q, i := Sub(t, Parent(p)), Last(p);
    if Parent(p) != [] { SubGood(t, Parent(p)); }
    AdoptOk(q, i, l, r);
    AdoptGood(q, i, l, r);
    UpdateRoot(t, Parent(p), Adopt(q, i, l, r));
  }

  /**
   * The upward cascade: whether the parent shifts its children, splits, or the tree grows a new
   * root, the result is a well-formed tree with the same newest version of every key.
   */
  lemma {:induction false} InsertAtFacts(t: Tree, p: Path, l: Tree, r: Tree, next: NodeId)
    requires RootOk(t) && ValidPath(t, p) && SplitOf(Sub(t, p), l, r)
    ensures RootOk(InsertAt(t, p, l, r, next).0)
    ensures Compacts(E(InsertAt(t, p, l, r, next).0), E(t))
    ensures t.node.level <= InsertAt(t, p, l, r, next).0.node.level <= t.node.level + 1
    decreases |p|
  {
    if p == [] {
      NewRootOk(t, l, r, next);
    } else {
      ParentPath(t, p);
      var q, i := Sub(t, Parent(p)), Last(p);
      if Parent(p) != [] { SubGood(t, Parent(p)); }
      assert q.node.level > 0;
      if |q.kids| < MAX_FANOUT {
        AdoptStep(t, p, l, r);
      } else {
        ParentSplitOk(q, i, l, r, next);
        InsertAtFacts(t, Parent(p), LeftHalf(q, i, l, r, next), RightHalf(q, i, l, r, next), next + 2);
      }
    }
  }

  // ----- version order -----

  lemma VersionsBelow(n: SSTNode, ks: seq<Tree>, p: Tree)
    requires VersionOrder(p) && Within(n.buffer, p.node.buffer) && Within(EKids(ks), EKids(p.kids))
    requires AllOrdered(ks)
    ensures VersionOrder(Tree(n, ks))
  {
  }

  lemma TwoVersions(p: Tree, i: nat, l: Tree, r: Tree)
    requires VersionOrder(p) && i < |p.kids| && VersionOrder(l) && VersionOrder(r)
    ensures AllOrdered(Two(p.kids, i, l, r))
  {
    var ks := Two(p.kids, i, l, r);
    forall j | 0 <= j < |ks| ensures VersionOrder(ks[j]) {
      assert ks[j] == if j < i then p.kids[j] else if j == i then l else if j == i + 1 then r else p.kids[j - 1];
    }
  }

  lemma HalfVersions(p: Tree, id: NodeId, buffer: seq<Entry>, ks: seq<Tree>)
    requires Above(p.node.buffer, EKids(p.kids))
    requires ks != [] && Within(buffer, p.node.buffer) && Within(EKids(ks), EKids(p.kids))
    requires AllOrdered(ks)
    ensures VersionOrder(Half(id, p.node.level, buffer, ks))
  {
    SortBufferFacts(buffer);
    SortBufferOfStrict(SortBuffer(buffer));
  }

  ghost predicate AllOrdered(ks: seq<Tree>) {
    forall i :: 0 <= i < |ks| ==> VersionOrder(ks[i])
  }

  lemma HalvesVersions(p: Tree, ks: seq<Tree>, next: NodeId)
    requires Above(p.node.buffer, EKids(p.kids))
    requires |ks| >= 2 && Within(EKids(ks), EKids(p.kids))
    requires AllOrdered(ks)
    ensures VersionOrder(LeftOf(p.node, ks, next)) && VersionOrder(RightOf(p.node, ks, next))
  {
    hide Half;
    hide KeysBelow;
    hide KeysFrom;
    hide VersionOrder;
    hide Above;
    hide EKids;
    var h, m := |ks| / 2, ks[|ks| / 2].node.minKey;
    KidsWithin(ks, h);
    DividedWithin(p.node.buffer, m);
    assert AllOrdered(ks[..h]) && AllOrdered(ks[h..]);
    HalfVersions(p, next, KeysBelow(p.node.buffer, m), ks[..h]);
    HalfVersions(p, next + 1, KeysFrom(p.node.buffer, m), ks[h..]);
  }

  lemma KidsWithin(ks: seq<Tree>, h: nat)
    requires h <= |ks|
    ensures Within(EKids(ks[..h]), EKids(ks)) && Within(EKids(ks[h..]), EKids(ks))
  {
    assert ks == ks[..h] + ks[h..];
    EKidsAppend(ks[..h], ks[h..]);
  }

  lemma DividedWithin(s: seq<Entry>, m: Key)
    ensures Within(KeysBelow(s, m), s) && Within(KeysFrom(s, m), s)
  {
    forall e | e in KeysBelow(s, m) ensures e in s { KeysBelowMember(s, m, e); }
    forall e | e in KeysFrom(s, m) ensures e in s { KeysBelowMember(s, m, e); }
  }

  lemma HalfWithin(p: Tree, id: NodeId, buffer: seq<Entry>, ks: seq<Tree>)
    requires ks != [] && Within(buffer, p.node.buffer) && Within(EKids(ks), EKids(p.kids))
    ensures Within(E(Half(id, p.node.level, buffer, ks)), E(p))
  {
    SortBufferFacts(buffer);
    SortBufferOfStrict(SortBuffer(buffer));
  }

  lemma {:induction false} SubVersions(t: Tree, p: Path)
    requires VersionOrder(t) && ValidPath(t, p)
    ensures VersionOrder(Sub(t, p))
  {
    if p != [] {
      SubVersions(t.kids[p[0]], p[1..]);
    }
  }

  lemma {:induction false} InsertAtVersions(t: Tree, p: Path, l: Tree, r: Tree, next: NodeId)
    requires VersionOrder(t) && ValidPath(t, p) && VersionOrder(l) && VersionOrder(r)
    requires Within(E(l) + E(r), E(Sub(t, p)))
    ensures VersionOrder(InsertAt(t, p, l, r, next).0)
    decreases |p|
  {
    if p == [] {
      SortBufferOfStrict([]);
    } else {
      ParentPath(t, p);
      SubVersions(t, Parent(p));
      TwoWithin(Sub(t, Parent(p)), Last(p), l, r);
      TwoVersions(Sub(t, Parent(p)), Last(p), l, r);
      if |Sub(t, Parent(p)).kids| < MAX_FANOUT {
        AdoptVersions(t, p, l, r);
      } else {
        CascadeVersions(t, p, l, r, next);
      }
    }
  }

  lemma CascadeVersions(t: Tree, p: Path, l: Tree, r: Tree, next: NodeId)
    requires VersionOrder(t) && p != [] && ValidPath(t, Parent(p)) && Last(p) < |Sub(t, Parent(p)).kids|
    requires VersionOrder(Sub(t, Parent(p)))
    requires AllOrdered(Two(Sub(t, Parent(p)).kids, Last(p), l, r))
    requires Within(EKids(Two(Sub(t, Parent(p)).kids, Last(p), l, r)), EKids(Sub(t, Parent(p)).kids))
    ensures var q, i := Sub(t, Parent(p)), Last(p);
            VersionOrder(InsertAt(t, Parent(p), LeftHalf(q, i, l, r, next), RightHalf(q, i, l, r, next), next + 2).0)
    decreases |p|, 0
  {
    var q, i := Sub(t, Parent(p)), Last(p);
    var ks := Two(q.kids, i, l, r);
    HalvesVersions(q, ks, next);
    HalvesWithin(q, ks, next);
    InsertAtVersions(t, Parent(p), LeftHalf(q, i, l, r, next), RightHalf(q, i, l, r, next), next + 2);
  }

  lemma TwoWithin(p: Tree, i: nat, l: Tree, r: Tree)
    requires i < |p.kids| && Within(E(l) + E(r), E(p.kids[i]))
    ensures Within(EKids(Two(p.kids, i, l, r)), EKids(p.kids))
  {
    EKidsAt(p.kids, i);
    EKidsTwo(p.kids, i, l, r);
  }

  lemma HalvesWithin(p: Tree, ks: seq<Tree>, next: NodeId)
    requires |ks| >= 2 && Within(EKids(ks), EKids(p.kids))
    ensures Within(E(LeftOf(p.node, ks, next)) + E(RightOf(p.node, ks, next)), E(p))
  {
    var h, m := |ks| / 2, ks[|ks| / 2].node.minKey;
    KidsWithin(ks, h);
    DividedWithin(p.node.buffer, m);
    HalfWithin(p, next, KeysBelow(p.node.buffer, m), ks[..h]);
    HalfWithin(p, next + 1, KeysFrom(p.node.buffer, m), ks[h..]);
  }

  lemma AdoptVersions(t: Tree, p: Path, l: Tree, r: Tree)
    requires p != [] && VersionOrder(t) && ValidPath(t, Parent(p)) && Last(p) < |Sub(t, Parent(p)).kids|
    requires VersionOrder(Sub(t, Parent(p)))
    requires AllOrdered(Two(Sub(t, Parent(p)).kids, Last(p), l, r))
    requires Within(EKids(Two(Sub(t, Parent(p)).kids, Last(p), l, r)), EKids(Sub(t, Parent(p)).kids))
    ensures VersionOrder(Update(t, Parent(p), Adopt(Sub(t, Parent(p)), Last(p), l, r)))
  {
    var q, i := Sub(t, Parent(p)), Last(p);
    var a := Adopt(q, i, l, r);
    SortBufferFacts(q.node.buffer);
    VersionsBelow(a.node, a.kids, q);
    UpdateVersions(t, Parent(p), a);
  }

  // ----- when a split keeps the meaning -----

  /**
   * A root leaf may hold several versions of a key when it is split.  Every read is still right
   * after the split if and only if no key straddles the cut.
   */
  lemma RootSplitExact(leaf: Tree, next: NodeId)
    requires leaf.kids == [] && leaf.node.level == 0
    requires var s := StableSort(leaf.node.buffer);
             |s| >= 2 && forall i, j :: 0 <= i < j < |s| ==> EntryLess(s[i], s[j])
    ensures (forall k :: Lookup(NewRoot(LeftLeaf(leaf, next), RightLeaf(leaf, next), next + 2), k) == Best(leaf.node.buffer, k))
            <==> CleanCut(StableSort(leaf.node.buffer))
  {
    var s := StableSort(leaf.node.buffer);
    var l, r := LeftLeaf(leaf, next), RightLeaf(leaf, next);
    var t := NewRoot(l, r, next + 2);
    if CleanCut(s) {
      forall k ensures Lookup(t, k) == Best(leaf.node.buffer, k) { CleanAfterSplit(leaf, next, k); }
    } else {
      StaleAfterSplit(leaf, next);
    }
  }

  lemma CleanAfterSplit(leaf: Tree, next: NodeId, k: Key)
    requires leaf.kids == [] && leaf.node.level == 0 && CleanCut(StableSort(leaf.node.buffer))
    ensures Lookup(NewRoot(LeftLeaf(leaf, next), RightLeaf(leaf, next), next + 2), k) == Best(leaf.node.buffer, k)
  {
    hide LeftLeaf;
    hide RightLeaf;
    hide CleanCut;
    hide StableSort;
    var l, r := LeftLeaf(leaf, next), RightLeaf(leaf, next);
    LeafSplitOk(leaf, next);
    NewRootOk(leaf, l, r, next + 2);
    PairVersions(leaf, next);
    hide NewRoot;
    LookupIsBest(NewRoot(l, r, next + 2), k);
    assert E(leaf) == leaf.node.buffer;
  }

  lemma PairVersions(leaf: Tree, next: NodeId)
    ensures VersionOrder(NewRoot(LeftLeaf(leaf, next), RightLeaf(leaf, next), next + 2))
  {
    SortBufferOfStrict([]);
    hide SortBuffer;
    hide StableSort;
  }

  /** A straddling key reads as the newest version in the right half: an older one. */
  lemma StaleAfterSplit(leaf: Tree, next: NodeId)
    requires leaf.kids == [] && leaf.node.level == 0
    requires var s := StableSort(leaf.node.buffer);
             |s| >= 2 && !CleanCut(s) && EntryLess(s[|s| / 2 - 1], s[|s| / 2])
    ensures var s := StableSort(leaf.node.buffer);
            var k := s[|s| / 2].key;
            var t := NewRoot(LeftLeaf(leaf, next), RightLeaf(leaf, next), next + 2);
            Lookup(t, k).Some? && Best(leaf.node.buffer, k).Some?
            && Lookup(t, k).value.seqNo < Best(leaf.node.buffer, k).value.seqNo
  {
    var s := StableSort(leaf.node.buffer);
    var h := |s| / 2;
    var k := s[h].key;
    StableSortFacts(leaf.node.buffer);
    RightLeafWins(leaf, next);
    FirstIsBest(s[h..], 0);
    assert s[h - 1] in s;
    BestIsNewest(s, k);
  }

  lemma RightLeafWins(leaf: Tree, next: NodeId)
    requires |leaf.node.buffer| >= 2
    ensures var s := StableSort(leaf.node.buffer);
            |s| >= 2 && var k := s[|s| / 2].key;
            Lookup(NewRoot(LeftLeaf(leaf, next), RightLeaf(leaf, next), next + 2), k) == Best(s[|s| / 2..], k)
  {
    StableSortFacts(leaf.node.buffer);
    var s := StableSort(leaf.node.buffer);
    var h := |s| / 2;
    var k := s[h].key;
    var l, r := LeftLeaf(leaf, next), RightLeaf(leaf, next);
    var t := NewRoot(l, r, next + 2);
    SortBufferHead(s, h);
    assert s[..h] == s[..h][0..];
    SortBufferHead(s[..h], 0);
    SortBufferOfStrict([]);
    assert !KeyLess(k, s[0].key) by { KeyOrder(); assert !EntryLess(s[h], s[0]); }
    RouteRight(KidMins(t.kids), k);
    SortBufferFacts(s[h..]);
    NodeGetIsBest(r.node.buffer, k);
    assert Lookup(t, k) == Lookup(r, k);
  }

  lemma RouteRight(mins: seq<Key>, k: Key)
    requires |mins| == 2 && !KeyLess(k, mins[0]) && mins[1] == k
    ensures ScanUp(mins, k, 0) == 1
  {
    KeyOrder();
    assert ScanUp(mins, k, 2) == 1;
    assert ScanUp(mins, k, 1) == 1;
  }
}
