/** Clients, the flush thread and flush() as interleaved locked steps: no acknowledged write is lost. */
module Interleaving {
  import opened Types
  import opened Entries
  import opened TreeModel
  import opened TreeFlush
  import opened TreeSplit
  import opened Conservation
  import opened WriteView

  /**
   * `batches` are drained from the write buffer and not merged yet, one per thread that is between
   * its two critical sections; `last` is the newest acknowledged write of every key.
   */
  datatype State = State(buffer: seq<Entry>, batches: seq<seq<Entry>>, tree: Tree, nextSeq: nat, last: Writes)

  /** One critical section. */
  datatype Action =
    | Write(e: Entry)
    | Take
    | Merge(i: nat)
    | Flush(p: Path, next: NodeId)
    | Split(p: Path, next: NodeId)
    | Persist

  ghost predicate Init(s: State) {
    s.buffer == [] && s.batches == [] && s.tree.node.buffer == [] && s.tree.kids == [] && s.last == map[]
  }

  /** Nothing but what the code checks: a split may cut a key in two, a batch may be merged late. */
  ghost predicate Enabled(s: State, a: Action) {
    match a
    case Write(e) => e.seqNo == s.nextSeq
    case Take => true
    case Merge(i) => i < |s.batches|
    case Flush(p, _) => ValidPath(s.tree, p) && Sub(s.tree, p).kids != []
    case Split(p, _) =>
      ValidPath(s.tree, p) && Sub(s.tree, p).kids == [] && Sub(s.tree, p).node.buffer != []
    case Persist => true
  }

  function Do(s: State, a: Action): State
    requires Enabled(s, a)
  {
    match a
    case Write(e) => s.(buffer := InsertEntry(e, s.buffer), nextSeq := s.nextSeq + 1, last := s.last[e.key := e])
    case Take => s.(buffer := [], batches := s.batches + [s.buffer])
    case Merge(i) => s.(batches := s.batches[..i] + s.batches[i + 1..], tree := Drained(s.tree, s.batches[i]))
    case Flush(p, next) => s.(tree := Update(s.tree, p, FlushNode(Sub(s.tree, p), next)))
    case Split(p, next) => s.(tree := SplitAt(s.tree, p, next).0)
    case Persist => s.(tree := Persisted(s.tree))
  }

  // ----- what the tree object does, as actions -----

  /** The action turns the tree `t` into `u`. */
  ghost predicate TreeActs(t: Tree, a: Action, u: Tree) {
    var s := State([], [], t, 0, map[]);
    Enabled(s, a) && Do(s, a).tree == u
  }

  lemma FlushActs(t: Tree, p: Path, next: NodeId)
    requires ValidPath(t, p) && Sub(t, p).kids != []
    ensures TreeActs(t, Flush(p, next), Update(t, p, FlushNode(Sub(t, p), next)))
  {
  }

  lemma SplitActs(t: Tree, p: Path, next: NodeId)
    requires ValidPath(t, p) && Sub(t, p).kids == [] && CleanCut(StableSort(Sub(t, p).node.buffer))
    ensures TreeActs(t, Split(p, next), SplitAt(t, p, next).0)
  {
    StableSortFacts(Sub(t, p).node.buffer);
  }

  lemma PersistActs(t: Tree)
    ensures TreeActs(t, Persist, Persisted(t))
  {
  }

  /** Draining is taking the buffer and, in the same sequential step, merging it. */
  lemma DrainActs(s: State)
    requires s.batches == []
    ensures Enabled(s, Take) && Enabled(Do(s, Take), Merge(0))
    ensures Do(Do(s, Take), Merge(0)) == s.(buffer := [], tree := Drained(s.tree, s.buffer))
  {
  }

  /** Everything held anywhere. */
  function Held(s: State): seq<Entry> {
    s.buffer + Flatten(s.batches) + E(s.tree)
  }

  ghost predicate Safe(s: State) {
    && Loose(s.tree) && Sorted(s.buffer) && Unique(Held(s)) && Before(Held(s), s.nextSeq)
    && forall k :: Best(Held(s), k) == Latest(s.last, k)
  }

  // ----- the newest version does not depend on the order -----

  lemma BestSameMembers(a: seq<Entry>, b: seq<Entry>, k: Key)
    requires Within(a, b) && Within(b, a) && Unique(b)
    ensures Best(a, k) == Best(b, k)
  {
    BestIsNewest(a, k);
    BestIsNewest(b, k);
  }

  lemma SafeShuffle(s: State, t: State)
    requires Safe(s) && Loose(t.tree) && Sorted(t.buffer) && t.nextSeq == s.nextSeq && t.last == s.last
    requires Within(Held(t), Held(s)) && Within(Held(s), Held(t))
    ensures Safe(t)
  {
    hide Loose;
    hide Held;
    forall k ensures Best(Held(t), k) == Best(Held(s), k) { BestSameMembers(Held(t), Held(s), k); }
  }

  lemma {:induction false} FlattenAppend(a: seq<seq<Entry>>, b: seq<seq<Entry>>)
    ensures Flatten(a + b) == Flatten(a) + Flatten(b)
  {
    if a == [] {
      assert a + b == b;
    } else {
      FlattenAppend(a[1..], b);
      assert (a + b)[1..] == a[1..] + b;
      Assoc(a[0], Flatten(a[1..]), Flatten(b));
    }
  }

  lemma FlattenOne(x: seq<Entry>)
    ensures Flatten([x]) == x
  {
    assert Flatten([x]) == x + Flatten([]);
  }

  // ----- the steps -----

  lemma WriteStep(s: State, e: Entry)
    requires Safe(s) && e.seqNo == s.nextSeq
    ensures Safe(Do(s, Write(e)))
  {
    hide Loose;
    var t := Do(s, Write(e));
    InsertEntryBag(e, s.buffer);
    SameElements(t.buffer, [e] + s.buffer);
    InsertEntrySorted(e, s.buffer);
    assert forall f :: f in Held(t) <==> f == e || f in Held(s);
    forall k ensures Best(Held(t), k) == Latest(t.last, k) {
      BestIsNewest(Held(t), k);
      BestIsNewest(Held(s), k);
      assert Best(Held(s), k) == Latest(s.last, k);
    }
  }

  lemma TakeStep(s: State)
    requires Safe(s)
    ensures Safe(Do(s, Take))
  {
    FlattenAppend(s.batches, [s.buffer]);
    FlattenOne(s.buffer);
    SafeShuffle(s, Do(s, Take));
  }

  lemma MergeStep(s: State, i: nat)
    requires Safe(s) && i < |s.batches|
    ensures Safe(Do(s, Merge(i)))
  {
    var t := Do(s, Merge(i));
    StableSortFacts(s.tree.node.buffer + s.batches[i]);
    assert s.batches == s.batches[..i] + ([s.batches[i]] + s.batches[i + 1..]);
    FlattenAppend(s.batches[..i], [s.batches[i]] + s.batches[i + 1..]);
    FlattenAppend([s.batches[i]], s.batches[i + 1..]);
    FlattenAppend(s.batches[..i], s.batches[i + 1..]);
    FlattenOne(s.batches[i]);
    forall e ensures e in E(t.tree) <==> e in s.batches[i] || e in E(s.tree) { DrainWithin(s.tree, s.batches[i], e); }
    SafeShuffle(s, t);
  }

  /** Any rewriting of the tree that keeps its newest versions. */
  lemma TreeStep(s: State, u: Tree)
    requires Safe(s) && Loose(u) && Preserves(E(u), E(s.tree))
    ensures Safe(s.(tree := u))
  {
    hide Loose;
    hide E;
    var t := s.(tree := u);
    var a := s.buffer + Flatten(s.batches);
    PreservesSame(a);
    PreservesParts(a, a, E(u), E(s.tree));
    UniqueWithin(Held(t), Held(s));
    forall k ensures Best(Held(t), k) == Latest(s.last, k) { NewestKept(Held(t), Held(s), k); }
  }

  lemma NewestKept(b: seq<Entry>, a: seq<Entry>, k: Key)
    requires Preserves(b, a) && Unique(a)
    ensures Best(b, k) == Best(a, k)
  {
    BestIsNewest(a, k);
    BestIsNewest(b, k);
    if Best(a, k).Some? {
      var e := Best(a, k).value;
      assert Top(e, a);
    }
  }

  lemma TreeUnique(s: State)
    requires Safe(s)
    ensures Unique(E(s.tree)) && Loose(s.tree)
  {
    hide Loose;
    hide E;
    UniqueWithin(E(s.tree), Held(s));
  }

  lemma StepSafe(s: State, a: Action)
    requires Safe(s) && Enabled(s, a)
    ensures Safe(Do(s, a))
  {
    hide Safe;
    TreeUnique(s);
    match a
    case Write(e) => WriteStep(s, e);
    case Take => TakeStep(s);
    case Merge(i) => MergeStep(s, i);
    case Flush(p, next) =>
      FlushAtPreserves(s.tree, p, next);
      TreeStep(s, Update(s.tree, p, FlushNode(Sub(s.tree, p), next)));
    case Split(p, next) =>
      SplitAtPreserves(s.tree, p, next);
      TreeStep(s, SplitAt(s.tree, p, next).0);
    case Persist =>
      PersistPreserves(s.tree);
      TreeStep(s, Persisted(s.tree));
  }

  lemma PersistPreserves(t: Tree)
    requires Unique(E(t)) && Loose(t)
    ensures Preserves(E(Persisted(t)), E(t)) && Loose(Persisted(t))
  {
    hide SortBuffer;
    UniqueBuffer(t, []);
    SortedPreserves(t.node.buffer);
    SortBufferFacts(t.node.buffer);
    PreservesSame(EKids(t.kids));
    PreservesParts(SortBuffer(t.node.buffer), t.node.buffer, EKids(t.kids), EKids(t.kids));
  }

  // ----- whole runs -----

  ghost predicate Run(ss: seq<State>, acts: seq<Action>) {
    && |ss| == |acts| + 1 && Init(ss[0])
    && forall i :: 0 <= i < |acts| ==> Enabled(ss[i], acts[i]) && ss[i + 1] == Do(ss[i], acts[i])
  }

  lemma InitSafe(s: State)
    requires Init(s)
    ensures Safe(s)
  {
    assert Flatten(s.batches) == [];
    assert EKids(s.tree.kids) == [];
    assert E(s.tree) == [] + [];
    assert Held(s) == [];
  }

  lemma {:induction false} RunSafe(ss: seq<State>, acts: seq<Action>, i: nat)
    requires Run(ss, acts) && i < |ss|
    ensures Safe(ss[i])
  {
    hide Safe;
    hide Enabled;
    hide Do;
    if i == 0 {
      InitSafe(ss[0]);
    } else {
      RunSafe(ss, acts, i - 1);
      StepSafe(ss[i - 1], acts[i - 1]);
      assert ss[i - 1 + 1] == Do(ss[i - 1], acts[i - 1]);
    }
  }

  /**
   * Under every interleaving, at every moment, the newest acknowledged write of every key is in the
   * write buffer, in a drained batch, or in the tree; and nothing older shadows it there by number.
   */
  lemma NothingLost(ss: seq<State>, acts: seq<Action>, i: nat, k: Key)
    requires Run(ss, acts) && i < |ss| && k in ss[i].last
    ensures var e := ss[i].last[k];
            && (e in ss[i].buffer || (exists b :: b in ss[i].batches && e in b) || e in E(ss[i].tree))
            && forall f :: f in Held(ss[i]) && f.key == k ==> f.seqNo <= e.seqNo
  {
    RunSafe(ss, acts, i);
    BestIsNewest(Held(ss[i]), k);
    assert Best(Held(ss[i]), k) == Latest(ss[i].last, k);
    var e := ss[i].last[k];
    if e in Flatten(ss[i].batches) { var b := InBatch(ss[i].batches, e); }
  }

  lemma {:induction false} InBatch(bs: seq<seq<Entry>>, e: Entry) returns (b: seq<Entry>)
    requires e in Flatten(bs)
    ensures b in bs && e in b
  {
    if e in bs[0] { b := bs[0]; } else { b := InBatch(bs[1..], e); }
  }
}
