/** Sequences of entries: the newest version of a key, sorting, merging, routing. */
module Entries {
  import opened Types

  lemma Assoc<T>(a: seq<T>, b: seq<T>, c: seq<T>)
    ensures a + (b + c) == (a + b) + c
  {
  }

  // ----- newest version -----

  /** The newer of two versions; the first wins a tie. */
  function Newer(a: Option<Entry>, b: Option<Entry>): Option<Entry> {
    if a.Some? && (b.None? || a.value.seqNo >= b.value.seqNo) then a else b
  }

  function Hit(e: Entry, k: Key): Option<Entry> {
    if e.key == k then Some(e) else None
  }

  /** The newest version of `k` in `s`, the leftmost one on a tie. */
  function Best(s: seq<Entry>, k: Key): Option<Entry> {
    if s == [] then None else Newer(Hit(s[0], k), Best(s[1..], k))
  }

  ghost predicate SameView(a: seq<Entry>, b: seq<Entry>) {
    forall k :: Best(a, k) == Best(b, k)
  }

  ghost predicate Within(a: seq<Entry>, b: seq<Entry>) {
    forall e :: e in a ==> e in b
  }

  lemma {:induction false} BestAppend(a: seq<Entry>, b: seq<Entry>, k: Key)
    ensures Best(a + b, k) == Newer(Best(a, k), Best(b, k))
  {
    if a == [] {
      assert a + b == b;
    } else {
      BestAppend(a[1..], b, k);
      assert (a + b)[1..] == a[1..] + b;
    }
  }

  lemma BestCons(e: Entry, s: seq<Entry>, k: Key)
    ensures Best([e] + s, k) == Newer(Hit(e, k), Best(s, k))
  {
    assert ([e] + s)[1..] == s;
  }

  /** `Best` is a maximum over the versions of the key, and `None` means there is none. */
  lemma {:induction false} BestIsNewest(s: seq<Entry>, k: Key)
    ensures Best(s, k).None? <==> forall e :: e in s ==> e.key != k
    ensures Best(s, k).Some? ==> Best(s, k).value in s && Best(s, k).value.key == k
    ensures forall e :: e in s && e.key == k ==> Best(s, k).Some? && e.seqNo <= Best(s, k).value.seqNo
  {
    if s != [] {
      BestIsNewest(s[1..], k);
      assert forall e :: e in s <==> e == s[0] || e in s[1..];
    }
  }

  lemma SameViewSameKeys(a: seq<Entry>, b: seq<Entry>, e: Entry) returns (f: Entry)
    requires SameView(a, b) && e in a
    ensures f in b && f.key == e.key
  {
    BestIsNewest(a, e.key);
    BestIsNewest(b, e.key);
    f := Best(b, e.key).value;
  }

  lemma SameViewAppend(a: seq<Entry>, a': seq<Entry>, b: seq<Entry>, b': seq<Entry>)
    requires SameView(a, a') && SameView(b, b')
    ensures SameView(a + b, a' + b')
  {
    forall k ensures Best(a + b, k) == Best(a' + b', k) {
      BestAppend(a, b, k);
      BestAppend(a', b', k);
    }
  }

  // ----- sortedness -----

  ghost predicate Sorted(s: seq<Entry>) {
    forall i, j :: 0 <= i < j < |s| ==> !EntryLess(s[j], s[i])
  }

  ghost predicate StrictKeys(s: seq<Entry>) {
    forall i, j :: 0 <= i < j < |s| ==> KeyLess(s[i].key, s[j].key)
  }

  lemma StrictIsSorted(s: seq<Entry>)
    requires StrictKeys(s)
    ensures Sorted(s)
  {
    KeyOrder();
  }

  function InsertEntry(e: Entry, s: seq<Entry>): seq<Entry> {
    if s == [] || !EntryLess(s[0], e) then [e] + s else [s[0]] + InsertEntry(e, s[1..])
  }

  /** Stable sort by the entry order: equal entries keep their relative order. */
  function StableSort(s: seq<Entry>): seq<Entry> {
    if s == [] then [] else InsertEntry(s[0], StableSort(s[1..]))
  }

  lemma {:induction false} InsertEntryBag(e: Entry, s: seq<Entry>)
    ensures multiset(InsertEntry(e, s)) == multiset([e] + s)
  {
    if s != [] && EntryLess(s[0], e) {
      InsertEntryBag(e, s[1..]);
      assert s == [s[0]] + s[1..];
    }
  }

  lemma {:induction false} InsertEntrySorted(e: Entry, s: seq<Entry>)
    requires Sorted(s)
    ensures Sorted(InsertEntry(e, s))
  {
    EntryOrder();
    if s != [] && EntryLess(s[0], e) {
      InsertEntrySorted(e, s[1..]);
      InsertEntryBag(e, s[1..]);
      var t := InsertEntry(e, s[1..]);
      SameElements(t, [e] + s[1..]);
      forall x | x in t ensures !EntryLess(x, s[0]) {
        if x != e {
          var j :| 0 <= j < |s[1..]| && s[1..][j] == x;
          assert x == s[j + 1];
        }
      }
    }
  }

  lemma {:induction false} InsertEntryBest(e: Entry, s: seq<Entry>, k: Key)
    requires Sorted(s)
    ensures Best(InsertEntry(e, s), k) == Newer(Hit(e, k), Best(s, k))
  {
    if s != [] && EntryLess(s[0], e) {
      InsertEntryBest(e, s[1..], k);
      BestCons(s[0], InsertEntry(e, s[1..]), k);
      HeadIsBest(s, k);
    } else {
      BestCons(e, s, k);
    }
  }

  lemma HeadIsBest(s: seq<Entry>, k: Key)
    requires Sorted(s) && s != []
    ensures Best(s, k) == if s[0].key == k then Some(s[0]) else Best(s[1..], k)
  {
    BestIsNewest(s[1..], k);
    if s[0].key == k && Best(s[1..], k).Some? {
      var j :| 0 <= j < |s[1..]| && s[1..][j] == Best(s[1..], k).value;
      assert !EntryLess(s[j + 1], s[0]);
    }
  }

  lemma {:induction false} StableSortFacts(s: seq<Entry>)
    ensures Sorted(StableSort(s))
    ensures multiset(StableSort(s)) == multiset(s)
    ensures |StableSort(s)| == |s|
    ensures SameView(StableSort(s), s)
    ensures Within(StableSort(s), s) && Within(s, StableSort(s))
  {
    if s != [] {
      StableSortFacts(s[1..]);
      var t := StableSort(s[1..]);
      InsertEntryBag(s[0], t);
      InsertEntrySorted(s[0], t);
      assert s == [s[0]] + s[1..];
      forall k ensures Best(StableSort(s), k) == Best(s, k) {
        InsertEntryBest(s[0], t, k);
      }
    }
    SameElements(StableSort(s), s);
  }

  lemma SameElements(a: seq<Entry>, b: seq<Entry>)
    requires multiset(a) == multiset(b)
    ensures Within(a, b) && Within(b, a) && |a| == |b|
  {
    assert |multiset(a)| == |a| && |multiset(b)| == |b|;
    forall e | e in a ensures e in b { assert e in multiset(a); }
    forall e | e in b ensures e in a { assert e in multiset(b); }
  }

  lemma {:induction false} StableSortOfSorted(s: seq<Entry>)
    requires Sorted(s)
    ensures StableSort(s) == s
  {
    if s != [] {
      StableSortOfSorted(s[1..]);
      assert s == [s[0]] + s[1..];
    }
  }

  /** In a sorted list the first hit is the newest version. */
  lemma {:induction false} FirstIsBest(s: seq<Entry>, i: nat)
    requires Sorted(s) && i < |s|
    requires forall j :: 0 <= j < i ==> s[j].key != s[i].key
    ensures Best(s, s[i].key) == Some(s[i])
  {
    if i == 0 {
      HeadIsBest(s, s[0].key);
    } else {
      FirstIsBest(s[1..], i - 1);
    }
  }

  // ----- point lookup in a node buffer -----

  /** First position not below the probe: what std::lower_bound returns. */
  function LowerBound(s: seq<Entry>, probe: Entry): (i: nat)
    ensures i <= |s|
    ensures forall j :: 0 <= j < i ==> EntryLess(s[j], probe)
    ensures i < |s| ==> !EntryLess(s[i], probe)
  {
    if s == [] || !EntryLess(s[0], probe) then 0 else 1 + LowerBound(s[1..], probe)
  }

  function Probe(k: Key): Entry {
    Entry(k, [], MAX_SEQ, false)
  }

  /** `SSTNode::get`. */
  function NodeGet(s: seq<Entry>, k: Key): Option<Entry> {
    if s == [] then None else
    var i := LowerBound(s, Probe(k));
    if i < |s| && s[i].key == k then Some(s[i]) else None
  }

  lemma NodeGetIsBest(s: seq<Entry>, k: Key)
    requires Sorted(s)
    ensures NodeGet(s, k) == Best(s, k)
  {
    if s != [] {
      var i := LowerBound(s, Probe(k));
      assert forall j :: 0 <= j < i ==> s[j].key != k;
      if i < |s| && s[i].key == k {
        FirstIsBest(s, i);
      } else {
        forall e | e in s ensures e.key != k {
          var j :| 0 <= j < |s| && s[j] == e;
          if j > i {
            KeyOrder();
            assert !EntryLess(s[j], s[i]);
          }
        }
        BestIsNewest(s, k);
      }
    }
  }

  // ----- sort_buffer: stable sort, then keep the first entry of each key -----

  function Dedupe(s: seq<Entry>): seq<Entry> {
    if |s| <= 1 then s else
    var d := Dedupe(s[..|s| - 1]);
    if d != [] && d[|d| - 1].key == s[|s| - 1].key then d else d + [s[|s| - 1]]
  }

  function SortBuffer(s: seq<Entry>): seq<Entry> {
    Dedupe(StableSort(s))
  }

  lemma {:induction false} DedupeFacts(s: seq<Entry>)
    requires Sorted(s)
    ensures StrictKeys(Dedupe(s))
    ensures SameView(Dedupe(s), s)
    ensures Within(Dedupe(s), s)
    ensures s != [] ==> Dedupe(s) != [] && Dedupe(s)[0] == s[0]
    ensures s != [] ==> Dedupe(s)[|Dedupe(s)| - 1].key == s[|s| - 1].key
  {
    if |s| > 1 {
      var p, x := s[..|s| - 1], s[|s| - 1];
      DedupeFacts(p);
      var d := Dedupe(p);
      assert s == p + [x];
      assert !EntryLess(x, p[|p| - 1]);
      if d[|d| - 1].key == x.key {
        DedupeSkips(p, d, x);
      } else {
        DedupeKeeps(p, d, x);
      }
    }
  }

  lemma DedupeSkips(p: seq<Entry>, d: seq<Entry>, x: Entry)
    requires p != [] && SameView(d, p) && p[|p| - 1].key == x.key && !EntryLess(x, p[|p| - 1])
    ensures SameView(d, p + [x])
  {
    forall k ensures Best(d, k) == Best(p + [x], k) { OlderLast(p, x, k); }
  }

  lemma DedupeKeeps(p: seq<Entry>, d: seq<Entry>, x: Entry)
    requires StrictKeys(d) && SameView(d, p) && d != [] && d[|d| - 1].key != x.key && !KeyLess(x.key, d[|d| - 1].key)
    ensures StrictKeys(d + [x]) && SameView(d + [x], p + [x])
  {
    KeyLessTotal(d[|d| - 1].key, x.key);
    StrictPush(d, x);
    SameViewAppend(d, p, [x], [x]);
  }

  /** An older version at the end changes nothing. */
  lemma OlderLast(p: seq<Entry>, x: Entry, k: Key)
    requires p != [] && p[|p| - 1].key == x.key && p[|p| - 1].seqNo >= x.seqNo
    ensures Best(p + [x], k) == Best(p, k)
  {
    BestAppend(p, [x], k);
    BestIsNewest(p, k);
    assert Best([x], k) == Newer(Hit(x, k), Best([], k));
    assert p[|p| - 1] in p;
  }

  lemma StrictPush(d: seq<Entry>, x: Entry)
    requires StrictKeys(d) && d != [] && KeyLess(d[|d| - 1].key, x.key)
    ensures StrictKeys(d + [x])
  {
    forall i | 0 <= i < |d| ensures KeyLess(d[i].key, x.key) {
      if i < |d| - 1 { KeyLessTransitive(d[i].key, d[|d| - 1].key, x.key); }
    }
  }

  lemma {:induction false} DedupeOfStrict(s: seq<Entry>)
    requires StrictKeys(s)
    ensures Dedupe(s) == s
  {
    if |s| > 1 {
      var p := s[..|s| - 1];
      DedupeOfStrict(p);
      KeyLessIrreflexive(s[|s| - 1].key);
      assert s == p + [s[|s| - 1]];
    }
  }

  /** A node buffer after `sort_buffer`: strictly increasing keys, same newest versions. */
  lemma SortBufferFacts(s: seq<Entry>)
    ensures StrictKeys(SortBuffer(s)) && Sorted(SortBuffer(s))
    ensures SameView(SortBuffer(s), s)
    ensures Within(SortBuffer(s), s)
    ensures s != [] ==> SortBuffer(s) != []
  {
    StableSortFacts(s);
    DedupeFacts(StableSort(s));
    StrictIsSorted(SortBuffer(s));
  }

  lemma SortBufferOfStrict(s: seq<Entry>)
    requires StrictKeys(s)
    ensures SortBuffer(s) == s
  {
    StrictIsSorted(s);
    StableSortOfSorted(s);
    DedupeOfStrict(s);
  }

  // ----- two-way merge -----

  function Merge(a: seq<Entry>, b: seq<Entry>): seq<Entry>
    decreases |a| + |b|
  {
    if a == [] then b
    else if b == [] then a
    else if KeyLess(a[0].key, b[0].key) then [a[0]] + Merge(a[1..], b)
    else if KeyLess(b[0].key, a[0].key) then [b[0]] + Merge(a, b[1..])
    else if a[0].seqNo >= b[0].seqNo then [a[0]] + Merge(a[1..], b[1..])
    else [b[0]] + Merge(a[1..], b[1..])
  }

  /** The merge keeps, per key, the newest version of both sides, for any sorted inputs. */
  lemma {:induction false} MergeBest(a: seq<Entry>, b: seq<Entry>, k: Key)
    requires Sorted(a) && Sorted(b)
    ensures Best(Merge(a, b), k) == Newer(Best(a, k), Best(b, k))
    decreases |a| + |b|
  {
    if a != [] && b != [] {
      KeyLessTotal(a[0].key, b[0].key);
      HeadIsBest(a, k);
      HeadIsBest(b, k);
      if KeyLess(a[0].key, b[0].key) {
        MergeBest(a[1..], b, k);
        BestCons(a[0], Merge(a[1..], b), k);
      } else if KeyLess(b[0].key, a[0].key) {
        MergeBest(a, b[1..], k);
        BestCons(b[0], Merge(a, b[1..]), k);
        if k == b[0].key { AbsentBelow(a, k); }
      } else {
        MergeBest(a[1..], b[1..], k);
        BestCons(a[0], Merge(a[1..], b[1..]), k);
        BestCons(b[0], Merge(a[1..], b[1..]), k);
        BestIsNewest(a, k);
        BestIsNewest(b, k);
        BestTail(a, k);
        BestTail(b, k);
      }
    }
  }

  lemma AbsentBelow(s: seq<Entry>, k: Key)
    requires Sorted(s) && s != [] && KeyLess(k, s[0].key)
    ensures Best(s, k) == None
  {
    KeyOrder();
    forall e | e in s ensures e.key != k {
      var j :| 0 <= j < |s| && s[j] == e;
      assert j > 0 ==> !EntryLess(s[j], s[0]);
    }
    BestIsNewest(s, k);
  }

  lemma BestTail(s: seq<Entry>, k: Key)
    requires s != []
    ensures Best(s[1..], k).Some? ==> Best(s, k).Some? && Best(s[1..], k).value.seqNo <= Best(s, k).value.seqNo
  {
  }

  lemma {:induction false} MergeWithin(a: seq<Entry>, b: seq<Entry>)
    ensures Within(Merge(a, b), a + b)
    ensures a != [] ==> Merge(a, b) != []
    decreases |a| + |b|
  {
    if a != [] && b != [] {
      if KeyLess(a[0].key, b[0].key) {
        MergeWithin(a[1..], b);
      } else if KeyLess(b[0].key, a[0].key) {
        MergeWithin(a, b[1..]);
      } else {
        MergeWithin(a[1..], b[1..]);
      }
    }
  }

  // ----- routing by the children's cached minimum keys -----

  ghost predicate Increasing(mins: seq<Key>) {
    forall i, j :: 0 <= i < j < |mins| ==> KeyLess(mins[i], mins[j])
  }

  /** `find_path`: scan left to right, stop at the first child whose minimum is above the key. */
  function ScanUp(mins: seq<Key>, k: Key, i: nat): nat
    requires i <= |mins|
    decreases |mins| - i
  {
    if i < |mins| && !KeyLess(k, mins[i]) then ScanUp(mins, k, i + 1)
    else if i == 0 then 0 else i - 1
  }

  /** `partition_entries`: scan right to left for the first child whose minimum is not above the key. */
  function ScanDown(mins: seq<Key>, k: Key, n: nat): nat
    requires n <= |mins|
  {
    if n == 0 then 0
    else if !KeyLess(k, mins[n - 1]) then n - 1
    else ScanDown(mins, k, n - 1)
  }

  function Route(mins: seq<Key>, k: Key): nat {
    ScanDown(mins, k, |mins|)
  }

  /** Child `r` is the one whose half-open range holds the key; the first range has no lower end. */
  ghost predicate Covers(mins: seq<Key>, k: Key, r: nat) {
    && r < |mins|
    && (r == 0 || !KeyLess(k, mins[r]))
    && forall j :: r < j < |mins| ==> KeyLess(k, mins[j])
  }

  lemma {:induction false} ScanDownCovers(mins: seq<Key>, k: Key, n: nat)
    requires n <= |mins| && mins != []
    requires forall j :: n <= j < |mins| ==> KeyLess(k, mins[j])
    ensures Covers(mins, k, ScanDown(mins, k, n))
  {
    if n != 0 && KeyLess(k, mins[n - 1]) {
      ScanDownCovers(mins, k, n - 1);
    }
  }

  lemma {:induction false} ScanUpCovers(mins: seq<Key>, k: Key, i: nat)
    requires i <= |mins| && mins != [] && Increasing(mins)
    requires forall j :: 0 <= j < i ==> !KeyLess(k, mins[j])
    ensures Covers(mins, k, ScanUp(mins, k, i))
    decreases |mins| - i
  {
    if i < |mins| && !KeyLess(k, mins[i]) {
      ScanUpCovers(mins, k, i + 1);
    } else {
      KeyOrder();
    }
  }

  lemma CoversUnique(mins: seq<Key>, k: Key, r: nat, s: nat)
    requires Covers(mins, k, r) && Covers(mins, k, s)
    ensures r == s
  {
  }

  /** The reader's scan and the flush's scan choose the same child. */
  lemma RoutersAgree(mins: seq<Key>, k: Key)
    requires mins != [] && Increasing(mins)
    ensures ScanUp(mins, k, 0) == Route(mins, k)
    ensures Covers(mins, k, Route(mins, k))
  {
    ScanDownCovers(mins, k, |mins|);
    ScanUpCovers(mins, k, 0);
    CoversUnique(mins, k, Route(mins, k), ScanUp(mins, k, 0));
  }

  /** Without strictly increasing minimum keys the two scans can part. */
  lemma RoutersDisagree()
    ensures ScanUp([[2], [1]], [1], 0) != Route([[2], [1]], [1])
  {
    assert Route([[2], [1]], [1]) == 1;
  }

  // ----- partitioning -----

  /** Bucket `i`: the entries routed to child `i`, in their original order. */
  function Bucket(s: seq<Entry>, mins: seq<Key>, i: nat): seq<Entry> {
    if s == [] then []
    else if Route(mins, s[0].key) == i then [s[0]] + Bucket(s[1..], mins, i)
    else Bucket(s[1..], mins, i)
  }

  lemma {:induction false} BucketAppend(s: seq<Entry>, t: seq<Entry>, mins: seq<Key>, i: nat)
    ensures Bucket(s + t, mins, i) == Bucket(s, mins, i) + Bucket(t, mins, i)
  {
    if s == [] {
      assert s + t == t;
    } else {
      hide Route;
      BucketAppend(s[1..], t, mins, i);
      assert (s + t)[1..] == s[1..] + t;
      Assoc([s[0]], Bucket(s[1..], mins, i), Bucket(t, mins, i));
    }
  }

  lemma {:induction false} BucketMember(s: seq<Entry>, mins: seq<Key>, i: nat, e: Entry)
    ensures e in Bucket(s, mins, i) <==> e in s && Route(mins, e.key) == i
  {
    if s != [] {
      BucketMember(s[1..], mins, i, e);
      assert s == [s[0]] + s[1..];
    }
  }

  lemma {:induction false} BucketSorted(s: seq<Entry>, mins: seq<Key>, i: nat)
    requires Sorted(s)
    ensures Sorted(Bucket(s, mins, i))
  {
    if s != [] {
      BucketSorted(s[1..], mins, i);
      var t := Bucket(s[1..], mins, i);
      forall x | x in t ensures !EntryLess(x, s[0]) {
        BucketMember(s[1..], mins, i, x);
        var j :| 0 <= j < |s[1..]| && s[1..][j] == x;
        assert x == s[j + 1];
      }
    }
  }

  lemma {:induction false} BucketBest(s: seq<Entry>, mins: seq<Key>, i: nat, k: Key)
    ensures Best(Bucket(s, mins, i), k) == if Route(mins, k) == i then Best(s, k) else None
  {
    if s != [] {
      BucketBest(s[1..], mins, i, k);
      BestCons(s[0], Bucket(s[1..], mins, i), k);
    }
  }

  function Flatten(ss: seq<seq<Entry>>): seq<Entry> {
    if ss == [] then [] else ss[0] + Flatten(ss[1..])
  }

  function BucketsFrom(s: seq<Entry>, mins: seq<Key>, i: nat): (r: seq<seq<Entry>>)
    requires i <= |mins|
    ensures |r| == |mins| - i
    ensures forall j :: 0 <= j < |r| ==> r[j] == Bucket(s, mins, i + j)
    decreases |mins| - i
  {
    if i == |mins| then [] else [Bucket(s, mins, i)] + BucketsFrom(s, mins, i + 1)
  }

  lemma {:induction false} RouteMonotone(mins: seq<Key>, a: Key, b: Key)
    requires mins != [] && Increasing(mins)
    requires !KeyLess(b, a)
    ensures Route(mins, a) <= Route(mins, b)
  {
    RoutersAgree(mins, a);
    RoutersAgree(mins, b);
    KeyOrder();
  }

  lemma {:induction false} BucketOfUpper(s: seq<Entry>, mins: seq<Key>, i: nat)
    requires forall e :: e in s ==> Route(mins, e.key) > i
    ensures Bucket(s, mins, i) == []
  {
    if s != [] {
      assert s[0] in s;
      BucketOfUpper(s[1..], mins, i);
    }
  }

  lemma BucketsOfTail(s: seq<Entry>, mins: seq<Key>, i: nat)
    requires s != [] && Route(mins, s[0].key) < i <= |mins|
    ensures BucketsFrom(s, mins, i) == BucketsFrom(s[1..], mins, i)
  {
  }

  lemma {:induction false} BucketsConcat(s: seq<Entry>, mins: seq<Key>, i: nat)
    requires Sorted(s) && mins != [] && Increasing(mins) && i <= |mins|
    requires s != [] ==> Route(mins, s[0].key) >= i
    ensures Flatten(BucketsFrom(s, mins, i)) == s
    decreases |s|, |mins| - i
  {
    hide Route;
    hide Bucket;
    hide Sorted;
    hide Increasing;
    if i == |mins| {
      if s != [] { RouteInside(mins, s[0].key); }
    } else if s == [] || Route(mins, s[0].key) > i {
      forall e | e in s ensures Route(mins, e.key) > i {
        HeadRoutesLowest(s, mins, e);
      }
      BucketOfUpper(s, mins, i);
      BucketsConcat(s, mins, i + 1);
    } else {
      if |s| > 1 { HeadRoutesLowest(s, mins, s[1]); }
      SortedTail(s);
      BucketsConcat(s[1..], mins, i);
      BucketsOfHead(s, mins, i);
    }
  }

  lemma RouteInside(mins: seq<Key>, k: Key)
    requires mins != []
    ensures Route(mins, k) < |mins|
  {
    ScanDownCovers(mins, k, |mins|);
  }

  lemma SortedTail(s: seq<Entry>)
    requires Sorted(s) && s != []
    ensures Sorted(s[1..])
  {
  }

  /** The first entry heads the first bucket. */
  lemma BucketsOfHead(s: seq<Entry>, mins: seq<Key>, i: nat)
    requires s != [] && Route(mins, s[0].key) == i < |mins| && Flatten(BucketsFrom(s[1..], mins, i)) == s[1..]
    ensures Flatten(BucketsFrom(s, mins, i)) == s
  {
    hide Route;
    BucketsOfTail(s, mins, i + 1);
    var rest := Flatten(BucketsFrom(s[1..], mins, i + 1));
    assert Flatten(BucketsFrom(s[1..], mins, i)) == Bucket(s[1..], mins, i) + rest;
    assert Flatten(BucketsFrom(s, mins, i)) == Bucket(s, mins, i) + rest;
    Assoc([s[0]], Bucket(s[1..], mins, i), rest);
  }

  lemma HeadRoutesLowest(s: seq<Entry>, mins: seq<Key>, e: Entry)
    requires Sorted(s) && mins != [] && Increasing(mins) && e in s
    ensures Route(mins, s[0].key) <= Route(mins, e.key)
  {
    var j :| 0 <= j < |s| && s[j] == e;
    KeyOrder();
    assert j > 0 ==> !EntryLess(s[j], s[0]);
    RouteMonotone(mins, s[0].key, e.key);
  }

  /** The buckets of a sorted list concatenate back to the list. */
  lemma PartitionIsLossless(s: seq<Entry>, mins: seq<Key>)
    requires Sorted(s) && mins != [] && Increasing(mins)
    ensures Flatten(BucketsFrom(s, mins, 0)) == s
  {
    BucketsConcat(s, mins, 0);
  }

  // ----- byte accounting -----

  lemma {:induction false} BytesAppend(a: seq<Entry>, b: seq<Entry>)
    ensures Bytes(a + b) == Bytes(a) + Bytes(b)
  {
    if a == [] {
      assert a + b == b;
    } else {
      BytesAppend(a[1..], b);
      assert (a + b)[1..] == a[1..] + b;
    }
  }

  /** Bytes of the entries routed to child `i` or later. */
  function BytesFrom(s: seq<Entry>, mins: seq<Key>, i: nat): nat {
    if s == [] then 0 else (if Route(mins, s[0].key) >= i then EntryBytes(s[0]) else 0) + BytesFrom(s[1..], mins, i)
  }

  lemma {:induction false} BucketBytes(s: seq<Entry>, mins: seq<Key>, i: nat)
    ensures Bytes(Bucket(s, mins, i)) + BytesFrom(s, mins, i + 1) == BytesFrom(s, mins, i)
  {
    if s != [] {
      BucketBytes(s[1..], mins, i);
      BytesAppend([s[0]], Bucket(s[1..], mins, i));
    }
  }

  lemma {:induction false} BytesFromEnds(s: seq<Entry>, mins: seq<Key>)
    requires mins != []
    ensures BytesFrom(s, mins, 0) == Bytes(s) && BytesFrom(s, mins, |mins|) == 0
  {
    if s != [] {
      ScanDownCovers(mins, s[0].key, |mins|);
      BytesFromEnds(s[1..], mins);
    }
  }

  /** Partitioning neither drops nor copies bytes, whatever the minimum keys are. */
  lemma {:induction false} BucketsBytes(s: seq<Entry>, mins: seq<Key>, i: nat)
    requires mins != [] && i <= |mins|
    ensures Bytes(Flatten(BucketsFrom(s, mins, i))) == BytesFrom(s, mins, i)
    decreases |mins| - i
  {
    BytesFromEnds(s, mins);
    if i < |mins| {
      BucketsBytes(s, mins, i + 1);
      BucketBytes(s, mins, i);
      BytesAppend(Bucket(s, mins, i), Flatten(BucketsFrom(s, mins, i + 1)));
    }
  }

  lemma {:induction false} MergeBytes(a: seq<Entry>, b: seq<Entry>)
    ensures Bytes(Merge(a, b)) <= Bytes(a) + Bytes(b)
    decreases |a| + |b|
  {
    if a != [] && b != [] {
      if KeyLess(a[0].key, b[0].key) {
        MergeBytes(a[1..], b);
        BytesAppend([a[0]], Merge(a[1..], b));
      } else if KeyLess(b[0].key, a[0].key) {
        MergeBytes(a, b[1..]);
        BytesAppend([b[0]], Merge(a, b[1..]));
      } else {
        MergeBytes(a[1..], b[1..]);
        BytesAppend([a[0]], Merge(a[1..], b[1..]));
        BytesAppend([b[0]], Merge(a[1..], b[1..]));
      }
    }
  }

  lemma {:induction false} InsertEntryBytes(e: Entry, s: seq<Entry>)
    ensures Bytes(InsertEntry(e, s)) == EntryBytes(e) + Bytes(s)
  {
    if !(s == [] || !EntryLess(s[0], e)) {
      InsertEntryBytes(e, s[1..]);
      BytesAppend([s[0]], InsertEntry(e, s[1..]));
    } else {
      BytesAppend([e], s);
    }
  }

  lemma {:induction false} StableSortBytes(s: seq<Entry>)
    ensures Bytes(StableSort(s)) == Bytes(s)
  {
    if s != [] {
      StableSortBytes(s[1..]);
      InsertEntryBytes(s[0], StableSort(s[1..]));
    }
  }

  lemma {:induction false} DedupeBytes(s: seq<Entry>)
    ensures Bytes(Dedupe(s)) <= Bytes(s)
  {
    if |s| > 1 {
      var p, x := s[..|s| - 1], s[|s| - 1];
      DedupeBytes(p);
      assert s == p + [x];
      BytesAppend(p, [x]);
      BytesAppend(Dedupe(p), [x]);
    }
  }

  lemma SortBufferBytes(s: seq<Entry>)
    ensures Bytes(SortBuffer(s)) <= Bytes(s)
  {
    StableSortBytes(s);
    DedupeBytes(StableSort(s));
  }
}
