/** Core types: byte strings, entries and the order in which nodes keep them. */
module Types {

  type byte = bv8
  type Key = seq<byte>
  type Value = seq<byte>
  type NodeId = nat

  /** Sequence numbers are 64-bit unsigned integers. */
  type SequenceNumber = n: nat | n < 0x1_0000_0000_0000_0000

  const MAX_SEQ: SequenceNumber := 0xFFFF_FFFF_FFFF_FFFF
  const MAX_FANOUT: nat := 16
  const BUFFER_THRESHOLD: nat := 4 * 1024 * 1024

  datatype Option<+T> = None | Some(value: T)

  datatype Entry = Entry(key: Key, value: Value, seqNo: SequenceNumber, deleted: bool)

  /** Strict lexicographic order on byte strings, bytes compared as unsigned. */
  predicate KeyLess(a: Key, b: Key) {
    b != [] && (a == [] || a[0] < b[0] || (a[0] == b[0] && KeyLess(a[1..], b[1..])))
  }

  /** Keys ascending, and the newest version first among entries with one key. */
  predicate EntryLess(a: Entry, b: Entry) {
    if a.key != b.key then KeyLess(a.key, b.key) else a.seqNo > b.seqNo
  }

  function EntryBytes(e: Entry): nat {
    |e.key| + |e.value| + 8 + 1
  }

  function Bytes(s: seq<Entry>): nat {
    if s == [] then 0 else EntryBytes(s[0]) + Bytes(s[1..])
  }

  predicate BufferFull(s: seq<Entry>) {
    Bytes(s) >= BUFFER_THRESHOLD
  }

  lemma {:induction false} KeyLessIrreflexive(a: Key)
    ensures !KeyLess(a, a)
  {
    if a != [] {
      KeyLessIrreflexive(a[1..]);
    }
  }

  lemma {:induction false} KeyLessTransitive(a: Key, b: Key, c: Key)
    requires KeyLess(a, b) && KeyLess(b, c)
    ensures KeyLess(a, c)
  {
    if a != [] && a[0] == b[0] && b[0] == c[0] {
      KeyLessTransitive(a[1..], b[1..], c[1..]);
    }
  }

  lemma {:induction false} KeyLessTotal(a: Key, b: Key)
    ensures KeyLess(a, b) || KeyLess(b, a) || a == b
  {
    if a != [] && b != [] && a[0] == b[0] {
      KeyLessTotal(a[1..], b[1..]);
      assert a == [a[0]] + a[1..] && b == [b[0]] + b[1..];
    }
  }

  /** A proper prefix comes before its extensions. */
  lemma {:induction false} PrefixFirst(p: Key, s: Key)
    requires s != []
    ensures KeyLess(p, p + s) && !KeyLess(p + s, p)
  {
    if p != [] {
      assert (p + s)[1..] == p[1..] + s;
      PrefixFirst(p[1..], s);
    }
  }

  /** Otherwise the first byte that differs decides, bytes unsigned. */
  lemma {:induction false} FirstDifference(p: Key, x: byte, s: Key, y: byte, t: Key)
    requires x != y
    ensures KeyLess(p + [x] + s, p + [y] + t) <==> x < y
  {
    var a, b := p + [x] + s, p + [y] + t;
    if p == [] {
      assert a[0] == x && b[0] == y;
    } else {
      assert a[0] == b[0] == p[0];
      assert a[1..] == p[1..] + [x] + s && b[1..] == p[1..] + [y] + t;
      FirstDifference(p[1..], x, s, y, t);
    }
  }

  /** Key order is a strict total order: the facts every routing argument uses. */
  lemma KeyOrder()
    ensures forall a :: !KeyLess(a, a)
    ensures forall a, b, c {:trigger KeyLess(a, b), KeyLess(b, c)} ::
              KeyLess(a, b) && KeyLess(b, c) ==> KeyLess(a, c)
    ensures forall a, b {:trigger KeyLess(a, b)} :: KeyLess(a, b) || KeyLess(b, a) || a == b
  {
    forall a ensures !KeyLess(a, a) { KeyLessIrreflexive(a); }
    forall a, b, c | KeyLess(a, b) && KeyLess(b, c) ensures KeyLess(a, c) {
      KeyLessTransitive(a, b, c);
    }
    forall a, b ensures KeyLess(a, b) || KeyLess(b, a) || a == b { KeyLessTotal(a, b); }
  }

  /** The entry order is a strict weak order; ties share key and sequence number. */
  lemma EntryOrder()
    ensures forall a :: !EntryLess(a, a)
    ensures forall a, b, c {:trigger EntryLess(a, b), EntryLess(b, c)} ::
              EntryLess(a, b) && EntryLess(b, c) ==> EntryLess(a, c)
    ensures forall a, b {:trigger EntryLess(a, b)} ::
              EntryLess(a, b) || EntryLess(b, a) || (a.key == b.key && a.seqNo == b.seqNo)
  {
    KeyOrder();
  }
}
