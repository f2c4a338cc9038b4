/** Node files: the layout that write_file produces and read_file takes apart. */
module Codec {
  import opened Types
  import opened ByteCodec
  import opened Bloom
  import opened Crc

  const NODE_FILE_MAGIC: nat := 0x4752415654524545
  const NODE_FILE_VERSION: nat := 1
  const SPARSE_STEP: nat := 128

  datatype SparseEntry = SparseEntry(key: Key, offset: nat)

  /** A node as a file holds it, unused child slots included. */
  datatype FileNode = FileNode(
    id: nat, level: nat, numChildren: nat, slots: seq<nat>, minKey: Key, maxKey: Key,
    bloom: Option<Filter>, entries: seq<Entry>, index: seq<SparseEntry>)

  // ----- layout -----

  function EntryCode(e: Entry): seq<byte> {
    Str(e.key) + Str(e.value) + U64(e.seqNo) + Le(if e.deleted then 1 else 0, 1)
  }

  function EntriesCode(es: seq<Entry>): seq<byte> {
    if es == [] then [] else EntriesCode(es[..|es| - 1]) + EntryCode(es[|es| - 1])
  }

  function SlotsCode(slots: seq<nat>): (r: seq<byte>)
    ensures |r| == 8 * |slots|
  {
    if slots == [] then [] else SlotsCode(slots[..|slots| - 1]) + U64(slots[|slots| - 1])
  }

  function FilterCode(f: Option<Filter>): seq<byte> {
    if f.None? then U32(0) else U32(|Serialize(f.value)|) + Serialize(f.value)
  }

  function FixedCode(n: FileNode): seq<byte> {
    U64(NODE_FILE_MAGIC) + (U32(NODE_FILE_VERSION) + (U64(n.id) + (U32(n.level) + (U32(n.numChildren) + (SlotsCode(n.slots) + U32(|n.entries|))))))
  }

  function Header(n: FileNode): seq<byte> {
    FixedCode(n) + (Str(n.minKey) + (Str(n.maxKey) + FilterCode(n.bloom)))
  }

  /** Where entry `i` starts in the file. */
  function Offset(n: FileNode, i: nat): nat
    requires i <= |n.entries|
  {
    |Header(n)| + |EntriesCode(n.entries[..i])|
  }

  /** One item for every 128th entry. */
  function IndexSize(count: nat): nat {
    (count + SPARSE_STEP - 1) / SPARSE_STEP
  }

  function TrueIndex(n: FileNode): (r: seq<SparseEntry>)
    ensures |r| == IndexSize(|n.entries|)
    ensures forall j :: 0 <= j < |r| ==> SPARSE_STEP * j < |n.entries|
                                         && r[j] == SparseEntry(n.entries[SPARSE_STEP * j].key, Offset(n, SPARSE_STEP * j))
  {
    seq(IndexSize(|n.entries|), j requires 0 <= j < IndexSize(|n.entries|) =>
        SparseEntry(n.entries[SPARSE_STEP * j].key, Offset(n, SPARSE_STEP * j)))
  }

  function ItemsCode(ix: seq<SparseEntry>): seq<byte> {
    if ix == [] then [] else ItemsCode(ix[..|ix| - 1]) + (Str(ix[|ix| - 1].key) + U64(ix[|ix| - 1].offset))
  }

  function IndexCode(ix: seq<SparseEntry>): seq<byte> {
    U32(|ix|) + ItemsCode(ix)
  }

  function Body(n: FileNode): seq<byte> {
    Header(n) + (EntriesCode(n.entries) + IndexCode(TrueIndex(n)))
  }

  function Encode(n: FileNode): seq<byte> {
    Body(n) + Trailer(Checksum(Body(n)))
  }

  // ----- writing -----

  method WriteFixed(n: FileNode) returns (raw: seq<byte>)
    ensures raw == FixedCode(n)
  {
    hide U32;
    hide U64;
    raw := U64(NODE_FILE_MAGIC);
    raw := raw + U32(NODE_FILE_VERSION);
    raw := raw + U64(n.id);
    raw := raw + U32(n.level);
    raw := raw + U32(n.numChildren);
    ghost var front := raw;
    for i := 0 to |n.slots|
      invariant raw == front + SlotsCode(n.slots[..i])
    {
      assert n.slots[..i + 1][..i] == n.slots[..i];
      raw := raw + U64(n.slots[i]);
    }
    assert n.slots[..|n.slots|] == n.slots;
    raw := raw + U32(|n.entries|);
  }

  /** The entries, and the offset of every 128th as it is written. */
  method WriteEntries(n: FileNode, start: seq<byte>) returns (raw: seq<byte>, index: seq<SparseEntry>)
    requires start == Header(n)
    ensures raw == start + EntriesCode(n.entries) && index == TrueIndex(n)
  {
    hide Header;
    hide EntryCode;
    hide TrueIndex;
    raw, index := start, [];
    for i := 0 to |n.entries|
      invariant raw == start + EntriesCode(n.entries[..i])
      invariant |index| == IndexSize(i) && index == TrueIndex(n)[..IndexSize(i)]
    {
      IndexGrows(n, i);
      if i % SPARSE_STEP == 0 {
        index := index + [SparseEntry(n.entries[i].key, |raw|)];
      }
      assert n.entries[..i + 1][..i] == n.entries[..i];
      raw := raw + EntryCode(n.entries[i]);
    }
    assert n.entries[..|n.entries|] == n.entries;
  }

  lemma IndexGrows(n: FileNode, i: nat)
    requires i < |n.entries|
    ensures IndexSize(i) <= IndexSize(i + 1) <= |TrueIndex(n)|
    ensures i % SPARSE_STEP != 0 ==> IndexSize(i + 1) == IndexSize(i)
    ensures i % SPARSE_STEP == 0 ==>
              (IndexSize(i + 1) == IndexSize(i) + 1 && TrueIndex(n)[IndexSize(i)] == SparseEntry(n.entries[i].key, Offset(n, i)))
  {
    hide Offset;
    if i % SPARSE_STEP == 0 { assert SPARSE_STEP * IndexSize(i) == i; }
  }

  method WriteIndex(index: seq<SparseEntry>) returns (raw: seq<byte>)
    ensures raw == IndexCode(index)
  {
    hide U32;
    hide U64;
    hide Str;
    raw := U32(|index|);
    for i := 0 to |index|
      invariant raw == U32(|index|) + ItemsCode(index[..i])
    {
      assert index[..i + 1][..i] == index[..i];
      raw := raw + (Str(index[i].key) + U64(index[i].offset));
    }
    assert index[..|index|] == index;
  }

  /** `write_file`: the bytes of the file. */
  method WriteFile(n: FileNode) returns (raw: seq<byte>)
    ensures raw == Encode(n)
  {
    hide Str;
    hide FilterCode;
    hide FixedCode;
    hide EntriesCode;
    hide TrueIndex;
    hide IndexCode;
    raw := WriteFixed(n);
    raw := raw + Str(n.minKey);
    raw := raw + Str(n.maxKey);
    raw := raw + FilterCode(n.bloom);
    assert raw == Header(n);
    var index;
    raw, index := WriteEntries(n, raw);
    var tail := WriteIndex(index);
    raw := raw + tail;
    assert raw == Body(n);
    var crc := Crc64(raw);
    raw := raw + Trailer(crc);
  }

  // ----- reading -----

  ghost predicate EntryFits(e: Entry) {
    |e.key| < TWO32 && |e.value| < TWO32
  }

  /** Strings, filter and entry count fit their 32-bit fields, ids and offsets their 64-bit ones. */
  ghost predicate Fits(n: FileNode) {
    && n.id < TWO64 && n.level < TWO32 && n.numChildren < TWO32
    && |n.slots| == MAX_FANOUT && (forall i :: 0 <= i < |n.slots| ==> n.slots[i] < TWO64)
    && |n.minKey| < TWO32 && |n.maxKey| < TWO32
    && (n.bloom.Some? ==> FilterFits(n.bloom.value) && |Serialize(n.bloom.value)| < TWO32)
    && |n.entries| < TWO32 && (forall i :: 0 <= i < |n.entries| ==> EntryFits(n.entries[i]))
    && |Body(n)| < TWO64
  }

  lemma {:induction false} SlotAt(data: seq<byte>, pos: nat, slots: seq<nat>, i: nat)
    requires At(data, pos, SlotsCode(slots)) && i < |slots|
    ensures At(data, pos + 8 * i, U64(slots[i]))
  {
    hide U64;
    hide At;
    var before := slots[..|slots| - 1];
    AtParts(data, pos, SlotsCode(before), U64(slots[|slots| - 1]));
    if i < |before| { SlotAt(data, pos, before, i); }
  }

  lemma {:induction false} EntryAt(data: seq<byte>, pos: nat, es: seq<Entry>, i: nat)
    requires At(data, pos, EntriesCode(es)) && i < |es|
    ensures At(data, pos + |EntriesCode(es[..i])|, EntryCode(es[i]))
  {
    hide EntryCode;
    var before := es[..|es| - 1];
    AtParts(data, pos, EntriesCode(before), EntryCode(es[|es| - 1]));
    if i < |before| {
      EntryAt(data, pos, before, i);
      assert before[..i] == es[..i];
    }
  }

  lemma {:induction false} ItemAt(data: seq<byte>, pos: nat, ix: seq<SparseEntry>, i: nat)
    requires At(data, pos, ItemsCode(ix)) && i < |ix|
    ensures At(data, pos + |ItemsCode(ix[..i])|, Str(ix[i].key) + U64(ix[i].offset))
  {
    hide Str;
    hide U64;
    var before := ix[..|ix| - 1];
    AtParts(data, pos, ItemsCode(before), Str(ix[|ix| - 1].key) + U64(ix[|ix| - 1].offset));
    if i < |before| {
      ItemAt(data, pos, before, i);
      assert before[..i] == ix[..i];
    }
  }

  lemma {:induction false} FromLeBound(b: seq<byte>)
    ensures FromLe(b) < Power(|b|)
  {
    if b != [] { FromLeBound(b[1..]); }
  }

  /** `good` says that the bytes are those of `slots`; without it the read may fail. */
  method ReadSlots(r: BinaryReader, ghost slots: seq<nat>, ghost good: bool) returns (res: Result<seq<nat>>)
    requires good ==> At(r.data, r.pos, SlotsCode(slots)) && |slots| == MAX_FANOUT && forall i :: 0 <= i < |slots| ==> slots[i] < TWO64
    modifies r`pos
    ensures good ==> res == Ok(slots) && r.pos == old(r.pos) + 8 * |slots|
  {
    hide U64;
    hide SlotsCode;
    var out: seq<nat> := [];
    for i := 0 to MAX_FANOUT
      invariant |out| == i
      invariant good ==> out == slots[..i] && r.pos == old(r.pos) + 8 * i
    {
      if good {
        SlotAt(r.data, old(r.pos), slots, i);
        ReadU64(r.data, r.pos, slots[i]);
      }
      var x :- r.Int(8);
      out := out + [x];
    }
    assert good ==> slots[..|slots|] == slots;
    res := Ok(out);
  }

  method ReadEntry(r: BinaryReader, ghost e: Entry, ghost good: bool) returns (res: Result<Entry>)
    requires good ==> At(r.data, r.pos, EntryCode(e)) && EntryFits(e)
    modifies r`pos
    ensures good ==> res == Ok(e) && r.pos == old(r.pos) + |EntryCode(e)|
  {
    hide Str;
    hide U64;
    hide Le;
    hide FromLe;
    if good { EntryReads(r.data, r.pos, e); }
    var key :- r.Text();
    var value :- r.Text();
    var pos := r.pos;
    var seqNo :- r.Int(8);
    Powers();
    FromLeBound(r.data[pos..pos + 8]);
    var deleted :- r.Int(1);
    res := Ok(Entry(key, value, seqNo, deleted != 0));
  }

  lemma EntryReads(data: seq<byte>, pos: nat, e: Entry)
    requires At(data, pos, EntryCode(e)) && EntryFits(e)
    ensures var k, v := pos + |Str(e.key)|, pos + |Str(e.key)| + |Str(e.value)|;
            && ReadStr(data, pos) == Ok(e.key) && ReadStr(data, k) == Ok(e.value) && ReadInt(data, v, 8) == Ok(e.seqNo)
            && ReadInt(data, v + 8, 1) == Ok(if e.deleted then 1 else 0)
            && |EntryCode(e)| == |Str(e.key)| + |Str(e.value)| + 9 && |Str(e.key)| == 4 + |e.key| && |Str(e.value)| == 4 + |e.value|
  {
    hide Str;
    hide U64;
    hide Le;
    hide At;
    hide ReadStr;
    var d: nat := if e.deleted then 1 else 0;
    var a, b, c := Str(e.key), Str(e.value), U64(e.seqNo);
    AtParts(data, pos, a + b + c, Le(d, 1));
    AtParts(data, pos, a + b, c);
    AtParts(data, pos, a, b);
    ReadStrOk(data, pos, e.key);
    ReadStrOk(data, pos + |a|, e.value);
    ReadU64(data, pos + |a + b|, e.seqNo);
    ReadFlag(data, pos + |a + b + c|, d);
  }

  lemma ReadFlag(data: seq<byte>, pos: nat, d: nat)
    requires At(data, pos, Le(d, 1)) && d < 256
    ensures ReadInt(data, pos, 1) == Ok(d)
  {
    Powers();
    LeRoundTrip(d, 1);
  }

  method ReadEntries(r: BinaryReader, count: nat, ghost es: seq<Entry>, ghost good: bool) returns (res: Result<seq<Entry>>)
    requires good ==> At(r.data, r.pos, EntriesCode(es)) && count == |es| && forall i :: 0 <= i < |es| ==> EntryFits(es[i])
    modifies r`pos
    ensures good ==> res == Ok(es) && r.pos == old(r.pos) + |EntriesCode(es)|
  {
    hide EntryCode;
    var out: seq<Entry> := [];
    for i := 0 to count
      invariant |out| == i
      invariant good ==> out == es[..i] && r.pos == old(r.pos) + |EntriesCode(es[..i])|
    {
      if good {
        EntryAt(r.data, old(r.pos), es, i);
        assert es[..i + 1][..i] == es[..i];
      }
      var e :- ReadEntry(r, if good then es[i] else Entry([], [], 0, false), good);
      out := out + [e];
    }
    assert good ==> es[..|es|] == es;
    res := Ok(out);
  }

  method ReadIndex(r: BinaryReader, ghost ix: seq<SparseEntry>, ghost good: bool) returns (res: Result<seq<SparseEntry>>)
    requires good ==> At(r.data, r.pos, IndexCode(ix)) && |ix| < TWO32
                      && forall i :: 0 <= i < |ix| ==> |ix[i].key| < TWO32 && ix[i].offset < TWO64
    modifies r`pos
    ensures good ==> res == Ok(ix)
  {
    hide Str;
    hide U32;
    hide U64;
    if good {
      AtParts(r.data, r.pos, U32(|ix|), ItemsCode(ix));
      ReadU32(r.data, r.pos, |ix|);
    }
    var count :- r.Int(4);
    ghost var start := r.pos;
    var out: seq<SparseEntry> := [];
    for i := 0 to count
      invariant |out| == i
      invariant good ==> out == ix[..i] && r.pos == start + |ItemsCode(ix[..i])|
    {
      if good {
        ItemAt(r.data, start, ix, i);
        ItemReads(r.data, r.pos, ix[i]);
        assert ix[..i + 1][..i] == ix[..i];
      }
      var key :- r.Text();
      var offset :- r.Int(8);
      out := out + [SparseEntry(key, offset)];
    }
    assert good ==> ix[..|ix|] == ix;
    res := Ok(out);
  }

  lemma ItemReads(data: seq<byte>, pos: nat, x: SparseEntry)
    requires At(data, pos, Str(x.key) + U64(x.offset)) && |x.key| < TWO32 && x.offset < TWO64
    ensures ReadStr(data, pos) == Ok(x.key) && ReadInt(data, pos + 4 + |x.key|, 8) == Ok(x.offset)
  {
    hide Str;
    hide U64;
    hide At;
    hide ReadStr;
    AtParts(data, pos, Str(x.key), U64(x.offset));
    ReadStrOk(data, pos, x.key);
    ReadU64(data, pos + |Str(x.key)|, x.offset);
  }

  /** Magic, version, ids, child slots and entry count. */
  method ReadFixed(r: BinaryReader, ghost n: FileNode, ghost good: bool) returns (res: Result<(FileNode, nat)>)
    requires good ==> At(r.data, r.pos, FixedCode(n)) && Fits(n)
    modifies r`pos
    ensures res.Ok? ==> res.value.0.entries == [] && res.value.0.index == []
    ensures good ==> res == Ok((FileNode(n.id, n.level, n.numChildren, n.slots, [], [], None, [], []), |n.entries|))
    ensures good ==> r.pos == old(r.pos) + |FixedCode(n)|
    ensures ReadInt(r.data, old(r.pos), 8).Ok? && ReadInt(r.data, old(r.pos), 8).value != NODE_FILE_MAGIC ==> res == Err(BadMagic)
  {
    hide U32;
    hide U64;
    hide SlotsCode;
    hide At;
    hide Body;
    hide ReadInt;
    if good { FixedReads(r.data, r.pos, n); }
    var magic :- r.Int(8);
    if magic != NODE_FILE_MAGIC { return Err(BadMagic); }
    var version :- r.Int(4);
    if version != NODE_FILE_VERSION { return Err(BadVersion); }
    var id :- r.Int(8);
    var level :- r.Int(4);
    var num :- r.Int(4);
    var slots :- ReadSlots(r, n.slots, good);
    var count :- r.Int(4);
    res := Ok((FileNode(id, level, num, slots, [], [], None, [], []), count));
  }

  lemma FixedReads(data: seq<byte>, pos: nat, n: FileNode)
    requires At(data, pos, FixedCode(n)) && Fits(n)
    ensures ReadInt(data, pos, 8) == Ok(NODE_FILE_MAGIC) && ReadInt(data, pos + 8, 4) == Ok(NODE_FILE_VERSION)
    ensures ReadInt(data, pos + 12, 8) == Ok(n.id) && ReadInt(data, pos + 20, 4) == Ok(n.level)
    ensures ReadInt(data, pos + 24, 4) == Ok(n.numChildren) && At(data, pos + 28, SlotsCode(n.slots))
    ensures ReadInt(data, pos + 28 + 8 * |n.slots|, 4) == Ok(|n.entries|)
    ensures |FixedCode(n)| == 32 + 8 * |n.slots|
  {
    hide U32;
    hide U64;
    hide SlotsCode;
    hide At;
    hide Body;
    var g := SlotsCode(n.slots) + U32(|n.entries|);
    var f := U32(n.numChildren) + g;
    var e := U32(n.level) + f;
    var d := U64(n.id) + e;
    var c := U32(NODE_FILE_VERSION) + d;
    AtParts(data, pos, U64(NODE_FILE_MAGIC), c);
    AtParts(data, pos + 8, U32(NODE_FILE_VERSION), d);
    AtParts(data, pos + 12, U64(n.id), e);
    AtParts(data, pos + 20, U32(n.level), f);
    AtParts(data, pos + 24, U32(n.numChildren), g);
    AtParts(data, pos + 28, SlotsCode(n.slots), U32(|n.entries|));
    ReadU64(data, pos, NODE_FILE_MAGIC);
    ReadU32(data, pos + 8, NODE_FILE_VERSION);
    ReadU64(data, pos + 12, n.id);
    ReadU32(data, pos + 20, n.level);
    ReadU32(data, pos + 24, n.numChildren);
    ReadU32(data, pos + 28 + 8 * |n.slots|, |n.entries|);
  }

  method ReadFilter(r: BinaryReader, ghost f: Option<Filter>, ghost good: bool) returns (res: Result<Option<Filter>>)
    requires good ==> At(r.data, r.pos, FilterCode(f)) && (f.Some? ==> FilterFits(f.value) && |Serialize(f.value)| < TWO32)
    modifies r`pos
    ensures good ==> res == Ok(f) && r.pos == old(r.pos) + |FilterCode(f)|
  {
    hide U32;
    hide Serialize;
    hide Deserialize;
    if good {
      if f.Some? {
        AtParts(r.data, r.pos, U32(|Serialize(f.value)|), Serialize(f.value));
        FilterRoundTrip(f.value);
        ReadU32(r.data, r.pos, |Serialize(f.value)|);
      } else {
        ReadU32(r.data, r.pos, 0);
      }
    }
    var len :- r.Int(4);
    if len == 0 { return Ok(None); }
    if r.pos + len > |r.data| { return Err(UnexpectedEnd); }
    var filter :- Deserialize(r.data[r.pos..r.pos + len]);
    r.pos := r.pos + len;
    res := Ok(Some(filter));
  }

  lemma HeaderParts(data: seq<byte>, pos: nat, n: FileNode)
    requires At(data, pos, Header(n)) && Fits(n)
    ensures var a := pos + |FixedCode(n)|;
            var b := a + 4 + |n.minKey|;
            var c := b + 4 + |n.maxKey|;
            && At(data, pos, FixedCode(n)) && ReadStr(data, a) == Ok(n.minKey) && ReadStr(data, b) == Ok(n.maxKey)
            && At(data, c, FilterCode(n.bloom)) && c + |FilterCode(n.bloom)| == pos + |Header(n)|
  {
    hide Str;
    hide FilterCode;
    hide FixedCode;
    hide At;
    hide ReadStr;
    hide Body;
    var d := Str(n.maxKey) + FilterCode(n.bloom);
    AtParts(data, pos, FixedCode(n), Str(n.minKey) + d);
    AtParts(data, pos + |FixedCode(n)|, Str(n.minKey), d);
    AtParts(data, pos + |FixedCode(n)| + |Str(n.minKey)|, Str(n.maxKey), FilterCode(n.bloom));
    ReadStrOk(data, pos + |FixedCode(n)|, n.minKey);
    ReadStrOk(data, pos + |FixedCode(n)| + |Str(n.minKey)|, n.maxKey);
  }

  /** The header of a node, and how many entries follow. */
  method ReadHeader(r: BinaryReader, ghost n: FileNode, ghost good: bool) returns (res: Result<(FileNode, nat)>)
    requires good ==> At(r.data, r.pos, Header(n)) && Fits(n)
    modifies r`pos
    ensures res.Ok? ==> res.value.0.entries == [] && res.value.0.index == []
    ensures good ==> res == Ok((n.(entries := [], index := []), |n.entries|)) && r.pos == old(r.pos) + |Header(n)|
    ensures ReadInt(r.data, old(r.pos), 8).Ok? && ReadInt(r.data, old(r.pos), 8).value != NODE_FILE_MAGIC ==> res == Err(BadMagic)
  {
    hide Header;
    hide FixedCode;
    hide FilterCode;
    hide Body;
    hide At;
    hide ReadStr;
    hide ReadInt;
    if good { HeaderParts(r.data, r.pos, n); }
    var front :- ReadFixed(r, n, good);
    var minKey :- r.Text();
    var maxKey :- r.Text();
    var bloom :- ReadFilter(r, n.bloom, good);
    res := Ok((front.0.(minKey := minKey, maxKey := maxKey, bloom := bloom), front.1));
  }

  lemma BodyParts(n: FileNode)
    requires Fits(n)
    ensures At(Body(n), 0, Header(n)) && At(Body(n), |Header(n)|, EntriesCode(n.entries))
    ensures At(Body(n), |Header(n)| + |EntriesCode(n.entries)|, IndexCode(TrueIndex(n)))
    ensures |TrueIndex(n)| < TWO32
    ensures forall j :: 0 <= j < |TrueIndex(n)| ==> |TrueIndex(n)[j].key| < TWO32 && TrueIndex(n)[j].offset < TWO64
  {
    var b, h, e, x := Body(n), Header(n), EntriesCode(n.entries), IndexCode(TrueIndex(n));
    hide Header;
    hide EntriesCode;
    hide IndexCode;
    assert At(b, 0, h + (e + x)) by { assert b[0..|b|] == b; }
    AtParts(b, 0, h, e + x);
    AtParts(b, |h|, e, x);
    forall j | 0 <= j < |TrueIndex(n)| ensures |TrueIndex(n)[j].key| < TWO32 && TrueIndex(n)[j].offset < TWO64 {
      PrefixShorter(n.entries, SPARSE_STEP * j);
      assert EntryFits(n.entries[SPARSE_STEP * j]);
    }
  }

  lemma {:induction false} PrefixShorter(es: seq<Entry>, i: nat)
    requires i <= |es|
    ensures |EntriesCode(es[..i])| <= |EntriesCode(es)|
  {
    hide EntryCode;
    if i < |es| {
      PrefixShorter(es[..|es| - 1], i);
      assert es[..|es| - 1][..i] == es[..i];
    } else {
      assert es[..i] == es;
    }
  }

  /**
   * `read_file`.  Of the bytes that `write_file` produced for a node it recovers the node, with the
   * index that belongs to it; the header-only read recovers the header.  A file that is too short,
   * fails the checksum or starts with another magic is refused.
   */
  method ReadFile(raw: seq<byte>, load: bool, ghost n: FileNode) returns (res: Result<FileNode>)
    ensures |raw| < 8 ==> res == Err(FileTooSmall)
    ensures |raw| >= 8 && Stored(raw[|raw| - 8..]) != Checksum(raw[..|raw| - 8]) ==> res == Err(ChecksumMismatch)
    ensures |raw| >= 16 && Stored(raw[|raw| - 8..]) == Checksum(raw[..|raw| - 8]) && FromLe(raw[..8]) != NODE_FILE_MAGIC ==>
              res == Err(BadMagic)
    ensures Fits(n) && raw == Encode(n) ==>
              res == Ok(if load then n.(index := TrueIndex(n)) else n.(entries := [], index := []))
  {
    hide Checksum;
    hide Stored;
    hide Header;
    hide EntriesCode;
    hide IndexCode;
    hide TrueIndex;
    hide FromLe;
    if |raw| < 8 { return Err(FileTooSmall); }
    var data := raw[..|raw| - 8];
    var crc := Crc64(data);
    if Stored(raw[|raw| - 8..]) != crc {
      if raw == Encode(n) { EncodeChecks(n); }
      return Err(ChecksumMismatch);
    }
    ghost var good := Fits(n) && raw == Encode(n);
    if good {
      EncodeChecks(n);
      BodyParts(n);
    }
    hide Fits;
    hide Encode;
    hide Body;
    assert |raw| >= 16 ==> data[0..8] == raw[..8];
    var r := new BinaryReader(data);
    var front :- ReadHeader(r, n, good);
    if !load { return Ok(front.0); }
    if good { FitsEntries(n); }
    var entries :- ReadEntries(r, front.1, n.entries, good);
    var index :- ReadIndex(r, if good then TrueIndex(n) else [], good);
    res := Ok(front.0.(entries := entries, index := index));
  }

  lemma FitsEntries(n: FileNode)
    requires Fits(n)
    ensures forall i :: 0 <= i < |n.entries| ==> EntryFits(n.entries[i])
  {
  }

  /** Where a file keeps its fixed fields, and that its last eight bytes are the checksum. */
  lemma FileLayout(n: FileNode)
    requires Fits(n)
    ensures var raw := Encode(n);
            && ReadInt(raw, 0, 8) == Ok(NODE_FILE_MAGIC) && ReadInt(raw, 8, 4) == Ok(NODE_FILE_VERSION)
            && ReadInt(raw, 12, 8) == Ok(n.id) && ReadInt(raw, 20, 4) == Ok(n.level) && ReadInt(raw, 24, 4) == Ok(n.numChildren)
            && (forall i :: 0 <= i < MAX_FANOUT ==> ReadInt(raw, 28 + 8 * i, 8) == Ok(n.slots[i]))
            && ReadInt(raw, 156, 4) == Ok(|n.entries|) && ReadStr(raw, 160) == Ok(n.minKey)
            && |raw| >= 8 && raw[|raw| - 8..] == Trailer(Checksum(raw[..|raw| - 8]))
  {
    hide Header;
    hide FixedCode;
    hide FilterCode;
    hide EntriesCode;
    hide IndexCode;
    hide TrueIndex;
    hide Checksum;
    hide Trailer;
    hide SlotsCode;
    hide U64;
    hide At;
    hide ReadInt;
    hide ReadStr;
    hide Body;
    hide Encode;
    hide Fits;
    var raw := Encode(n);
    HeaderAt(n);
    FitsSlots(n);
    HeaderParts(raw, 0, n);
    FixedReads(raw, 0, n);
    forall i | 0 <= i < MAX_FANOUT ensures ReadInt(raw, 28 + 8 * i, 8) == Ok(n.slots[i]) {
      SlotAt(raw, 28, n.slots, i);
      ReadU64(raw, 28 + 8 * i, n.slots[i]);
    }
    EncodeEnds(n);
  }

  lemma HeaderAt(n: FileNode)
    requires Fits(n)
    ensures At(Encode(n), 0, Header(n))
  {
    hide Header;
    hide Body;
    hide Fits;
    hide At;
    BodyParts(n);
    AtLonger(Body(n), Trailer(Checksum(Body(n))), 0, Header(n));
  }

  lemma FitsSlots(n: FileNode)
    requires Fits(n)
    ensures |n.slots| == MAX_FANOUT && forall i :: 0 <= i < |n.slots| ==> n.slots[i] < TWO64
  {
    hide Body;
  }

  lemma EncodeEnds(n: FileNode)
    ensures var raw := Encode(n); |raw| >= 8 && raw[|raw| - 8..] == Trailer(Checksum(raw[..|raw| - 8]))
  {
    hide Checksum;
    hide Body;
    assert Encode(n)[..|Encode(n)| - 8] == Body(n);
  }

  /** A written file passes its own check. */
  lemma EncodeChecks(n: FileNode)
    ensures |Encode(n)| >= 8
    ensures var raw := Encode(n);
            raw[..|raw| - 8] == Body(n) && Stored(raw[|raw| - 8..]) == Checksum(Body(n))
  {
    hide Checksum;
    hide Stored;
    hide Body;
    TrailerRoundTrip(Checksum(Body(n)));
    assert Encode(n)[|Encode(n)| - 8..] == Trailer(Checksum(Body(n)));
  }

  /** Eight consecutive bytes of the body changed in any way: the file no longer passes the check. */
  lemma CorruptionDetected(n: FileNode, i: nat, s: seq<byte>)
    requires |s| <= 8 && i + |s| <= |Body(n)| && s != Body(n)[i..i + |s|]
    ensures var body := Body(n)[..i] + s + Body(n)[i + |s|..];
            var raw := body + Trailer(Checksum(Body(n)));
            Stored(raw[|raw| - 8..]) != Checksum(raw[..|raw| - 8])
  {
    hide Checksum;
    hide Stored;
    var b := Body(n);
    hide Body;
    var body := b[..i] + s + b[i + |s|..];
    var raw := body + Trailer(Checksum(b));
    assert raw[..|raw| - 8] == body && raw[|raw| - 8..] == Trailer(Checksum(b));
    TrailerRoundTrip(Checksum(b));
    BurstDetected(b[..i], b[i..i + |s|], s, b[i + |s|..]);
    assert b[..i] + b[i..i + |s|] + b[i + |s|..] == b;
  }

  lemma AtLonger(data: seq<byte>, more: seq<byte>, pos: nat, s: seq<byte>)
    requires At(data, pos, s)
    ensures At(data + more, pos, s)
  {
    assert (data + more)[pos..pos + |s|] == data[pos..pos + |s|];
  }

  /** The stored offsets point true: item `j` holds the position of entry number 128 * j, and its key. */
  lemma IndexPointsTrue(n: FileNode, j: nat)
    requires Fits(n) && j < |TrueIndex(n)|
    ensures SPARSE_STEP * j < |n.entries| && TrueIndex(n)[j].key == n.entries[SPARSE_STEP * j].key
    ensures At(Encode(n), TrueIndex(n)[j].offset, EntryCode(n.entries[SPARSE_STEP * j]))
  {
    hide Header;
    hide EntryCode;
    hide EntriesCode;
    hide Checksum;
    hide Body;
    hide At;
    hide IndexCode;
    hide Fits;
    BodyParts(n);
    EntryAt(Body(n), |Header(n)|, n.entries, SPARSE_STEP * j);
    AtLonger(Body(n), Trailer(Checksum(Body(n))), TrueIndex(n)[j].offset, EntryCode(n.entries[SPARSE_STEP * j]));
  }

  /** Decoding one entry at a stored offset yields exactly the entry that the item stands for. */
  method ReadAtOffset(raw: seq<byte>, item: SparseEntry, ghost n: FileNode, ghost j: nat) returns (res: Result<Entry>)
    requires Fits(n) && raw == Encode(n) && j < |TrueIndex(n)| && item == TrueIndex(n)[j]
    ensures SPARSE_STEP * j < |n.entries| && res == Ok(n.entries[SPARSE_STEP * j]) && res.value.key == item.key
  {
    IndexPointsTrue(n, j);
    FitsEntries(n);
    hide TrueIndex;
    hide Encode;
    hide Fits;
    hide EntryCode;
    var r := new BinaryReader(raw);
    r.pos := item.offset;
    res := ReadEntry(r, n.entries[SPARSE_STEP * j], true);
  }
}
