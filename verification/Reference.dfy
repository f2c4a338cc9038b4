/** What a run of operations should return: reads of a plain map. */
module Reference {
  import opened Types
  import opened WriteView

  /** One client or background operation; `h` is the skip-list height that the random draw yields. */
  datatype Op =
    | Put(k: Key, v: Value, h: nat)
    | Delete(k: Key, h: nat)
    | Read(k: Key)
    | Background
    | Sync

  /** Entries are smaller than a full buffer, heights are in range. */
  predicate OpOk(op: Op) {
    match op
    case Put(k, v, h) => EntryBytes(Entry(k, v, 0, false)) < BUFFER_THRESHOLD && 1 <= h <= 12
    case Delete(k, h) => EntryBytes(Entry(k, [], 0, true)) < BUFFER_THRESHOLD && 1 <= h <= 12
    case _ => true
  }

  type Plain = map<Key, Value>

  function ValueOf(m: Plain, k: Key): Option<Value> {
    if k in m then Some(m[k]) else None
  }

  /** What one operation does to the plain map: flushing does nothing. */
  function Effect(op: Op, m: Plain): Plain {
    match op
    case Put(k, v, _) => m[k := v]
    case Delete(k, _) => m - {k}
    case _ => m
  }

  function Reply(op: Op, m: Plain): seq<Option<Value>> {
    if op.Read? then [ValueOf(m, op.k)] else []
  }

  function After(ops: seq<Op>, m: Plain): Plain {
    if ops == [] then m else Effect(ops[|ops| - 1], After(ops[..|ops| - 1], m))
  }

  /** What the reads among `ops` return. */
  function Outputs(ops: seq<Op>, m: Plain): seq<Option<Value>> {
    if ops == [] then []
    else Outputs(ops[..|ops| - 1], m) + Reply(ops[|ops| - 1], After(ops[..|ops| - 1], m))
  }

  /** The plain map shows the newest writes, deletes left out. */
  ghost predicate Mirrors(last: Writes, m: Plain) {
    forall k :: Answer(Latest(last, k)) == ValueOf(m, k)
  }

  lemma MirrorWrite(last: Writes, m: Plain, e: Entry)
    requires Mirrors(last, m)
    ensures Mirrors(last[e.key := e], if e.deleted then m - {e.key} else m[e.key := e.value])
  {
    var n := if e.deleted then m - {e.key} else m[e.key := e.value];
    forall k ensures Answer(Latest(last[e.key := e], k)) == ValueOf(n, k) {
      assert Answer(Latest(last, k)) == ValueOf(m, k);
    }
  }

  lemma Step(ops: seq<Op>, m: Plain, i: nat)
    requires i < |ops|
    ensures After(ops[..i + 1], m) == Effect(ops[i], After(ops[..i], m))
    ensures Outputs(ops[..i + 1], m) == Outputs(ops[..i], m) + Reply(ops[i], After(ops[..i], m))
  {
    assert ops[..i + 1][..i] == ops[..i];
  }
}
