/** The loops of `insert_child` and the write-buffer drain, each against what it computes. */
module TreeOps {
  import opened Types
  import opened TreeSplit

  /** First position of an id, or the length of the list. */
  method Find(ids: seq<NodeId>, x: NodeId) returns (pos: nat)
    ensures pos <= |ids| && (forall j :: 0 <= j < pos ==> ids[j] != x) && (pos < |ids| ==> ids[pos] == x)
  {
    pos := 0;
    while pos < |ids| && ids[pos] != x
      invariant pos <= |ids| && forall j :: 0 <= j < pos ==> ids[j] != x
    {
      pos := pos + 1;
    }
  }

  /** A parent with room: everything after the old child moves one slot right, one slot at a time. */
  method ShiftIn(ids: seq<NodeId>, pos: nat, left: NodeId, right: NodeId) returns (out: seq<NodeId>)
    requires pos < |ids|
    ensures out == ids[..pos] + [left, right] + ids[pos + 1..]
  {
    out := ids + [0];
    var j := |ids|;
    while j > pos + 1
      invariant pos + 1 <= j <= |ids| && |out| == |ids| + 1
      invariant out[..j] == ids[..j] && out[j + 1..] == ids[j..]
    {
      ghost var was := out;
      out := out[j := out[j - 1]];
      assert out[..j - 1] == was[..j][..j - 1];
      assert out[j..] == [was[j - 1]] + was[j + 1..];
      j := j - 1;
    }
    ghost var was := out;
    out := out[pos := left][pos + 1 := right];
    assert out[..pos] == was[..pos + 1][..pos] && out[pos + 2..] == was[pos + 2..];
    assert out == out[..pos] + [left, right] + out[pos + 2..];
  }

  /** Divides a buffer at the right half's minimum key, keeping the order on both sides. */
  method DivideBuffer(s: seq<Entry>, m: Key) returns (l: seq<Entry>, r: seq<Entry>)
    ensures l == KeysBelow(s, m) && r == KeysFrom(s, m)
  {
    l, r := [], [];
    ghost var x, y := KeysBelow(s, m), KeysFrom(s, m);
    for i := 0 to |s|
      invariant l + x == KeysBelow(s, m) && r + y == KeysFrom(s, m)
      invariant x == KeysBelow(s[i..], m) && y == KeysFrom(s[i..], m)
    {
      assert s[i..][1..] == s[i + 1..];
      x, y := KeysBelow(s[i + 1..], m), KeysFrom(s[i + 1..], m);
      if KeyLess(s[i].key, m) {
        assert l + ([s[i]] + x) == (l + [s[i]]) + x;
        l := l + [s[i]];
      } else {
        assert r + ([s[i]] + y) == (r + [s[i]]) + y;
        r := r + [s[i]];
      }
    }
  }
}
