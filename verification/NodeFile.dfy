/** Tree nodes in files: why the directory may be seen as a map from ids to nodes. */
module NodeFile {
  import opened Types
  import opened TreeModel
  import opened ByteCodec
  import opened Bloom
  import opened Codec

  /** The node as the file holds it; `rest` is whatever the unused child slots contain. */
  function ToFile(n: SSTNode, f: Option<Filter>, rest: seq<nat>): FileNode {
    FileNode(n.id, n.level, |n.childIds|, n.childIds + rest, n.minKey, n.maxKey, f, n.buffer, [])
  }

  function FromFile(x: FileNode): SSTNode {
    SSTNode(x.id, x.level, if x.numChildren <= |x.slots| then x.slots[..x.numChildren] else x.slots, x.minKey, x.maxKey, x.entries)
  }

  /** Writing a node and loading it again gives the node back; the header alone lacks the entries. */
  method WriteAndLoad(n: SSTNode, f: Option<Filter>, rest: seq<nat>, full: bool) returns (r: Result<SSTNode>)
    requires Fits(ToFile(n, f, rest))
    ensures r == Ok(if full then n else n.(buffer := []))
  {
    hide Fits;
    hide Encode;
    hide TrueIndex;
    var raw := WriteFile(ToFile(n, f, rest));
    var x := ReadFile(raw, full, ToFile(n, f, rest));
    assert (n.childIds + rest)[..|n.childIds|] == n.childIds;
    r := Ok(FromFile(x.value));
  }
}
