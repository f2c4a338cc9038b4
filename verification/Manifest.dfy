/** The manifest: node records, fresh ids, and the directory of node files it guards. */
module ManifestModel {
  import opened Types
  import opened TreeModel
  import opened ManifestText

  /** The text lists these records, in some order. */
  ghost predicate Says(text: string, root: NodeId, next: NodeId, nodes: map<NodeId, NodeMeta>) {
    exists ms :: Lists(ms, nodes) && text == Print(root, next, ms)
  }

  /** What `load` makes of a manifest file. */
  function Loaded(text: string): LoadState {
    Finish(ParseText(text, LoadState(0, 1, map[], 0)))
  }

  lemma LoadedSays(text: string, root: NodeId, next: NodeId, nodes: map<NodeId, NodeMeta>)
    requires Says(text, root, next, nodes) && next >= 1
    requires forall x :: x in nodes ==> x < next && Printable(nodes[x])
    ensures Loaded(text).root == root && Loaded(text).next == next && Loaded(text).nodes == nodes
  {
    var ms :| Lists(ms, nodes) && text == Print(root, next, ms);
    LoadUndoesSave(root, next, ms, nodes);
  }

  ghost function ValidIds(ns: map<NodeId, NodeMeta>): set<NodeId> {
    set x | x in ns && ns[x].valid
  }

  class Manifest {
    const dir: string
    var rootId: NodeId
    var nextId: NodeId
    var nodes: map<NodeId, NodeMeta>

    /**
     * The directory: node files and the text of the manifest file.  A node's file name is a
     * function of its id, and a different one for every id, so the files are indexed by id.
     */
    var files: map<NodeId, SSTNode>
    var saved: Option<string>

    /** Node files that were already there without a record when the directory was opened: none but after a crash. */
    ghost const strays: set<NodeId>

    /** The files of the valid records. */
    ghost var live: map<NodeId, SSTNode>

    /** What the manifest file says. */
    ghost var savedRoot: NodeId
    ghost var savedNext: NodeId
    ghost var savedNodes: map<NodeId, NodeMeta>

    /** Recorded ids are below `next`, and every valid record has its file. */
    ghost predicate RecordsOk(next: NodeId, ns: map<NodeId, NodeMeta>)
      reads this
    {
      && next >= 1
      && (forall x :: x in ns ==> x < next && ns[x].id == x && Printable(ns[x]))
      && (forall x :: x in ns && ns[x].valid ==> x in files)
    }

    ghost predicate Valid()
      reads this
    {
      && NoSpace(dir)
      && RecordsOk(nextId, nodes)
      && live.Keys == ValidIds(nodes)
      && (forall x :: x in files ==> files[x].id == x)
      && files.Keys <= nodes.Keys + strays
      && (forall x :: x in live ==> live[x] == files[x])
      && (saved.Some? ==> RecordsOk(savedNext, savedNodes) && savedNext <= nextId)
    }

    /** The directory holds the files of the valid records and, strays aside, no other. */
    ghost predicate Clean()
      reads this`live, this`files
    {
      live.Keys <= files.Keys <= live.Keys + strays
    }

    /** The manifest file is a faithful print of what was saved. */
    ghost predicate TextOk()
      reads this`saved, this`savedRoot, this`savedNext, this`savedNodes
    {
      saved.Some? && Says(saved.value, savedRoot, savedNext, savedNodes)
    }

    /** The last save recorded exactly the current valid nodes and root. */
    ghost predicate AtSavePoint()
      reads this
    {
      saved.Some? && savedRoot == rootId && savedNext == nextId && ValidIds(savedNodes) == live.Keys
    }

    constructor (dir: string)
      requires NoSpace(dir)
      ensures Valid() && Clean() && strays == {} && this.dir == dir && rootId == 0 && nextId == 1 && live == map[] && saved == None
    {
      this.dir := dir;
      strays := {};
      rootId, nextId, nodes := 0, 1, map[];
      files, saved, live := map[], None, map[];
      savedRoot, savedNext, savedNodes := 0, 1, map[];
    }

    /** The same directory opened again: the saved records, and the files as they are now. */
    constructor Reopen(m: Manifest)
      requires m.Valid() && m.TextOk()
      ensures Valid() && rootId == m.savedRoot && nextId == m.savedNext && nodes == m.savedNodes
      ensures live.Keys == ValidIds(m.savedNodes) && forall x :: x in live ==> live[x] == m.files[x]
      ensures strays == m.files.Keys - m.savedNodes.Keys && files == m.files
      ensures m.AtSavePoint() ==> live == m.live && nextId == m.nextId
    {
      hide Says;
      hide Printable;
      hide NoSpace;
      dir := m.dir;
      strays := m.files.Keys - m.savedNodes.Keys;
      files, saved := m.files, m.saved;
      savedRoot, savedNext, savedNodes := m.savedRoot, m.savedNext, m.savedNodes;
      live := map x | x in ValidIds(m.savedNodes) && x in m.files :: m.files[x];
      rootId, nextId, nodes := 0, 1, map[];
      new;
      Load();
    }

    /** `load` restores the saved root, next id and records. */
    method Load()
      requires TextOk() && rootId == 0 && nextId == 1 && nodes == map[]
      requires RecordsOk(savedNext, savedNodes)
      modifies this`rootId, this`nextId, this`nodes
      ensures rootId == savedRoot && nextId == savedNext && nodes == savedNodes
    {
      ReadLines();
      LoadedSays(saved.value, savedRoot, savedNext, savedNodes);
    }

    /** Reads the manifest file line by line. */
    method ReadLines()
      requires saved.Some? && rootId == 0 && nextId == 1 && nodes == map[]
      modifies this`rootId, this`nextId, this`nodes
      ensures rootId == Loaded(saved.value).root && nextId == Loaded(saved.value).next && nodes == Loaded(saved.value).nodes
    {
      var text := saved.value;
      var st := LoadState(rootId, nextId, nodes, 0);
      while text != []
        invariant ParseText(text, st) == ParseText(saved.value, LoadState(0, 1, map[], 0))
        decreases |text|
      {
        var (line, rest) := NextLine(text);
        st := ParseLine(line, st);
        text := rest;
      }
      rootId, nextId, nodes := st.root, st.next, st.nodes;
      if st.maxId + 1 > nextId {
        nextId := st.maxId + 1;
      }
    }

    /** Lists the records in some order. */
    method Enumerate() returns (ms: seq<NodeMeta>)
      requires Valid()
      ensures Lists(ms, nodes)
    {
      ms := [];
      var left := nodes.Keys;
      while left != {}
        invariant left <= nodes.Keys
        invariant forall m :: m in ms ==> m.id in nodes && nodes[m.id] == m
        invariant forall x :: x in nodes && x !in left ==> nodes[x] in ms
        decreases left
      {
        var x :| x in left;
        ms := ms + [nodes[x]];
        left := left - {x};
      }
    }

    method Save()
      requires Valid()
      modifies this`saved, this`savedRoot, this`savedNext, this`savedNodes
      ensures Valid() && AtSavePoint() && TextOk() && savedNodes == nodes
    {
      var ms := Enumerate();
      saved := Some(Print(rootId, nextId, ms));
      savedRoot, savedNext, savedNodes := rootId, nextId, nodes;
    }

    method NextNodeId() returns (id: NodeId)
      requires Valid()
      modifies this`nextId
      ensures Valid() && id == old(nextId) && nextId == id + 1 && id !in live
      ensures (forall x :: x in nodes ==> x < id) && (saved.Some? ==> forall x :: x in savedNodes ==> x < id)
    {
      id := nextId;
      nextId := nextId + 1;
    }

    /** `write_file` followed by `register_node`: the node's file, replaced if there was one, and a valid record. */
    method Install(n: SSTNode)
      requires Valid() && n.id < nextId
      modifies this`files, this`nodes, this`live
      ensures Valid() && live == old(live)[n.id := n] && files == old(files)[n.id := n]
      ensures nodes == old(nodes)[n.id := NodeMeta(n.id, n.level, NodePath(dir, n.id), true)]
      ensures old(Clean()) ==> Clean()
    {
      NodePathPrintable(dir, n.id);
      files := files[n.id := n];
      nodes := nodes[n.id := NodeMeta(n.id, n.level, NodePath(dir, n.id), true)];
      live := live[n.id := n];
    }

    /** `invalidate_node`: the record stays, marked stale, until the next gc. */
    method Invalidate(id: NodeId)
      requires Valid()
      modifies this`nodes, this`live
      ensures Valid() && live == old(live) - {id}
      ensures nodes == if id in old(nodes) then old(nodes)[id := old(nodes)[id].(valid := false)] else old(nodes)
    {
      if id in nodes {
        nodes := nodes[id := nodes[id].(valid := false)];
      }
      live := live - {id};
      assert live.Keys == ValidIds(nodes);
    }

    method SetRoot(id: NodeId)
      requires Valid()
      modifies this`rootId
      ensures Valid() && rootId == id
    {
      rootId := id;
    }

    /**
     * Deletes the files of stale records and forgets the records.  As long as no record that the
     * saved manifest marks valid has gone stale since, no file that manifest needs is removed.
     */
    method Gc()
      requires Valid()
      requires saved.Some? ==> ValidIds(savedNodes) <= live.Keys
      modifies this`nodes, this`files
      ensures Valid() && Clean()
      ensures files == old(files) - Stale(old(nodes))
      ensures nodes == old(nodes) - Stale(old(nodes))
    {
      Sweep();
    }

    /** `save` then `gc`, the order in which the tree always calls them. */
    method SaveAndGc()
      requires Valid()
      modifies this`saved, this`savedRoot, this`savedNext, this`savedNodes, this`nodes, this`files
      ensures Valid() && AtSavePoint() && TextOk() && Clean()
    {
      Save();
      Gc();
    }

    method Sweep()
      modifies this`nodes, this`files
      ensures nodes == old(nodes) - Stale(old(nodes))
      ensures files == old(files) - Stale(old(nodes))
    {
      var todo := nodes.Keys;
      ghost var gone: set<NodeId> := {};
      while todo != {}
        invariant todo <= nodes.Keys && gone == Stale(old(nodes)) - todo
        invariant nodes == old(nodes) - gone
        invariant files == old(files) - gone
        decreases todo
      {
        var x :| x in todo;
        if !nodes[x].valid {
          files := files - {x};
          nodes := nodes - {x};
          gone := gone + {x};
        }
        todo := todo - {x};
      }
      assert gone == Stale(old(nodes));
    }
  }

  ghost function Stale(ns: map<NodeId, NodeMeta>): set<NodeId> {
    set x | x in ns && !ns[x].valid
  }
}
