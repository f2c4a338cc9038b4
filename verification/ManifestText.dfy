/** The manifest's text format: what `save` writes and `load` reads back. */
module ManifestText {
  import opened Types

  datatype NodeMeta = NodeMeta(id: NodeId, level: nat, path: string, valid: bool)

  datatype LoadState = LoadState(root: NodeId, next: NodeId, nodes: map<NodeId, NodeMeta>, maxId: NodeId)

  // ----- decimal numbers -----

  function Digit(d: nat): char
    requires d < 10
  {
    "0123456789"[d]
  }

  predicate IsDigit(c: char) {
    '0' <= c <= '9'
  }

  function DigitValue(c: char): (d: nat)
    requires IsDigit(c)
    ensures d < 10
  {
    c as nat - '0' as nat
  }

  function Decimal(n: nat): (s: string)
    ensures s != [] && forall i :: 0 <= i < |s| ==> IsDigit(s[i])
  {
    if n < 10 then [Digit(n)] else Decimal(n / 10) + [Digit(n % 10)]
  }

  function NumberOf(s: string): nat
    requires forall i :: 0 <= i < |s| ==> IsDigit(s[i])
  {
    if s == [] then 0 else 10 * NumberOf(s[..|s| - 1]) + DigitValue(s[|s| - 1])
  }

  lemma {:induction false} DecimalRoundTrip(n: nat)
    ensures NumberOf(Decimal(n)) == n
  {
    if n < 10 {
      assert Decimal(n)[..0] == [];
      assert DigitValue(Digit(n)) == n;
    } else {
      DecimalRoundTrip(n / 10);
      var s := Decimal(n);
      assert s[..|s| - 1] == Decimal(n / 10);
      assert DigitValue(Digit(n % 10)) == n % 10;
    }
  }

  // ----- tokens -----

  predicate IsSpace(c: char) {
    c == ' ' || c == '\n' || c == '\t' || c == '\r'
  }

  predicate NoSpace(s: string) {
    forall i :: 0 <= i < |s| ==> !IsSpace(s[i])
  }

  function SkipSpaces(s: string): string {
    if s != [] && IsSpace(s[0]) then SkipSpaces(s[1..]) else s
  }

  function WordLength(s: string): (n: nat)
    ensures n <= |s| && forall i :: 0 <= i < n ==> !IsSpace(s[i])
  {
    if s == [] || IsSpace(s[0]) then 0 else 1 + WordLength(s[1..])
  }

  function DigitCount(s: string): (n: nat)
    ensures n <= |s| && forall i :: 0 <= i < n ==> IsDigit(s[i])
  {
    if s == [] || !IsDigit(s[0]) then 0 else 1 + DigitCount(s[1..])
  }

  function ReadWord(s: string): (string, string) {
    var t := SkipSpaces(s);
    (t[..WordLength(t)], t[WordLength(t)..])
  }

  function ReadNumber(s: string): (nat, string) {
    var t := SkipSpaces(s);
    (NumberOf(t[..DigitCount(t)]), t[DigitCount(t)..])
  }

  /** `getline`: the text before the first newline and the text after it. */
  function LineLength(s: string): (n: nat)
    ensures n <= |s| && forall i :: 0 <= i < n ==> s[i] != '\n'
    ensures n < |s| ==> s[n] == '\n'
  {
    if s == [] || s[0] == '\n' then 0 else 1 + LineLength(s[1..])
  }

  function NextLine(s: string): (r: (string, string))
    requires s != []
    ensures |r.1| < |s|
  {
    var n := LineLength(s);
    (s[..n], if n < |s| then s[n + 1..] else [])
  }

  lemma {:induction false} WordEnds(w: string, rest: string)
    requires NoSpace(w) && (rest == [] || IsSpace(rest[0]))
    ensures WordLength(w + rest) == |w|
  {
    if w == [] {
      assert w + rest == rest;
    } else {
      assert (w + rest)[1..] == w[1..] + rest;
      WordEnds(w[1..], rest);
    }
  }

  lemma {:induction false} NumberEnds(w: string, rest: string)
    requires (forall i :: 0 <= i < |w| ==> IsDigit(w[i])) && (rest == [] || !IsDigit(rest[0]))
    ensures DigitCount(w + rest) == |w|
  {
    if w == [] {
      assert w + rest == rest;
    } else {
      assert (w + rest)[1..] == w[1..] + rest;
      NumberEnds(w[1..], rest);
    }
  }

  lemma ReadWordBack(w: string, rest: string)
    requires w != [] && NoSpace(w) && (rest == [] || IsSpace(rest[0]))
    ensures ReadWord(w + rest) == (w, rest) && ReadWord(" " + (w + rest)) == (w, rest)
  {
    WordEnds(w, rest);
    var s := " " + (w + rest);
    assert s[1..] == w + rest;
    assert SkipSpaces(s) == SkipSpaces(w + rest) == w + rest;
  }

  lemma ReadNumberBack(n: nat, rest: string)
    requires rest == [] || IsSpace(rest[0])
    ensures ReadNumber(" " + (Decimal(n) + rest)) == (n, rest)
  {
    var w := Decimal(n);
    NumberEnds(w, rest);
    DecimalRoundTrip(n);
    var s := " " + (w + rest);
    assert s[1..] == w + rest;
    assert SkipSpaces(s) == SkipSpaces(w + rest) == w + rest;
    assert (w + rest)[..|w|] == w && (w + rest)[|w|..] == rest;
  }

  lemma {:induction false} LineEnds(line: string, rest: string)
    requires forall i :: 0 <= i < |line| ==> line[i] != '\n'
    ensures NextLine(line + ("\n" + rest)) == (line, rest)
  {
    var s := line + ("\n" + rest);
    if line != [] {
      LineEnds(line[1..], rest);
      assert s[1..] == line[1..] + ("\n" + rest);
    }
    assert LineLength(s) == |line|;
    assert s[..|line|] == line && s[|line| + 1..] == rest;
  }

  // ----- printing -----

  function NodeLine(m: NodeMeta): string {
    "NODE" + (" " + (Decimal(m.id) + (" " + (Decimal(m.level) + (" " + (Decimal(if m.valid then 1 else 0) + (" " + m.path)))))))
  }

  function NumberLine(name: string, n: nat): string {
    name + (" " + Decimal(n))
  }

  function PrintNodes(ms: seq<NodeMeta>): string {
    if ms == [] then "" else NodeLine(ms[0]) + ("\n" + PrintNodes(ms[1..]))
  }

  /** What `save` writes; `ms` lists the records in the map's iteration order, which is unspecified. */
  function Print(root: NodeId, next: NodeId, ms: seq<NodeMeta>): string {
    "VERSION 1" + ("\n" + (NumberLine("ROOT", root) + ("\n" + (NumberLine("NEXT_ID", next) + ("\n" + PrintNodes(ms))))))
  }

  lemma Numerals()
    ensures Decimal(0) == "0" && Decimal(1) == "1" && Decimal(3) == "3" && Decimal(42) == "42"
  {
    assert Decimal(42) == Decimal(4) + "2";
  }

  /** The format at an instance: header lines and a record. */
  lemma HeaderExample()
    ensures Print(3, 42, []) == "VERSION 1\nROOT 3\nNEXT_ID 42\n"
  {
    hide Decimal;
    Numerals();
    assert NumberLine("ROOT", 3) == "ROOT 3";
    assert NumberLine("NEXT_ID", 42) == "NEXT_ID 42";
    hide NumberLine;
    assert NumberLine("NEXT_ID", 42) + ("\n" + "") == "NEXT_ID 42\n";
    assert NumberLine("ROOT", 3) + ("\n" + "NEXT_ID 42\n") == "ROOT 3\nNEXT_ID 42\n";
  }

  lemma RecordExample(path: string)
    ensures NodeLine(NodeMeta(3, 1, path, false)) == "NODE 3 1 0 " + path
  {
    hide Decimal;
    Numerals();
    assert "0" + (" " + path) == "0 " + path;
    assert "1" + (" " + ("0 " + path)) == "1 0 " + path;
    assert "3" + (" " + ("1 0 " + path)) == "3 1 0 " + path;
  }

  // ----- parsing -----

  function ParseLine(line: string, st: LoadState): LoadState {
    if line == [] || line[0] == '#' then st else
    var (token, a) := ReadWord(line);
    if token == "ROOT" then st.(root := ReadNumber(a).0)
    else if token == "NEXT_ID" then st.(next := ReadNumber(a).0)
    else if token == "NODE" then
      var (id, b) := ReadNumber(a);
      var (level, c) := ReadNumber(b);
      var (valid, d) := ReadNumber(c);
      var (path, _) := ReadWord(d);
      st.(nodes := st.nodes[id := NodeMeta(id, level, path, valid != 0)], maxId := if id > st.maxId then id else st.maxId)
    else st
  }

  function ParseText(s: string, st: LoadState): LoadState
    decreases |s|
  {
    if s == [] then st else
    var (line, rest) := NextLine(s);
    ParseText(rest, ParseLine(line, st))
  }

  /** Ids handed out after a load start above every recorded id. */
  function Finish(st: LoadState): LoadState {
    if st.maxId + 1 > st.next then st.(next := st.maxId + 1) else st
  }

  // ----- load undoes save -----

  ghost predicate Printable(m: NodeMeta) {
    m.path != [] && NoSpace(m.path)
  }

  lemma ParseNodeLine(m: NodeMeta, st: LoadState)
    requires Printable(m)
    ensures ParseLine(NodeLine(m), st) ==
            st.(nodes := st.nodes[m.id := m], maxId := if m.id > st.maxId then m.id else st.maxId)
  {
    var v := if m.valid then 1 else 0;
    var d := " " + m.path;
    var c := " " + (Decimal(v) + d);
    var b := " " + (Decimal(m.level) + c);
    var a := " " + (Decimal(m.id) + b);
    ReadWordBack("NODE", a);
    ReadNumberBack(m.id, b);
    ReadNumberBack(m.level, c);
    ReadNumberBack(v, d);
    ReadWordBack(m.path, "");
    assert m.path + "" == m.path;
  }

  lemma NodeLineHasNoNewline(m: NodeMeta)
    requires Printable(m)
    ensures forall i :: 0 <= i < |NodeLine(m)| ==> NodeLine(m)[i] != '\n'
    ensures NodeLine(m) != []
  {
    var v := if m.valid then 1 else 0;
    forall c | c in NodeLine(m) ensures c != '\n' {
      assert c in "NODE" || c == ' ' || c in Decimal(m.id) || c in Decimal(m.level) || c in Decimal(v) || c in m.path;
    }
  }

  function AddNodes(ms: seq<NodeMeta>, st: LoadState): LoadState {
    if ms == [] then st
    else AddNodes(ms[1..], st.(nodes := st.nodes[ms[0].id := ms[0]], maxId := if ms[0].id > st.maxId then ms[0].id else st.maxId))
  }

  lemma {:induction false} ParseNodes(ms: seq<NodeMeta>, st: LoadState)
    requires forall m :: m in ms ==> Printable(m)
    ensures ParseText(PrintNodes(ms), st) == AddNodes(ms, st)
  {
    if ms != [] {
      var m := ms[0];
      assert m in ms;
      NodeLineHasNoNewline(m);
      LineEnds(NodeLine(m), PrintNodes(ms[1..]));
      ParseNodeLine(m, st);
      ParseNodes(ms[1..], st.(nodes := st.nodes[m.id := m], maxId := if m.id > st.maxId then m.id else st.maxId));
    }
  }

  /** `ms` lists the records of `nodes`, each once. */
  ghost predicate Lists(ms: seq<NodeMeta>, nodes: map<NodeId, NodeMeta>) {
    && (forall m :: m in ms ==> m.id in nodes && nodes[m.id] == m)
    && (forall x :: x in nodes ==> nodes[x] in ms && nodes[x].id == x)
  }

  lemma {:induction false} AddNodesMap(ms: seq<NodeMeta>, st: LoadState, nodes: map<NodeId, NodeMeta>)
    requires forall m :: m in ms ==> m.id in nodes && nodes[m.id] == m
    requires forall x :: x in st.nodes ==> x in nodes && st.nodes[x] == nodes[x]
    requires forall x :: x in nodes ==> x in st.nodes || nodes[x] in ms
    requires forall x :: x in nodes ==> nodes[x].id == x
    ensures AddNodes(ms, st).nodes == nodes
  {
    if ms == [] {
      assert st.nodes == nodes;
    } else {
      assert ms[0] in ms && ms == [ms[0]] + ms[1..];
      AddNodesMap(ms[1..], st.(nodes := st.nodes[ms[0].id := ms[0]], maxId := if ms[0].id > st.maxId then ms[0].id else st.maxId), nodes);
    }
  }

  lemma {:induction false} AddNodesMax(ms: seq<NodeMeta>, st: LoadState)
    ensures var r := AddNodes(ms, st);
            r.root == st.root && r.next == st.next && st.maxId <= r.maxId
            && (forall m :: m in ms ==> m.id <= r.maxId)
            && (r.maxId == st.maxId || exists m :: m in ms && m.id == r.maxId)
  {
    if ms != [] {
      AddNodesMax(ms[1..], st.(nodes := st.nodes[ms[0].id := ms[0]], maxId := if ms[0].id > st.maxId then ms[0].id else st.maxId));
      assert ms[0] in ms && ms == [ms[0]] + ms[1..];
    }
  }

  lemma ParseNumberLine(name: string, n: nat, st: LoadState)
    requires name == "ROOT" || name == "NEXT_ID"
    ensures ParseLine(NumberLine(name, n), st) == if name == "ROOT" then st.(root := n) else st.(next := n)
    ensures forall i :: 0 <= i < |NumberLine(name, n)| ==> NumberLine(name, n)[i] != '\n'
  {
    ReadWordBack(name, " " + Decimal(n));
    ReadNumberBack(n, "");
    assert Decimal(n) + "" == Decimal(n);
  }

  lemma ParseVersionLine(st: LoadState)
    ensures ParseLine("VERSION 1", st) == st
  {
    assert "VERSION 1" == "VERSION" + " 1";
    ReadWordBack("VERSION", " 1");
  }

  lemma HeaderLines(root: NodeId, next: NodeId, ms: seq<NodeMeta>, st: LoadState)
    ensures ParseText(Print(root, next, ms), st) == ParseText(PrintNodes(ms), st.(root := root, next := next))
  {
    hide NumberLine;
    hide ParseLine;
    hide PrintNodes;
    var c := PrintNodes(ms);
    var b := NumberLine("NEXT_ID", next) + ("\n" + c);
    var a := NumberLine("ROOT", root) + ("\n" + b);
    ParseVersionLine(st);
    LineEnds("VERSION 1", a);
    ParseNumberLine("ROOT", root, st);
    LineEnds(NumberLine("ROOT", root), b);
    ParseNumberLine("NEXT_ID", next, st.(root := root));
    LineEnds(NumberLine("NEXT_ID", next), c);
    assert ParseText(Print(root, next, ms), st) == ParseText(a, st);
    assert ParseText(a, st) == ParseText(b, st.(root := root));
  }

  /**
   * Loading what was saved restores the root and every record, whatever order the records were
   * written in, and the next id exceeds every recorded id.
   */
  lemma LoadUndoesSave(root: NodeId, next: NodeId, ms: seq<NodeMeta>, nodes: map<NodeId, NodeMeta>)
    requires Lists(ms, nodes) && forall m :: m in ms ==> Printable(m)
    ensures var r := Finish(ParseText(Print(root, next, ms), LoadState(0, 1, map[], 0)));
            && r.root == root && r.nodes == nodes && next <= r.next
            && (forall x :: x in nodes ==> x < r.next)
            && ((forall x :: x in nodes ==> x < next) && next >= 1 ==> r.next == next)
  {
    var st := LoadState(0, 1, map[], 0);
    HeaderLines(root, next, ms, st);
    ParseNodes(ms, st.(root := root, next := next));
    AddNodesMap(ms, st.(root := root, next := next), nodes);
    AddNodesMax(ms, st.(root := root, next := next));
  }

  // ----- node file names -----

  function NodePath(dir: string, id: NodeId): string {
    dir + "/node_" + Decimal(id) + ".gst"
  }

  lemma NodePathInjective(dir: string, a: NodeId, b: NodeId)
    requires NodePath(dir, a) == NodePath(dir, b)
    ensures a == b
  {
    var n := |dir + "/node_"|;
    var p, q := NodePath(dir, a), NodePath(dir, b);
    assert p[n..|p| - 4] == Decimal(a);
    assert q[n..|q| - 4] == Decimal(b);
    DecimalRoundTrip(a);
    DecimalRoundTrip(b);
  }

  lemma NodePathPrintable(dir: string, id: NodeId)
    requires NoSpace(dir)
    ensures NodePath(dir, id) != [] && NoSpace(NodePath(dir, id))
  {
    var p := NodePath(dir, id);
    forall c | c in p ensures !IsSpace(c) {
      assert c in dir || c in "/node_" || c in Decimal(id) || c in ".gst";
    }
    forall i | 0 <= i < |p| ensures !IsSpace(p[i]) { assert p[i] in p; }
  }
}
