/**
 * The graph builder, `load_graph`: every line of the input that holds
 * exactly two tokens parsing as `usize` becomes one directed edge. The file
 * itself is not modelled; the lines it yields are the input.
 */
module Loader {
  import opened Graphs

  /** `usize::MAX` on a 64-bit target. */
  const UsizeMax: nat := 0xFFFF_FFFF_FFFF_FFFF

  /** `char::is_whitespace`: the characters with the Unicode White_Space property. */
  predicate IsWhitespace(c: char) {
    ('\U{9}' <= c <= '\U{D}') || c == ' ' || c == '\U{85}' || c == '\U{A0}' ||
    c == '\U{1680}' || ('\U{2000}' <= c <= '\U{200A}') || c == '\U{2028}' || c == '\U{2029}' ||
    c == '\U{202F}' || c == '\U{205F}' || c == '\U{3000}'
  }

  /** A token `split_whitespace` can yield: non-empty, with no whitespace in it. */
  predicate IsWord(w: string) {
    w != [] && forall j :: 0 <= j < |w| ==> !IsWhitespace(w[j])
  }

  /** The characters of s that are not whitespace, in order. */
  function Solid(s: string): string {
    if s == [] then [] else (if IsWhitespace(s[0]) then [] else [s[0]]) + Solid(s[1..])
  }

  function Concat(ws: seq<string>): string {
    if ws == [] then [] else ws[0] + Concat(ws[1..])
  }

  /** The words of s, the pending characters `cur` of a word begun before s. */
  function WordsFrom(s: string, cur: string): (ws: seq<string>)
    requires forall j :: 0 <= j < |cur| ==> !IsWhitespace(cur[j])
    ensures forall i :: 0 <= i < |ws| ==> IsWord(ws[i])
    decreases |s|
  {
    if s == [] then (if cur == [] then [] else [cur])
    else if IsWhitespace(s[0]) then (if cur == [] then [] else [cur]) + WordsFrom(s[1..], [])
    else WordsFrom(s[1..], cur + [s[0]])
  }

  /** `line.split_whitespace()`: the maximal runs of non-whitespace characters. */
  function Words(line: string): (ws: seq<string>)
    ensures forall i :: 0 <= i < |ws| ==> IsWord(ws[i])
  {
    WordsFrom(line, [])
  }

  lemma {:induction false} WordsFromSolid(s: string, cur: string)
    requires forall j :: 0 <= j < |cur| ==> !IsWhitespace(cur[j])
    ensures Concat(WordsFrom(s, cur)) == cur + Solid(s)
    decreases |s|
  {
    if s == [] {
      assert Concat([cur]) == cur + Concat([]);
    } else if IsWhitespace(s[0]) {
      WordsFromSolid(s[1..], []);
      var head := if cur == [] then [] else [cur];
      ConcatAppend(head, WordsFrom(s[1..], []));
      if cur != [] {
        assert Concat([cur]) == cur + Concat([]);
      }
    } else {
      WordsFromSolid(s[1..], cur + [s[0]]);
    }
  }

  lemma {:induction false} ConcatAppend(xs: seq<string>, ys: seq<string>)
    ensures Concat(xs + ys) == Concat(xs) + Concat(ys)
  {
    if xs != [] {
      assert (xs + ys)[1..] == xs[1..] + ys;
      ConcatAppend(xs[1..], ys);
    } else {
      assert xs + ys == ys;
    }
  }

  /** Splitting loses and reorders nothing but whitespace. */
  lemma WordsSolid(line: string)
    ensures Concat(Words(line)) == Solid(line)
  {
    WordsFromSolid(line, []);
  }

  predicate IsDigit(c: char) {
    '0' <= c <= '9'
  }

  predicate AllDigits(ds: string) {
    forall i :: 0 <= i < |ds| ==> IsDigit(ds[i])
  }

  /** The number a string of decimal digits denotes. */
  function DigitsValue(ds: string): nat
    requires AllDigits(ds)
  {
    if ds == [] then 0 else 10 * DigitsValue(ds[..|ds| - 1]) + (ds[|ds| - 1] as int - '0' as int)
  }

  /**
   * `token.parse::<usize>()`: an optional '+', then one or more decimal
   * digits whose value fits in a `usize`; anything else is an error.
   */
  function ParseUsize(t: string): (r: Option<nat>)
    ensures r.Some? ==> r.value <= UsizeMax
  {
    var ds := if |t| > 0 && t[0] == '+' then t[1..] else t;
    if ds == [] || !AllDigits(ds) then None
    else if DigitsValue(ds) > UsizeMax then None
    else Some(DigitsValue(ds))
  }

  /** The decimal rendering of x, without sign or leading zeros. */
  function Show(x: nat): (s: string)
    ensures s != [] && AllDigits(s)
  {
    (if x < 10 then [] else Show(x / 10)) + ['0' + (x % 10) as char]
  }

  lemma {:induction false} ShowValue(x: nat)
    ensures DigitsValue(Show(x)) == x
  {
    var s := Show(x);
    assert s[..|s| - 1] == if x < 10 then [] else Show(x / 10);
    if x >= 10 {
      ShowValue(x / 10);
    }
  }

  /** Every `usize` parses back from its decimal form, with or without '+'. */
  lemma ParseShow(x: nat)
    requires x <= UsizeMax
    ensures ParseUsize(Show(x)) == Some(x)
    ensures ParseUsize("+" + Show(x)) == Some(x)
  {
    ShowValue(x);
    assert ("+" + Show(x))[1..] == Show(x);
  }

  /** A sign other than a single '+' and a value beyond `usize::MAX` are rejected. */
  lemma ParseRejects(x: nat)
    ensures ParseUsize("-" + Show(x)) == None
    ensures ParseUsize("++" + Show(x)) == None
    ensures x > UsizeMax ==> ParseUsize(Show(x)) == None
  {
    assert !IsDigit(("-" + Show(x))[0]);
    assert ("++" + Show(x))[1..] == "+" + Show(x);
    assert !IsDigit(("+" + Show(x))[0]);
    ShowValue(x);
  }

  /** `filter_map(|s| s.parse().ok())`: the tokens that parse, as numbers, in order. */
  function ParseAll(ws: seq<string>): (ns: seq<nat>)
    ensures |ns| <= |ws|
    ensures forall i :: 0 <= i < |ns| ==> ns[i] <= UsizeMax
  {
    if ws == [] then []
    else (if ParseUsize(ws[0]).Some? then [ParseUsize(ws[0]).value] else []) + ParseAll(ws[1..])
  }

  /** How many of the tokens parse. */
  function Parsable(ws: seq<string>): nat {
    if ws == [] then 0 else (if ParseUsize(ws[0]).Some? then 1 else 0) + Parsable(ws[1..])
  }

  /** Parsing keeps the tokens of a concatenation apart: it is a homomorphism. */
  lemma {:induction false} ParseAllAppend(xs: seq<string>, ys: seq<string>)
    ensures ParseAll(xs + ys) == ParseAll(xs) + ParseAll(ys)
  {
    if xs == [] {
      assert xs + ys == ys;
    } else {
      assert (xs + ys)[0] == xs[0] && (xs + ys)[1..] == xs[1..] + ys;
      ParseAllAppend(xs[1..], ys);
    }
  }

  /** One token gives its value when it parses and nothing otherwise. */
  lemma ParseAllOne(w: string)
    ensures ParseAll([w]) == if ParseUsize(w).Some? then [ParseUsize(w).value] else []
  {
    assert [w][1..] == [];
  }

  lemma {:induction false} ParseAllCount(ws: seq<string>)
    ensures |ParseAll(ws)| == Parsable(ws)
  {
    if ws != [] {
      ParseAllCount(ws[1..]);
    }
  }

  /** The numbers on a line. */
  function Numbers(line: string): seq<nat> {
    ParseAll(Words(line))
  }

  /** `graph.node_indices().find(|&n| n.index() == node1)`, scanning indices k .. n-1. */
  function FindFrom(k: nat, n: nat, name: nat): Option<nat>
    decreases n - k
  {
    if k >= n then None else if k == name then Some(k) else FindFrom(k + 1, n, name)
  }

  function FindNode(g: Graph, name: nat): Option<nat> {
    FindFrom(0, g.n, name)
  }

  lemma {:induction false} FindFromSpec(k: nat, n: nat, name: nat)
    ensures FindFrom(k, n, name) == if k <= name < n then Some(name) else None
    decreases n - k
  {
    if k < n && k != name {
      FindFromSpec(k + 1, n, name);
    }
  }

  /** A label is found exactly when it is already a node index, and then it is that index. */
  lemma FindNodeSpec(g: Graph, name: nat)
    ensures FindNode(g, name).Some? <==> name < g.n
    ensures FindNode(g, name).Some? ==> FindNode(g, name).value == name
  {
    FindFromSpec(0, g.n, name);
  }

  /**
   * `find(..).get_or_insert_with(|| graph.add_node(()))`: the index found,
   * or a newly added node, whose index is the old node count.
   */
  function Resolve(g: Graph, name: nat): (Graph, nat) {
    match FindNode(g, name)
    case Some(i) => (g, i)
    case None => (g.AddNode(), g.n)
  }

  lemma ResolveSpec(g: Graph, name: nat)
    ensures name < g.n ==> Resolve(g, name) == (g, name)
    ensures name >= g.n ==> Resolve(g, name) == (Graph(g.n + 1, g.edges), g.n)
  {
    FindNodeSpec(g, name);
  }

  /** The effect of one line on the graph being built. */
  function AddLine(g: Graph, line: string): Graph {
    var nodes := Numbers(line);
    if |nodes| == 2 then
      var (g1, a) := Resolve(g, nodes[0]);
      var (g2, b) := Resolve(g1, nodes[1]);
      FindNodeSpec(g, nodes[0]);
      FindNodeSpec(g1, nodes[1]);
      g2.AddEdge(a, b)
    else g
  }

  /** The graph built from the lines, in order, starting from an empty graph. */
  function Load(lines: seq<string>): Graph {
    if lines == [] then Graph(0, []) else AddLine(Load(lines[..|lines| - 1]), lines[|lines| - 1])
  }

  /**
   * `load_graph` over the lines of its file: a line with exactly two
   * numbers adds the edge between the nodes they name, each reused when it
   * is already a node index and appended otherwise.
   */
  method LoadGraph(lines: seq<string>) returns (graph: Graph)
    ensures graph == Load(lines)
    ensures graph.Valid() && |graph.edges| == |Pairs(lines)|
  {
    graph := Graph(0, []);
    for i := 0 to |lines|
      invariant graph == Load(lines[..i])
    {
      var line := lines[i];
      var nodes := Numbers(line);
      if |nodes| == 2 {
        var node1, node2 := nodes[0], nodes[1];
        var node1Idx, node2Idx;
        var found := FindNode(graph, node1);
        FindNodeSpec(graph, node1);
        if found.Some? {
          node1Idx := found.value;
        } else {
          node1Idx := graph.n;
          graph := graph.AddNode();
        }
        found := FindNode(graph, node2);
        FindNodeSpec(graph, node2);
        if found.Some? {
          node2Idx := found.value;
        } else {
          node2Idx := graph.n;
          graph := graph.AddNode();
        }
        graph := graph.AddEdge(node1Idx, node2Idx);
      }
      assert lines[..i + 1][..i] == lines[..i];
    }
    assert lines[..|lines|] == lines;
    LoadShape(lines);
  }

  /**
   * One line: accepted exactly when two of its tokens parse, adding exactly
   * one edge and at most two nodes; a rejected line changes nothing. Earlier
   * edges are kept as they were.
   */
  lemma AddLineEffect(g: Graph, line: string)
    ensures var h := AddLine(g, line);
      g.n <= h.n <= g.n + 2 && h.edges[..|g.edges|] == g.edges &&
      (Parsable(Words(line)) == 2 <==> |h.edges| == |g.edges| + 1) &&
      (Parsable(Words(line)) != 2 ==> h == g)
  {
    ParseAllCount(Words(line));
    var nodes := Numbers(line);
    if |nodes| == 2 {
      ResolveSpec(g, nodes[0]);
      ResolveSpec(Resolve(g, nodes[0]).0, nodes[1]);
    }
  }

  /**
   * The two endpoints of an accepted line: a number already below the node
   * count is reused as that index, and otherwise one node, numbered with the
   * old count, is appended for it.
   */
  lemma AddLineEndpoints(g: Graph, line: string)
    requires |Numbers(line)| == 2
    ensures var a := Numbers(line)[0];
      var b := Numbers(line)[1];
      var n1 := if a < g.n then g.n else g.n + 1;
      var ia := if a < g.n then a else g.n;
      var ib := if b < n1 then b else n1;
      AddLine(g, line) == Graph(if b < n1 then n1 else n1 + 1, g.edges + [(ia, ib)])
  {
    var nodes := Numbers(line);
    ResolveSpec(g, nodes[0]);
    ResolveSpec(Resolve(g, nodes[0]).0, nodes[1]);
  }

  /** The label pairs of the accepted lines, in order. */
  function Pairs(lines: seq<string>): (ps: seq<(nat, nat)>)
    ensures |ps| <= |lines|
  {
    if lines == [] then []
    else
      var nodes := Numbers(lines[|lines| - 1]);
      Pairs(lines[..|lines| - 1]) + (if |nodes| == 2 then [(nodes[0], nodes[1])] else [])
  }

  /** The built graph is well formed, with one edge per accepted line and at most two nodes per line. */
  lemma {:induction false} LoadShape(lines: seq<string>)
    ensures Load(lines).Valid()
    ensures |Load(lines).edges| == |Pairs(lines)|
    ensures Load(lines).n <= 2 * |Pairs(lines)|
  {
    if lines != [] {
      var init := lines[..|lines| - 1];
      var line := lines[|lines| - 1];
      LoadShape(init);
      var g := Load(init);
      AddLineEffect(g, line);
      ParseAllCount(Words(line));
      if |Numbers(line)| == 2 {
        AddLineEndpoints(g, line);
      }
    }
  }

  /** A run of non-whitespace characters joins the word being read. */
  lemma {:induction false} WordsFromSolidRun(w: string, rest: string, cur: string)
    requires forall j :: 0 <= j < |cur| ==> !IsWhitespace(cur[j])
    requires forall j :: 0 <= j < |w| ==> !IsWhitespace(w[j])
    ensures WordsFrom(w + rest, cur) == WordsFrom(rest, cur + w)
    decreases |w|
  {
    if w == [] {
      assert w + rest == rest && cur + w == cur;
    } else {
      assert (w + rest)[0] == w[0] && (w + rest)[1..] == w[1..] + rest;
      WordsFromSolidRun(w[1..], rest, cur + [w[0]]);
      assert cur + [w[0]] + w[1..] == cur + w;
    }
  }

  /** An empty line has no words, and whitespace before the first word is skipped. */
  lemma WordsSkip(c: char, s: string)
    requires IsWhitespace(c)
    ensures Words([]) == []
    ensures Words([c] + s) == Words(s)
  {
    assert ([c] + s)[0] == c && ([c] + s)[1..] == s;
  }

  /** A word on its own is one token. */
  lemma WordsSingle(w: string)
    requires IsWord(w)
    ensures Words(w) == [w]
  {
    var e: string := [];
    WordsFromSolidRun(w, [], e);
    assert w + [] == w && e + w == w;
  }

  /** A word ends at the first whitespace character after it; the rest of the line is split on its own. */
  lemma WordsSplit(w: string, c: char, s: string)
    requires IsWord(w) && IsWhitespace(c)
    ensures Words(w + [c] + s) == [w] + Words(s)
  {
    var e: string := [];
    assert w + [c] + s == w + ([c] + s);
    WordsFromSolidRun(w, [c] + s, e);
    assert e + w == w;
    assert ([c] + s)[0] == c && ([c] + s)[1..] == s;
  }

  /** Two words with one space between them split into those two words. */
  lemma TwoWords(a: string, b: string)
    requires IsWord(a) && IsWord(b)
    ensures Words(a + " " + b) == [a, b]
  {
    var e: string := [];
    assert a + " " + b == a + (" " + b);
    WordsFromSolidRun(a, " " + b, e);
    assert e + a == a;
    assert (" " + b)[0] == ' ' && (" " + b)[1..] == b;
    assert WordsFrom(" " + b, a) == [a] + WordsFrom(b, []);
    WordsFromSolidRun(b, [], e);
    assert b + [] == b && e + b == b;
    assert WordsFrom([], b) == [b];
  }

  lemma ParseAllPair(x: string, y: string, a: nat, b: nat)
    requires ParseUsize(x) == Some(a) && ParseUsize(y) == Some(b)
    ensures ParseAll([x, y]) == [a, b]
  {
    var ws := [x, y];
    assert ws[1..] == [y] && ws[1..][1..] == [];
  }

  /** The line `a b` carries the numbers a and b. */
  lemma PairLine(a: nat, b: nat)
    requires a <= UsizeMax && b <= UsizeMax
    ensures Numbers(Show(a) + " " + Show(b)) == [a, b]
  {
    TwoWords(Show(a), Show(b));
    ParseShow(a);
    ParseShow(b);
    ParseAllPair(Show(a), Show(b), a, b);
  }

  /** The lines `0 1`, `1 2`, ..., `k-1 k`. */
  function PathLines(k: nat): (lines: seq<string>)
    ensures |lines| == k
  {
    if k == 0 then [] else PathLines(k - 1) + [Show(k - 1) + " " + Show(k)]
  }

  /** The edges 0 -> 1, ..., k-1 -> k. */
  function PathEdges(k: nat): (es: seq<Edge>)
    ensures |es| == k
  {
    if k == 0 then [] else PathEdges(k - 1) + [(k - 1, k)]
  }

  /** Loading a path file numbers its nodes as labelled: k + 1 nodes, k edges. */
  lemma {:induction false} LoadPath(k: nat)
    requires 0 < k < UsizeMax
    ensures Load(PathLines(k)) == Graph(k + 1, PathEdges(k))
  {
    var lines := PathLines(k);
    assert lines[..k - 1] == PathLines(k - 1);
    PairLine(k - 1, k);
    if k == 1 {
      AddLineEndpoints(Graph(0, []), lines[0]);
    } else {
      LoadPath(k - 1);
      AddLineEndpoints(Graph(k, PathEdges(k - 1)), lines[k - 1]);
    }
  }

  /** The unit tests' file `0 1`, `1 2`, `2 3`, `3 4` loads as 5 nodes and 4 edges. */
  lemma LoadTestFile()
    ensures Load(PathLines(4)).n == 5 && |Load(PathLines(4)).edges| == 4
  {
    LoadPath(4);
  }

  /**
   * Labels and node indices are conflated: the first line `a 0` with a > 0
   * gets node 0 for a, then finds label 0 below the new node count, so the
   * edge a -> 0 between two distinct labels is loaded as the self-loop 0 -> 0.
   */
  lemma LoadConflatesLabels(a: nat)
    requires 0 < a <= UsizeMax
    ensures Load([Show(a) + " " + Show(0)]) == Graph(1, [(0, 0)])
  {
    var lines := [Show(a) + " " + Show(0)];
    assert lines[..0] == [];
    PairLine(a, 0);
    AddLineEndpoints(Graph(0, []), lines[0]);
  }

  /** The node a label names, inserting it at the next free index on first sight. */
  function Intern(index: map<nat, nat>, n: nat, x: nat): (r: (map<nat, nat>, nat, nat))
    ensures x in r.0 && r.0[x] == r.2
  {
    if x in index then (index, n, index[x]) else (index[x := n], n + 1, n)
  }

  /** One accepted pair of labels, the edge between the nodes they name. */
  function AddPair(g: Graph, index: map<nat, nat>, a: nat, b: nat): (Graph, map<nat, nat>) {
    var (index1, n1, ia) := Intern(index, g.n, a);
    var (index2, n2, ib) := Intern(index1, n1, b);
    (Graph(n2, g.edges + [(ia, ib)]), index2)
  }

  /**
   * The builder with an explicit label-to-node mapping: each label is
   * interned on first sight, in first-seen order, and every edge joins the
   * nodes of its two labels.
   */
  function LoadLabelled(lines: seq<string>): (Graph, map<nat, nat>) {
    if lines == [] then (Graph(0, []), map[])
    else
      var (g, index) := LoadLabelled(lines[..|lines| - 1]);
      var nodes := Numbers(lines[|lines| - 1]);
      if |nodes| == 2 then AddPair(g, index, nodes[0], nodes[1]) else (g, index)
  }

  /** The mapping is a bijection from the labels seen onto the node indices. */
  ghost predicate Bijective(g: Graph, index: map<nat, nat>) {
    g.n == |index| &&
    (forall x :: x in index ==> index[x] < g.n) &&
    (forall x, y :: x in index && y in index && index[x] == index[y] ==> x == y)
  }

  /** The labels mapped are those the pairs mention. */
  ghost predicate Mentions(index: map<nat, nat>, ps: seq<(nat, nat)>) {
    forall x :: x in index <==> exists i :: 0 <= i < |ps| && (ps[i].0 == x || ps[i].1 == x)
  }

  /** Edge i joins the nodes of the labels of pair i. */
  ghost predicate Images(g: Graph, index: map<nat, nat>, ps: seq<(nat, nat)>) {
    |g.edges| == |ps| &&
    forall i :: 0 <= i < |ps| ==> ps[i].0 in index && ps[i].1 in index && g.edges[i] == (index[ps[i].0], index[ps[i].1])
  }

  lemma InternBijective(g: Graph, index: map<nat, nat>, x: nat)
    requires Bijective(g, index)
    ensures var r := Intern(index, g.n, x);
      Bijective(Graph(r.1, g.edges), r.0) &&
      (forall y :: y in r.0 <==> y in index || y == x) &&
      (forall y :: y in index ==> r.0[y] == index[y])
  {
    if x !in index {
      assert |index[x := g.n]| == |index| + 1;
    }
  }

  lemma AddPairBijective(g: Graph, index: map<nat, nat>, a: nat, b: nat)
    requires Bijective(g, index)
    ensures Bijective(AddPair(g, index, a, b).0, AddPair(g, index, a, b).1)
    ensures forall y :: y in AddPair(g, index, a, b).1 <==> y in index || y == a || y == b
    ensures forall y :: y in index ==> AddPair(g, index, a, b).1[y] == index[y]
  {
    var (index1, n1, ia) := Intern(index, g.n, a);
    InternBijective(g, index, a);
    InternBijective(Graph(n1, g.edges), index1, b);
  }

  lemma AddPairImages(g: Graph, index: map<nat, nat>, ps: seq<(nat, nat)>, a: nat, b: nat)
    requires Images(g, index, ps)
    ensures Images(AddPair(g, index, a, b).0, AddPair(g, index, a, b).1, ps + [(a, b)])
  {
    var (index1, n1, ia) := Intern(index, g.n, a);
    var (index2, n2, ib) := Intern(index1, n1, b);
    assert forall y :: y in index ==> y in index2 && index2[y] == index[y];
    var qs := ps + [(a, b)];
    var es := g.edges + [(ia, ib)];
    assert forall i :: 0 <= i < |ps| ==> qs[i] == ps[i] && es[i] == g.edges[i];
  }

  lemma AddPairMentions(index: map<nat, nat>, index2: map<nat, nat>, ps: seq<(nat, nat)>, a: nat, b: nat)
    requires Mentions(index, ps)
    requires forall y :: y in index2 <==> y in index || y == a || y == b
    ensures Mentions(index2, ps + [(a, b)])
  {
    var qs := ps + [(a, b)];
    forall x | x in index2 ensures exists i :: 0 <= i < |qs| && (qs[i].0 == x || qs[i].1 == x) {
      if x in index {
        var i :| 0 <= i < |ps| && (ps[i].0 == x || ps[i].1 == x);
        assert qs[i] == ps[i];
      } else {
        assert qs[|ps|] == (a, b);
      }
    }
    forall x | exists i :: 0 <= i < |qs| && (qs[i].0 == x || qs[i].1 == x) ensures x in index2 {
      var i :| 0 <= i < |qs| && (qs[i].0 == x || qs[i].1 == x);
      if i < |ps| {
        assert qs[i] == ps[i];
      }
    }
  }

  /** The mapping and graph built from the accepted pairs ps agree with them. */
  ghost predicate Faithful(g: Graph, index: map<nat, nat>, ps: seq<(nat, nat)>) {
    Bijective(g, index) && Mentions(index, ps) && Images(g, index, ps)
  }

  lemma AddPairFaithful(g: Graph, index: map<nat, nat>, ps: seq<(nat, nat)>, a: nat, b: nat)
    requires Faithful(g, index, ps)
    ensures Faithful(AddPair(g, index, a, b).0, AddPair(g, index, a, b).1, ps + [(a, b)])
  {
    AddPairBijective(g, index, a, b);
    AddPairImages(g, index, ps, a, b);
    AddPairMentions(index, AddPair(g, index, a, b).1, ps, a, b);
  }

  lemma LabelledStep(lines: seq<string>)
    requires lines != []
    ensures var init := lines[..|lines| - 1];
      var nodes := Numbers(lines[|lines| - 1]);
      if |nodes| == 2 then
        LoadLabelled(lines) == AddPair(LoadLabelled(init).0, LoadLabelled(init).1, nodes[0], nodes[1]) &&
        Pairs(lines) == Pairs(init) + [(nodes[0], nodes[1])]
      else LoadLabelled(lines) == LoadLabelled(init) && Pairs(lines) == Pairs(init)
  {
  }

  /**
   * The corrected builder keeps the structure of the file: a bijection from
   * the labels mentioned onto the nodes, so the node count is the number of
   * distinct labels, and one edge per accepted line, joining its labels' nodes.
   */
  lemma {:induction false} LoadLabelledFaithful(lines: seq<string>)
    ensures Faithful(LoadLabelled(lines).0, LoadLabelled(lines).1, Pairs(lines))
  {
    if lines != [] {
      var init := lines[..|lines| - 1];
      LoadLabelledFaithful(init);
      var nodes := Numbers(lines[|lines| - 1]);
      LabelledStep(lines);
      if |nodes| == 2 {
        AddPairFaithful(LoadLabelled(init).0, LoadLabelled(init).1, Pairs(init), nodes[0], nodes[1]);
      }
    }
  }

  /** With the mapping, the line `a 0` loads as two nodes and the edge between them. */
  lemma LoadLabelledKeepsLabels(a: nat)
    requires 0 < a <= UsizeMax
    ensures LoadLabelled([Show(a) + " " + Show(0)]).0 == Graph(2, [(0, 1)])
  {
    var lines := [Show(a) + " " + Show(0)];
    assert lines[..0] == [];
    PairLine(a, 0);
  }
}
