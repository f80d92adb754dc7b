/**
 * The value-level model of the DAG builder in structs.go: the node record,
 * the declaration parser, one ingestion step, the fold over all
 * declarations, and the bisector score. The imperative code in module
 * DagBuilder is proved equal to these functions; the lemmas here state what
 * they mean.
 */
module DagModel {
  import opened Wrappers
  import opened GoStrings

  /**
   * A node: its name, its declared parents in order, and its `ancestors`
   * map. Go stores `*Node` pointers as the map's values; the model keeps the
   * name of the node pointed to.
   */
  datatype Node = Node(name: string, parents: seq<string>, ancestors: map<string, string>)

  datatype DagError =
    | UnknownParent(child: string, parent: string)  // addNode: a parent is not in the graph yet
    | NodeNotFound(name: string)                    // GetAncestors: no node of that name

  /** `newNode`: parse a declaration "name: p1, p2, ...". */
  function ParseDecl(s: string): (n: Node)
    ensures Fresh(n)
  {
    var fields := Split(s, ':');
    var name := TrimSpace(fields[0]);
    var parents := if |fields| > 1 && fields[1] != "" then TrimEach(Split(fields[1], ',')) else [];
    Node(name, parents, map[name := name])
  }

  /** Each piece trimmed, in order. */
  function TrimEach(pieces: seq<string>): (r: seq<string>)
    ensures |r| == |pieces|
    ensures forall k :: 0 <= k < |pieces| ==> r[k] == TrimSpace(pieces[k])
  {
    if pieces == [] then [] else [TrimSpace(pieces[0])] + TrimEach(pieces[1..])
  }

  /** The text between the first and the second ':' of `s`, if `s` has a ':'. */
  function ParentField(s: string): Option<string> {
    var i := IndexFrom(s, ':', 0);
    if i == |s| then None else Some(s[i + 1..IndexFrom(s, ':', i + 1)])
  }

  /**
   * What a parsed declaration holds: the name is the trimmed text before the
   * first ':'; there are no parents when there is no ':' or nothing follows
   * it before the next ':'; otherwise there is one trimmed parent per
   * comma-separated piece of that text, in order, empty pieces included;
   * and the ancestors map has the node's own name as its only key.
   */
  lemma ParseDeclFields(s: string)
    ensures ParseDecl(s).name == TrimSpace(s[..IndexFrom(s, ':', 0)])
    ensures ParentField(s).None? || ParentField(s) == Some("") ==> ParseDecl(s).parents == []
    ensures ParentField(s).Some? && ParentField(s).value != "" ==>
      var pieces := Split(ParentField(s).value, ',');
      |ParseDecl(s).parents| == |pieces| &&
      forall k :: 0 <= k < |pieces| ==> ParseDecl(s).parents[k] == TrimSpace(pieces[k])
    ensures ParseDecl(s).ancestors.Keys == {ParseDecl(s).name}
    ensures Fresh(ParseDecl(s))
  {
    SplitFields(s);
  }

  /** The first two pieces of Split(s, ':') are the text before the first ':' and ParentField(s). */
  lemma SplitFields(s: string)
    ensures var fields := Split(s, ':');
      && fields[0] == s[..IndexFrom(s, ':', 0)]
      && (|fields| > 1 <==> ParentField(s).Some?)
      && (|fields| > 1 ==> fields[1] == ParentField(s).value)
  {
    var i := IndexFrom(s, ':', 0);
    var fields := Split(s, ':');
    assert fields[0] == s[..i];
    if i < |s| {
      var j := IndexFrom(s, ':', i + 1);
      assert fields[1] == SplitFrom(s, ':', i + 1)[0];
      assert j == |s| ==> s[i + 1..] == s[i + 1..j];
    }
  }

  /** Anything after a second ':' is ignored: `newNode` reads only the first two fields. */
  lemma ExtraFieldIgnored(d: string, t: string)
    requires ':' in d
    ensures ParseDecl(d + ":" + t) == ParseDecl(d)
  {
    var s := d + ":" + t;
    var i := IndexFrom(d, ':', 0);
    assert i < |d| by {
      var w :| 0 <= w < |d| && d[w] == ':';
    }
    IndexFromIs(s, ':', 0, i);
    var j := IndexFrom(d, ':', i + 1);
    IndexFromIs(s, ':', i + 1, j);
    assert s[..i] == d[..i];
    assert s[i + 1..j] == d[i + 1..j];
    SplitFields(s);
    SplitFields(d);
  }

  /** Each parent preceded by a blank: the pieces between the commas of "p1, p2, ...". */
  function Padded(ps: seq<string>): (r: seq<string>)
    ensures |r| == |ps|
  {
    seq(|ps|, i requires 0 <= i < |ps| => " " + ps[i])
  }

  /** The declaration "name: p1, p2, ..." of a node, or "name:" when it has no parents. */
  function Declaration(name: string, parents: seq<string>): string {
    name + ":" + (if parents == [] then "" else Join(Padded(parents), ','))
  }

  /**
   * `newNode` reads back what Declaration writes, as long as the name and
   * the parents have no white space at either end, the name has no ':', and
   * no parent has a ':' or a ','.
   */
  lemma ParseDeclaration(name: string, parents: seq<string>)
    requires Trimmed(name) && ':' !in name
    requires forall k :: 0 <= k < |parents| ==> Trimmed(parents[k]) && ':' !in parents[k] && ',' !in parents[k]
    ensures ParseDecl(Declaration(name, parents)) == Node(name, parents, map[name := name])
  {
    var s := Declaration(name, parents);
    var rest := if parents == [] then "" else Join(Padded(parents), ',');
    assert s == name + ":" + rest;
    if parents != [] {
      ParsePadded(parents);
    }
    SplitAtColon(name, rest);
    TrimSpaceUnique(name, 0, name);
    assert Split(s, ':') == [name, rest];
    assert ParseDecl(s).parents == if rest != "" then TrimEach(Split(rest, ',')) else [];
  }

  /** Text with a single ':' splits into the parts before and after it. */
  lemma SplitAtColon(name: string, rest: string)
    requires ':' !in name && ':' !in rest
    ensures Split(name + ":" + rest, ':') == [name, rest]
  {
    assert Join([name, rest], ':') == name + ":" + rest;
    SplitJoin([name, rest], ':');
  }

  /** "name:" declares a node with no parents. */
  lemma ParseNoParents(name: string)
    requires Trimmed(name) && ':' !in name
    ensures ParseDecl(name + ":") == Node(name, [], map[name := name])
  {
    assert Declaration(name, []) == name + ":";
    ParseDeclaration(name, []);
  }

  /** "name: p" declares a node with the one parent p. */
  lemma ParseOneParent(name: string, p: string)
    requires Trimmed(name) && ':' !in name
    requires Trimmed(p) && ':' !in p && ',' !in p
    ensures ParseDecl(name + ": " + p) == Node(name, [p], map[name := name])
  {
    assert Padded([p]) == [" " + p];
    assert Declaration(name, [p]) == name + ": " + p;
    ParseDeclaration(name, [p]);
  }

  /** "name: p, q" declares a node with the parents p and q, in that order. */
  lemma ParseTwoParents(name: string, p: string, q: string)
    requires Trimmed(name) && ':' !in name
    requires Trimmed(p) && ':' !in p && ',' !in p
    requires Trimmed(q) && ':' !in q && ',' !in q
    ensures ParseDecl(name + ": " + p + ", " + q) == Node(name, [p, q], map[name := name])
  {
    var pieces := [" " + p, " " + q];
    assert Padded([p, q]) == pieces;
    assert pieces[1..] == [" " + q];
    assert Join(pieces, ',') == " " + p + "," + " " + q;
    assert Declaration(name, [p, q]) == name + ": " + p + ", " + q;
    ParseDeclaration(name, [p, q]);
  }

  /** The parent text of a Declaration: no ':', not empty, and it splits and trims back into the parents. */
  lemma ParsePadded(parents: seq<string>)
    requires parents != []
    requires forall k :: 0 <= k < |parents| ==> Trimmed(parents[k]) && ':' !in parents[k] && ',' !in parents[k]
    ensures var text := Join(Padded(parents), ',');
      ':' !in text && text != "" && TrimEach(Split(text, ',')) == parents
  {
    var pieces := Padded(parents);
    forall k | 0 <= k < |pieces| ensures ':' !in pieces[k] && ',' !in pieces[k] && TrimSpace(pieces[k]) == parents[k] {
      assert pieces[k][1..] == parents[k];
      TrimSpaceUnique(pieces[k], 1, parents[k]);
    }
    JoinExcludes(pieces, ',', ':');
    SplitJoin(pieces, ',');
    assert Join(pieces, ',')[0] == ' ';
  }

  /** `newNode` applied to every declaration. */
  function ParseAll(decls: seq<string>): (ns: seq<Node>)
    ensures |ns| == |decls|
  {
    seq(|decls|, i requires 0 <= i < |decls| => ParseDecl(decls[i]))
  }

  /** Every parsed declaration is fresh: its ancestors map holds only its own name. */
  lemma ParseAllFresh(decls: seq<string>)
    ensures AllFresh(ParseAll(decls))
  {
    forall i | 0 <= i < |decls| ensures Fresh(ParseAll(decls)[i]) {
      ParseDeclFields(decls[i]);
    }
  }

  /** Parsing a prefix of the declarations gives the same prefix of the parsed nodes. */
  lemma ParseAllPrefix(decls: seq<string>, i: nat)
    requires i <= |decls|
    ensures ParseAll(decls[..i]) == ParseAll(decls)[..i]
  {
    forall j | 0 <= j < i ensures ParseAll(decls[..i])[j] == ParseAll(decls)[j] {
      assert decls[..i][j] == decls[j];
    }
  }

  /** The graph's maps: `nodes` by name, and the names kept in `leaves`. */
  datatype Store = Store(nodes: map<string, Node>, leaves: set<string>)

  /** The state after an ingestion step and the error it returned, if any. */
  datatype Step = Step(store: Store, err: Option<DagError>)

  /** `k` is the one and only key of `m`. */
  predicate SoleKey(m: map<string, string>, k: string) {
    k in m && |m| == 1
  }

  lemma SoleKeyKeys(m: map<string, string>, k: string)
    ensures SoleKey(m, k) <==> m.Keys == {k}
  {
    assert |m.Keys| == |m|;
    if SoleKey(m, k) {
      var rest := m.Keys - {k};
      assert m.Keys == rest + {k};
      assert |rest| == 0;
      assert rest == {};
    }
  }

  /** Every node is stored under its own name. */
  ghost predicate KeyedByName(nodes: map<string, Node>) {
    forall k :: k in nodes ==> nodes[k].name == k
  }

  /** Every node's ancestors map has the node's own name as its only key. */
  ghost predicate SelfAncestorsOnly(nodes: map<string, Node>) {
    forall k :: k in nodes ==> SoleKey(nodes[k].ancestors, k)
  }

  ghost predicate WellFormed(nodes: map<string, Node>) {
    KeyedByName(nodes) && SelfAncestorsOnly(nodes)
  }

  /** The invariant of a DAG under construction: well-formed nodes, and leaves among them. */
  ghost predicate Consistent(st: Store) {
    WellFormed(st.nodes) && st.leaves <= st.nodes.Keys
  }

  /** A node as `newNode` makes it: its ancestors map holds only its own name. */
  ghost predicate Fresh(n: Node) {
    SoleKey(n.ancestors, n.name)
  }

  /**
   * The loop of `addNode` over the parents: each parent present in `nodes`
   * has `ancestors[parent]` set to the child and leaves the leaf set; the
   * first absent parent stops the loop with an error.
   */
  function Link(st: Store, child: string, parents: seq<string>): (r: Step)
    ensures r.store.nodes.Keys == st.nodes.Keys
    ensures r.store.leaves <= st.leaves
    decreases |parents|
  {
    if parents == [] then Step(st, None)
    else
      var p := parents[0];
      if p in st.nodes then
        var pn := st.nodes[p];
        Link(Store(st.nodes[p := pn.(ancestors := pn.ancestors[p := child])], st.leaves - {p}), child, parents[1..])
      else Step(st, Some(UnknownParent(child, p)))
  }

  /** `addNode`: store the node and mark it a leaf, then link its parents. */
  function Add(st: Store, n: Node): (r: Step)
    ensures r.store.nodes.Keys == st.nodes.Keys + {n.name}
    ensures r.store.leaves <= st.leaves + {n.name}
  {
    Link(Store(st.nodes[n.name := n], st.leaves + {n.name}), n.name, n.parents)
  }

  /** The loop of `NewDAG`: add the nodes in order, stopping at the first error. */
  function Build(ns: seq<Node>): (r: Step)
    ensures r.store.leaves <= r.store.nodes.Keys
    decreases |ns|
  {
    if ns == [] then Step(Store(map[], {}), None)
    else
      var prev := Build(ns[..|ns| - 1]);
      if prev.err.Some? then prev else Add(prev.store, ns[|ns| - 1])
  }

  /** `NewDAG`'s loop one declaration further on: the new node is added unless an earlier one failed. */
  lemma BuildSnoc(ns: seq<Node>, n: Node)
    ensures Build(ns + [n]) == if Build(ns).err.Some? then Build(ns) else Add(Build(ns).store, n)
  {
    assert (ns + [n])[..|ns|] == ns;
  }

  /** The same step, seen from the declarations: parsing and adding one more of them. */
  lemma BuildParsedStep(decls: seq<string>, i: nat)
    requires i < |decls|
    ensures var prev := Build(ParseAll(decls[..i]));
      Build(ParseAll(decls[..i + 1])) == if prev.err.Some? then prev else Add(prev.store, ParseDecl(decls[i]))
  {
    assert decls[..i + 1] == decls[..i] + [decls[i]];
    assert ParseAll(decls[..i + 1]) == ParseAll(decls[..i]) + [ParseDecl(decls[i])];
    BuildSnoc(ParseAll(decls[..i]), ParseDecl(decls[i]));
  }

  /** Index of the first element of `ps` not in `known`, or |ps|. */
  function FirstMissing(known: set<string>, ps: seq<string>): (k: nat)
    ensures k <= |ps|
    ensures forall j :: 0 <= j < k ==> ps[j] in known
    ensures k < |ps| ==> ps[k] !in known
  {
    if ps == [] || ps[0] !in known then 0 else 1 + FirstMissing(known, ps[1..])
  }

  /** The set of the first `k` elements of `ps`. */
  function Prefix(ps: seq<string>, k: nat): set<string>
    requires k <= |ps|
  {
    set j | 0 <= j < k :: ps[j]
  }

  /**
   * What the parent loop does, whatever the nodes: it stops at the first
   * parent missing from `nodes` (with an error naming child and parent) or
   * at the end; the key set of `nodes` does not change; exactly the parents
   * before the stopping point leave `leaves`.
   */
  lemma {:induction false} LinkShape(st: Store, child: string, ps: seq<string>)
    ensures var r := Link(st, child, ps); var k := FirstMissing(st.nodes.Keys, ps);
      && r.store.nodes.Keys == st.nodes.Keys
      && r.store.leaves == st.leaves - Prefix(ps, k)
      && r.err == (if k < |ps| then Some(UnknownParent(child, ps[k])) else None)
    decreases |ps|
  {
    if ps != [] && ps[0] in st.nodes {
      var p := ps[0];
      var pn := st.nodes[p];
      var st' := Store(st.nodes[p := pn.(ancestors := pn.ancestors[p := child])], st.leaves - {p});
      LinkShape(st', child, ps[1..]);
      var k := FirstMissing(st.nodes.Keys, ps);
      assert st'.nodes.Keys == st.nodes.Keys;
      assert k == 1 + FirstMissing(st.nodes.Keys, ps[1..]);
      PrefixCons(ps, k);
    }
  }

  /**
   * On well-formed nodes the parent loop keeps them well formed: a linked
   * parent's ancestors map becomes {parent: child}, with the parent's own
   * name still its only key; every other node is untouched.
   */
  lemma {:induction false} LinkNodes(st: Store, child: string, ps: seq<string>)
    requires WellFormed(st.nodes)
    ensures var r := Link(st, child, ps); var k := FirstMissing(st.nodes.Keys, ps);
      && r.store.nodes.Keys == st.nodes.Keys
      && WellFormed(r.store.nodes)
      && forall x :: x in st.nodes ==>
           r.store.nodes[x] == if x in Prefix(ps, k) then st.nodes[x].(ancestors := map[x := child]) else st.nodes[x]
    decreases |ps|
  {
    LinkShape(st, child, ps);
    if ps != [] && ps[0] in st.nodes {
      var p := ps[0];
      var pn := st.nodes[p];
      var st' := Store(st.nodes[p := pn.(ancestors := pn.ancestors[p := child])], st.leaves - {p});
      LinkOne(st.nodes, child, p);
      LinkNodes(st', child, ps[1..]);
      var k := FirstMissing(st.nodes.Keys, ps);
      assert k == 1 + FirstMissing(st.nodes.Keys, ps[1..]);
      PrefixCons(ps, k);
    }
  }

  /** Linking one present parent keeps the nodes well formed and gives the parent the ancestors map {parent: child}. */
  lemma LinkOne(nodes: map<string, Node>, child: string, p: string)
    requires WellFormed(nodes) && p in nodes
    ensures var pn := nodes[p];
      var nodes' := nodes[p := pn.(ancestors := pn.ancestors[p := child])];
      WellFormed(nodes') && nodes'[p] == pn.(ancestors := map[p := child])
  {
    var pn := nodes[p];
    SoleKeyKeys(pn.ancestors, p);
    assert pn.ancestors[p := child] == map[p := child];
  }

  lemma PrefixCons(ps: seq<string>, k: nat)
    requires 1 <= k <= |ps|
    ensures Prefix(ps, k) == {ps[0]} + Prefix(ps[1..], k - 1)
  {
    forall x | x in Prefix(ps, k) ensures x in {ps[0]} + Prefix(ps[1..], k - 1) {
      var j :| 0 <= j < k && ps[j] == x;
      if j > 0 { assert ps[1..][j - 1] == x; }
    }
    forall x | x in Prefix(ps[1..], k - 1) ensures x in Prefix(ps, k) {
      var j :| 0 <= j < k - 1 && ps[1..][j] == x;
      assert ps[j + 1] == x;
    }
  }

  /**
   * One ingestion step on a consistent graph, with a freshly parsed node:
   * the node is stored under its name and becomes a leaf before any parent
   * is checked (so it may be its own parent, and it replaces an earlier node
   * of the same name even when the step fails), and a node as `newNode`
   * makes it is stored as it is; the step fails exactly when
   * some parent is neither in the graph nor the node itself, naming the
   * first such parent; the parents before it leave the leaf set and get
   * the ancestors map {parent: node}; every other node is unchanged; and
   * the graph stays consistent.
   */
  lemma AddStep(st: Store, n: Node)
    requires Consistent(st) && Fresh(n)
    ensures var r := Add(st, n); var known := st.nodes.Keys + {n.name};
      var k := FirstMissing(known, n.parents);
      && Consistent(r.store)
      && r.store.nodes.Keys == known
      && r.store.nodes[n.name].parents == n.parents
      && (n.ancestors == map[n.name := n.name] ==> r.store.nodes[n.name] == n)
      && r.store.leaves == (st.leaves + {n.name}) - Prefix(n.parents, k)
      && (r.err.Some? <==> exists j :: 0 <= j < |n.parents| && n.parents[j] !in known)
      && r.err == (if k < |n.parents| then Some(UnknownParent(n.name, n.parents[k])) else None)
      && forall x :: x in st.nodes && x != n.name ==>
           r.store.nodes[x] == if x in Prefix(n.parents, k) then st.nodes[x].(ancestors := map[x := n.name]) else st.nodes[x]
  {
    var st' := Store(st.nodes[n.name := n], st.leaves + {n.name});
    LinkShape(st', n.name, n.parents);
    LinkNodes(st', n.name, n.parents);
  }

  /** The names declared in `ns`. */
  function Names(ns: seq<Node>): set<string> {
    set i | 0 <= i < |ns| :: ns[i].name
  }

  /** Every parent a declaration names is declared earlier or by that declaration itself. */
  ghost predicate BackRefs(ns: seq<Node>) {
    forall j, p :: 0 <= j < |ns| && p in ns[j].parents ==> p in Names(ns[..j + 1])
  }

  /** `x` is declared at some position from which on no declaration names it as a parent. */
  ghost predicate LeafIn(ns: seq<Node>, x: string) {
    exists i :: 0 <= i < |ns| && ns[i].name == x && forall j :: i <= j < |ns| ==> x !in ns[j].parents
  }

  ghost predicate AllFresh(ns: seq<Node>) {
    forall i :: 0 <= i < |ns| ==> Fresh(ns[i])
  }

  lemma PrefixAll(ps: seq<string>)
    ensures forall x :: x in Prefix(ps, |ps|) <==> x in ps
  {
    forall x | x in ps ensures x in Prefix(ps, |ps|) {
      var j :| 0 <= j < |ps| && ps[j] == x;
    }
  }

  lemma NamesSnoc(ns: seq<Node>)
    requires ns != []
    ensures Names(ns) == Names(ns[..|ns| - 1]) + {ns[|ns| - 1].name}
  {
    var ns' := ns[..|ns| - 1];
    forall x | x in Names(ns) ensures x in Names(ns') + {ns[|ns| - 1].name} {
      var i :| 0 <= i < |ns| && ns[i].name == x;
      if i < |ns| - 1 { assert ns'[i] == ns[i]; }
    }
    forall x | x in Names(ns') ensures x in Names(ns) {
      var i :| 0 <= i < |ns'| && ns'[i].name == x;
      assert ns[i] == ns'[i];
    }
  }

  /** Appending a declaration: `x` is a leaf afterwards iff it was one or is the new name, and the new declaration does not name it as a parent. */
  lemma LeafInSnoc(ns: seq<Node>, x: string)
    requires ns != []
    ensures var n := |ns| - 1;
      LeafIn(ns, x) <==> (LeafIn(ns[..n], x) || x == ns[n].name) && x !in ns[n].parents
  {
    var n := |ns| - 1;
    var ns' := ns[..n];
    if LeafIn(ns, x) {
      var i :| 0 <= i < |ns| && ns[i].name == x && forall j :: i <= j < |ns| ==> x !in ns[j].parents;
      if i < n {
        assert ns'[i] == ns[i];
        assert forall j :: i <= j < n ==> ns'[j] == ns[j];
      }
    }
    if LeafIn(ns', x) && x !in ns[n].parents {
      var i :| 0 <= i < n && ns'[i].name == x && forall j :: i <= j < n ==> x !in ns'[j].parents;
      assert forall j :: i <= j < n ==> ns'[j] == ns[j];
      assert ns[i].name == x && forall j :: i <= j < |ns| ==> x !in ns[j].parents;
    }
    if x == ns[n].name && x !in ns[n].parents {
      assert forall j :: n <= j < |ns| ==> x !in ns[j].parents;
    }
  }

  /** Appending a declaration keeps references backward iff its own parents are all declared by then. */
  lemma BackRefsSnoc(ns: seq<Node>)
    requires ns != []
    ensures var n := |ns| - 1;
      BackRefs(ns) <==> BackRefs(ns[..n]) && forall p :: p in ns[n].parents ==> p in Names(ns)
  {
    var n := |ns| - 1;
    var ns' := ns[..n];
    assert ns[..n + 1] == ns;
    if BackRefs(ns) {
      forall j, p | 0 <= j < n && p in ns'[j].parents ensures p in Names(ns'[..j + 1]) {
        assert ns[j] == ns'[j] && ns[..j + 1] == ns'[..j + 1];
      }
    }
    if BackRefs(ns') && forall p :: p in ns[n].parents ==> p in Names(ns) {
      forall j, p | 0 <= j < |ns| && p in ns[j].parents ensures p in Names(ns[..j + 1]) {
        if j < n {
          assert ns[j] == ns'[j] && ns[..j + 1] == ns'[..j + 1];
        }
      }
    }
  }

  /**
   * `NewDAG`'s loop over freshly parsed nodes succeeds exactly when every
   * declaration names only parents declared before it or itself; then every
   * declared name is a node and the graph is consistent.
   */
  lemma {:induction false} BuildSucceeds(ns: seq<Node>)
    requires AllFresh(ns)
    ensures Build(ns).err.None? <==> BackRefs(ns)
    ensures Build(ns).err.None? ==> Consistent(Build(ns).store) && Build(ns).store.nodes.Keys == Names(ns)
    decreases |ns|
  {
    if ns == [] {
      return;
    }
    var n := |ns| - 1;
    var ns', last := ns[..n], ns[n];
    var prev := Build(ns');
    BuildSucceeds(ns');
    BackRefsSnoc(ns);
    if prev.err.None? {
      NamesSnoc(ns);
      AddStep(prev.store, last);
      assert Build(ns) == Add(prev.store, last);
      assert Names(ns) == prev.store.nodes.Keys + {last.name};
      if Build(ns).err.None? {
        assert forall p :: p in last.parents ==> p in Names(ns);
      } else {
        var j :| 0 <= j < |last.parents| && last.parents[j] !in Names(ns);
        assert last.parents[j] in last.parents;
      }
    }
  }

  /** A successful `NewDAG` loop over declarations leaves a consistent graph. */
  lemma ParsedConsistent(decls: seq<string>)
    requires Build(ParseAll(decls)).err.None?
    ensures Consistent(Build(ParseAll(decls)).store)
  {
    ParseAllFresh(decls);
    BuildSucceeds(ParseAll(decls));
  }

  /**
   * After a successful `NewDAG` loop a name is a leaf exactly when it is
   * declared at a point after which no declaration names it as a parent; so
   * a name declared again after being referenced is a leaf again.
   */
  lemma {:induction false} BuildLeaves(ns: seq<Node>)
    requires AllFresh(ns) && Build(ns).err.None?
    ensures forall x :: x in Build(ns).store.leaves <==> LeafIn(ns, x)
    decreases |ns|
  {
    if ns == [] {
      return;
    }
    var n := |ns| - 1;
    var ns', last := ns[..n], ns[n];
    var prev := Build(ns');
    assert prev.err.None?;
    BuildSucceeds(ns');
    BuildLeaves(ns');
    AddStep(prev.store, last);
    var r := Build(ns);
    assert r == Add(prev.store, last);
    assert FirstMissing(prev.store.nodes.Keys + {last.name}, last.parents) == |last.parents|;
    PrefixAll(last.parents);
    assert r.store.leaves == (prev.store.leaves + {last.name}) - Prefix(last.parents, |last.parents|);
    forall x ensures x in r.store.leaves <==> LeafIn(ns, x) {
      LeafInSnoc(ns, x);
    }
  }

  /**
   * Declaration `j` is the first to name an undeclared parent, and `e` names
   * its node and the first of its parents not declared by then.
   */
  ghost predicate FailsAt(ns: seq<Node>, j: nat, e: DagError)
    requires j < |ns|
  {
    BackRefs(ns[..j]) &&
    var k := FirstMissing(Names(ns[..j + 1]), ns[j].parents);
    k < |ns[j].parents| && e == UnknownParent(ns[j].name, ns[j].parents[k])
  }

  /**
   * When `NewDAG`'s loop fails, the error comes from the first declaration
   * that names an undeclared parent: every declaration before it was fine,
   * and the error names that declaration's node and the first of its
   * parents not declared by then.
   */
  lemma {:induction false} BuildError(ns: seq<Node>)
    requires AllFresh(ns) && Build(ns).err.Some?
    ensures exists j :: 0 <= j < |ns| && FailsAt(ns, j, Build(ns).err.value)
    decreases |ns|
  {
    var n := |ns| - 1;
    var ns', last := ns[..n], ns[n];
    var prev := Build(ns');
    if prev.err.Some? {
      BuildError(ns');
      var j :| 0 <= j < |ns'| && FailsAt(ns', j, prev.err.value);
      assert ns[..j] == ns'[..j] && ns[..j + 1] == ns'[..j + 1] && ns[j] == ns'[j];
      assert FailsAt(ns, j, Build(ns).err.value);
    } else {
      BuildSucceeds(ns');
      NamesSnoc(ns);
      AddStep(prev.store, last);
      assert ns[..n + 1] == ns;
      assert Build(ns) == Add(prev.store, last);
      assert Names(ns) == prev.store.nodes.Keys + {last.name};
      assert FailsAt(ns, n, Build(ns).err.value);
    }
  }

  /** Once the loop has failed on a prefix, the rest of the input is never looked at. */
  lemma {:induction false} BuildErrorSticks(ns: seq<Node>, i: nat)
    requires i <= |ns| && Build(ns[..i]).err.Some?
    ensures Build(ns) == Build(ns[..i])
    decreases |ns| - i
  {
    if i < |ns| {
      assert ns[..i + 1][..i] == ns[..i];
      BuildErrorSticks(ns, i + 1);
    } else {
      assert ns[..i] == ns;
    }
  }

  ghost predicate DistinctNames(ns: seq<Node>) {
    forall i, j :: 0 <= i < j < |ns| ==> ns[i].name != ns[j].name
  }

  /** The names that some declaration lists as a parent. */
  ghost function Referenced(ns: seq<Node>): set<string> {
    set j, p | 0 <= j < |ns| && p in ns[j].parents :: p
  }

  /** Under backward references, a name listed as a parent is declared no later than where it is listed. */
  lemma DeclaredBefore(ns: seq<Node>, j: nat, p: string)
    requires BackRefs(ns) && j < |ns| && p in ns[j].parents
    ensures exists i :: 0 <= i <= j && ns[i].name == p
  {
    assert p in Names(ns[..j + 1]);
    var i :| 0 <= i < j + 1 && ns[..j + 1][i].name == p;
    assert ns[i] == ns[..j + 1][i];
  }

  /**
   * With no name declared twice, the leaves of a successful build are the
   * declared names that no declaration lists as a parent.
   */
  lemma LeavesWhenDistinct(ns: seq<Node>)
    requires AllFresh(ns) && DistinctNames(ns) && Build(ns).err.None?
    ensures Build(ns).store.leaves == Names(ns) - Referenced(ns)
  {
    BuildSucceeds(ns);
    BuildLeaves(ns);
    var leaves := Build(ns).store.leaves;
    forall x | x in Names(ns) - Referenced(ns) ensures x in leaves {
      var i :| 0 <= i < |ns| && ns[i].name == x;
      assert forall j :: i <= j < |ns| ==> x !in ns[j].parents;
      assert LeafIn(ns, x);
    }
    forall x | x in leaves ensures x in Names(ns) - Referenced(ns) {
      var i :| 0 <= i < |ns| && ns[i].name == x && forall j :: i <= j < |ns| ==> x !in ns[j].parents;
      forall j, p | 0 <= j < |ns| && p in ns[j].parents ensures p != x {
        if j < i {
          DeclaredBefore(ns, j, p);
        }
      }
    }
  }

  /** Go's `min`. */
  function Min(a: int, b: int): (r: int)
    ensures r <= a && r <= b && (r == a || r == b)
  {
    if a < b then a else b
  }

  /** `findBisectors`' score of a node: min(A, N - A) for A the size of its ancestors map and N the node count. */
  function Score(nodes: map<string, Node>, k: string): (r: int)
    requires k in nodes
    ensures 2 * r <= |nodes|
  {
    var a := |nodes[k].ancestors|;
    Min(a, |nodes| - a)
  }

  /** The names in `among` whose score is `m`. */
  ghost function Attaining(nodes: map<string, Node>, among: set<string>, m: int): set<string> {
    set k | k in among && k in nodes && Score(nodes, k) == m
  }

  /** Growing `among` by one name adds that name exactly when it attains `m`. */
  lemma AttainingAdd(nodes: map<string, Node>, among: set<string>, k: string, m: int)
    requires k in nodes
    ensures Attaining(nodes, among + {k}, m) ==
      Attaining(nodes, among, m) + (if Score(nodes, k) == m then {k} else {})
  {
  }

  /** No name of `among` attains a value below all their scores. */
  lemma AttainingNone(nodes: map<string, Node>, among: set<string>, m: int)
    requires forall k :: k in among && k in nodes ==> m < Score(nodes, k)
    ensures Attaining(nodes, among, m) == {}
  {
  }

  /**
   * The bisector scan after visiting the names in `done`, having started
   * from minimum `m0` and bisectors `b0`: `m` is the least of `m0` and the
   * scores seen; if it went below `m0` then `b` is exactly the visited
   * names attaining it, and otherwise `b0` plus the visited names scoring
   * `m0`.
   */
  ghost predicate Scanned(all: map<string, Node>, done: set<string>, m0: int, b0: set<string>, m: int, b: set<string>) {
    && (forall k :: k in done && k in all ==> m <= Score(all, k))
    && m <= m0
    && (m < m0 ==> (exists k :: k in done && k in all && Score(all, k) == m) && b == Attaining(all, done, m))
    && (m == m0 ==> b == b0 + Attaining(all, done, m))
  }

  /** Before the scan has visited any name, nothing has changed. */
  lemma ScanStart(all: map<string, Node>, m0: int, b0: set<string>)
    ensures Scanned(all, {}, m0, b0, m0, b0)
  {
    assert Attaining(all, {}, m0) == {};
  }

  /**
   * One step of the scan keeps Scanned: a lower score restarts the
   * bisectors with the visited name, an equal score adds it, a higher one
   * changes nothing.
   */
  lemma ScanStep(all: map<string, Node>, done: set<string>, k: string,
                 m0: int, b0: set<string>, m: int, b: set<string>, m': int, b': set<string>)
    requires k in all && Scanned(all, done, m0, b0, m, b)
    requires Score(all, k) < m ==> m' == Score(all, k) && b' == {k}
    requires Score(all, k) == m ==> m' == m && b' == b + {k}
    requires Score(all, k) > m ==> m' == m && b' == b
    ensures Scanned(all, done + {k}, m0, b0, m', b')
  {
    var s := Score(all, k);
    AttainingAdd(all, done, k, s);
    AttainingAdd(all, done, k, m);
    if s < m {
      AttainingNone(all, done, s);
    }
  }

  /**
   * What the bisector scan is meant to produce: `m` is the least score (0
   * on an empty graph) and `bis` the set of all nodes attaining it.
   */
  ghost predicate IsBisection(nodes: map<string, Node>, bis: set<string>, m: int) {
    && (forall k :: k in nodes ==> m <= Score(nodes, k))
    && (nodes == map[] ==> m == 0)
    && (nodes != map[] ==> exists k :: k in nodes && Score(nodes, k) == m)
    && bis == Attaining(nodes, nodes.Keys, m)
  }

  /**
   * A scan that starts at minimum N (the node count) with no bisectors ends
   * with the least score and all the nodes attaining it: every score is
   * below N, so on a non-empty graph the minimum always goes down.
   */
  lemma ScanFromCount(nodes: map<string, Node>, bis: set<string>, m: int)
    requires Scanned(nodes, nodes.Keys, |nodes|, {}, m, bis)
    ensures IsBisection(nodes, bis, m)
  {
    if nodes != map[] {
      var k :| k in nodes;
      ScoreBelowCount(nodes, k);
    }
  }

  /** Every score is below the node count, so a scan started at N always lowers its minimum on a non-empty graph. */
  lemma ScoreBelowCount(nodes: map<string, Node>, k: string)
    requires k in nodes
    ensures Score(nodes, k) < |nodes|
  {
    assert k in nodes.Keys;
    assert |nodes.Keys| > 0;
  }

  /** The scan's result does not depend on anything but the nodes: the map's iteration order cannot change it. */
  lemma BisectionUnique(nodes: map<string, Node>, b1: set<string>, m1: int, b2: set<string>, m2: int)
    requires IsBisection(nodes, b1, m1) && IsBisection(nodes, b2, m2)
    ensures b1 == b2 && m1 == m2
  {
    if nodes != map[] {
      var k1 :| k1 in nodes && Score(nodes, k1) == m1;
      var k2 :| k2 in nodes && Score(nodes, k2) == m2;
    }
  }

  /**
   * Since every ancestors map has exactly one key, every node scores
   * min(1, N - 1): with no nodes there are no bisectors and the minimum is
   * 0; a single node is the only bisector with minimum 0; with two or more
   * nodes every node is a bisector and the minimum is 1.
   */
  lemma BisectorTable(nodes: map<string, Node>, bis: set<string>, m: int)
    requires WellFormed(nodes) && IsBisection(nodes, bis, m)
    ensures bis == nodes.Keys
    ensures m == if |nodes| >= 2 then 1 else 0
  {
    var c := if |nodes| >= 2 then 1 else 0;
    forall k | k in nodes ensures Score(nodes, k) == c {
      assert |nodes| >= 1 by { assert k in nodes.Keys; }
    }
    if nodes != map[] {
      var k :| k in nodes && Score(nodes, k) == m;
    } else {
      assert |nodes| == 0;
    }
  }
}
