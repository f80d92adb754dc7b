/**
 * The imperative DAG builder of structs.go: `newNode`, the `DAG` object with
 * its in-place `addNode` and `findBisectors`, the read-only `Get*` queries,
 * and `NewDAG`. Each method is proved against the functions of DagModel.
 */
module DagBuilder {
  import opened Wrappers
  import opened GoStrings
  import opened DagModel

  /** `newNode`: split off the name, then append the trimmed parents one by one. */
  method NewNode(s: string) returns (n: Node)
    ensures n == ParseDecl(s)
  {
    var splits := Split(s, ':');
    var name := TrimSpace(splits[0]);
    var parents: seq<string> := [];
    if |splits| > 1 && splits[1] != "" {
      parents := AppendTrimmed(Split(splits[1], ','));
    }
    n := Node(name, parents, map[name := name]);
  }

  /** The loop of `newNode` over the comma pieces: append each piece, trimmed. */
  method AppendTrimmed(pieces: seq<string>) returns (parents: seq<string>)
    ensures parents == TrimEach(pieces)
  {
    parents := [];
    for i := 0 to |pieces|
      invariant |parents| == i
      invariant forall k :: 0 <= k < i ==> parents[k] == TrimSpace(pieces[k])
    {
      parents := parents + [TrimSpace(pieces[i])];
    }
  }

  /** A DAG under construction or built: Go's `DAG` struct. */
  class Dag {
    var nodes: map<string, Node>
    var leaves: set<string>
    var bisectors: set<string>
    var bisectorMin: int

    ghost predicate Valid()
      reads this
    {
      Consistent(Store(nodes, leaves))
    }

    /** The empty maps `NewDAG` starts from. */
    constructor ()
      ensures Valid()
      ensures nodes == map[] && leaves == {} && bisectors == {} && bisectorMin == 0
    {
      nodes, leaves, bisectors, bisectorMin := map[], {}, {}, 0;
    }

    /**
     * `addNode`: store `n` under its name and as a leaf, then for each parent
     * in order either point the parent's ancestors entry at `n` and drop the
     * parent from the leaves, or stop with an error.
     */
    method AddNode(n: Node) returns (err: Option<DagError>)
      modifies this`nodes, this`leaves
      ensures Add(Store(old(nodes), old(leaves)), n) == Step(Store(nodes, leaves), err)
      ensures old(Valid()) && Fresh(n) ==> Valid()
    {
      if Valid() && Fresh(n) {
        AddStep(Store(nodes, leaves), n);
      }
      nodes := nodes[n.name := n];
      leaves := leaves + {n.name};
      if |n.parents| == 0 {
        return None;
      }
      ghost var start := Store(nodes, leaves);
      for i := 0 to |n.parents|
        invariant Link(start, n.name, n.parents) == Link(Store(nodes, leaves), n.name, n.parents[i..])
      {
        var parent := n.parents[i];
        assert n.parents[i..][0] == parent && n.parents[i..][1..] == n.parents[i + 1..];
        if parent in nodes {
          var p := nodes[parent];
          nodes := nodes[parent := p.(ancestors := p.ancestors[parent := n.name])];
        } else {
          return Some(UnknownParent(n.name, parent));
        }
        if parent in leaves {
          leaves := leaves - {parent};
        } else {
          assert leaves == leaves - {parent};
        }
      }
      return None;
    }

    /**
     * `findBisectors`: visit the nodes in any order, keeping the least score
     * seen and the names that reach it. Starting from minimum `m0`, the
     * minimum ends at the least of `m0` and all scores; if it went down the
     * bisectors are exactly the nodes attaining it, otherwise the nodes that
     * score `m0` are added to the old bisectors.
     */
    method FindBisectors()
      requires KeyedByName(nodes)
      modifies this`bisectors, this`bisectorMin
      ensures Scanned(nodes, nodes.Keys, old(bisectorMin), old(bisectors), bisectorMin, bisectors)
    {
      var all := nodes;
      var count := |all|;
      var todo := all.Keys;
      ghost var m0, b0 := bisectorMin, bisectors;
      ScanStart(all, m0, b0);
      assert all.Keys - todo == {};
      while todo != {}
        invariant todo <= all.Keys
        invariant Scanned(all, all.Keys - todo, m0, b0, bisectorMin, bisectors)
        decreases todo
      {
        var k :| k in todo;
        ghost var done, m, b := all.Keys - todo, bisectorMin, bisectors;
        var v := all[k];
        var a := |v.ancestors|;
        var score := Min(a, count - a);
        assert score == Score(all, k) && v.name == k;
        if score < bisectorMin {
          bisectorMin := score;
          bisectors := {v.name};
        } else if score == bisectorMin {
          bisectors := bisectors + {v.name};
        }
        ScanStep(all, done, k, m0, b0, m, b, bisectorMin, bisectors);
        assert all.Keys - (todo - {k}) == done + {k};
        todo := todo - {k};
      }
      assert all.Keys - todo == nodes.Keys;
    }

    /**
     * The loop of `NewDAG` on a fresh graph: parse each declaration with
     * `newNode` and add it, stopping at the first error.
     */
    method AddDecls(decls: seq<string>) returns (err: Option<DagError>)
      requires nodes == map[] && leaves == {}
      modifies this`nodes, this`leaves
      ensures Build(ParseAll(decls)) == Step(Store(nodes, leaves), err)
      ensures Valid()
    {
      for i := 0 to |decls|
        invariant Build(ParseAll(decls[..i])) == Step(Store(nodes, leaves), None)
        invariant Valid()
      {
        var node := NewNode(decls[i]);
        err := AddNode(node);
        BuildParsedStep(decls, i);
        if err.Some? {
          ParseAllPrefix(decls, i + 1);
          BuildErrorSticks(ParseAll(decls), i + 1);
          return;
        }
      }
      assert decls[..|decls|] == decls;
      return None;
    }

    /**
     * The end of `NewDAG`: start the bisector minimum at the node count and
     * scan; the result is the least score and every node attaining it.
     */
    method ScanBisectors()
      requires Valid() && bisectors == {}
      modifies this`bisectors, this`bisectorMin
      ensures IsBisection(nodes, bisectors, bisectorMin)
    {
      bisectorMin := |nodes|;
      FindBisectors();
      ScanFromCount(nodes, bisectors, bisectorMin);
    }

    /** `GetAncestors`: the key set of the node's ancestors map, or an error if there is no such node. */
    function GetAncestors(name: string): (r: Result<set<string>, DagError>)
      reads this
      ensures r.Failure? <==> name !in nodes
      ensures r.Failure? ==> r.error == NodeNotFound(name)
      ensures r.Success? ==> r.value == nodes[name].ancestors.Keys
      ensures Valid() && r.Success? ==> r.value == {name}
    {
      if name in nodes then
        SoleKeyKeys(nodes[name].ancestors, name);
        Success(nodes[name].ancestors.Keys)
      else Failure(NodeNotFound(name))
    }

    /** `GetLeaves`: the names in the leaf map; all of them are nodes. */
    function GetLeaves(): (r: set<string>)
      reads this
      ensures Valid() ==> r <= nodes.Keys
    {
      leaves
    }

    /** `GetBisectors`: the names in the bisector map. */
    function GetBisectors(): (r: set<string>)
      reads this
      ensures IsBisection(nodes, bisectors, bisectorMin) ==> r <= nodes.Keys
    {
      bisectors
    }
  }

  /**
   * `NewDAG`: parse and add the declarations in order, returning the first
   * error; otherwise start the bisector minimum at the node count and scan.
   */
  method NewDag(decls: seq<string>) returns (r: Result<Dag, DagError>)
    ensures var b := Build(ParseAll(decls));
      (r.Failure? <==> b.err.Some?) && (r.Failure? ==> b.err == Some(r.error))
    ensures r.Success? ==>
      var b := Build(ParseAll(decls));
      && fresh(r.value)
      && r.value.Valid()
      && r.value.nodes == b.store.nodes
      && r.value.leaves == b.store.leaves
      && IsBisection(r.value.nodes, r.value.bisectors, r.value.bisectorMin)
  {
    var dag := new Dag();
    var err := dag.AddDecls(decls);
    if err.Some? {
      return Failure(err.value);
    }
    dag.ScanBisectors();
    return Success(dag);
  }
}
