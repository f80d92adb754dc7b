/**
 * The driver in main.go: build the graph of four declarations, then ask for
 * the ancestors of C, the leaves and the bisectors. The lemmas work out what
 * `NewDAG` makes of those declarations.
 */
module Driver {
  import opened Wrappers
  import opened DagModel
  import opened DagBuilder

  /** The declarations main.go builds its graph from. */
  const Example: seq<string> := ["A:", "B: A", "C: A", "D: B, C"]

  /** The nodes `newNode` makes of them. */
  function ExampleNodes(): seq<Node> {
    [Node("A", [], map["A" := "A"]), Node("B", ["A"], map["B" := "B"]),
     Node("C", ["A"], map["C" := "C"]), Node("D", ["B", "C"], map["D" := "D"])]
  }

  /** Each declaration parses into the node of the same position. */
  lemma ExampleParses()
    ensures ParseAll(Example) == ExampleNodes()
  {
    forall i | 0 <= i < 4 ensures ParseDecl(Example[i]) == ExampleNodes()[i] {
      ExampleDeclParses(i);
    }
  }

  /** Declaration `i` of the example parses into node `i`. */
  lemma ExampleDeclParses(i: nat)
    requires i < 4
    ensures ParseDecl(Example[i]) == ExampleNodes()[i]
  {
    if i == 0 { ParsesA(); }
    else if i == 1 { ParsesB(); }
    else if i == 2 { ParsesC(); }
    else { ParsesD(); }
  }

  /** The four declarations one by one. */
  lemma ParsesA()
    ensures ParseDecl(Example[0]) == ExampleNodes()[0]
  {
    var s := "A" + ":";
    assert Example[0] == s;
    ParseNoParents("A");
  }

  lemma ParsesB()
    ensures ParseDecl(Example[1]) == ExampleNodes()[1]
  {
    var s := "B" + ": " + "A";
    assert Example[1] == s;
    ParseOneParent("B", "A");
  }

  lemma ParsesC()
    ensures ParseDecl(Example[2]) == ExampleNodes()[2]
  {
    var s := "C" + ": " + "A";
    assert Example[2] == s;
    ParseOneParent("C", "A");
  }

  lemma ParsesD()
    ensures ParseDecl(Example[3]) == ExampleNodes()[3]
  {
    var s := "D" + ": " + "B" + ", " + "C";
    assert Example[3] == s;
    ParseTwoParents("D", "B", "C");
  }

  /** Each parsed node has its own name as the only ancestors key. */
  lemma ExampleFresh()
    ensures AllFresh(ExampleNodes())
  {
    ExampleParses();
    ParseAllFresh(Example);
  }

  /** Every parent is declared before the node that names it. */
  lemma ExampleBackRefs()
    ensures BackRefs(ExampleNodes())
  {
    var ns := ExampleNodes();
    forall j, p | 0 <= j < |ns| && p in ns[j].parents ensures p in Names(ns[..j + 1]) {
      var i := if p == "A" then 0 else if p == "B" then 1 else 2;
      assert ns[..j + 1][i].name == p;
    }
  }

  /** Four distinct names, three of them named as parents; D is the only one that is not. */
  lemma ExampleNames()
    ensures Names(ExampleNodes()) == {"A", "B", "C", "D"}
    ensures Referenced(ExampleNodes()) == {"A", "B", "C"}
    ensures DistinctNames(ExampleNodes())
    ensures Names(ExampleNodes()) - Referenced(ExampleNodes()) == {"D"}
  {
    var ns := ExampleNodes();
    assert ns[0].name == "A" && ns[1].name == "B" && ns[2].name == "C" && ns[3].name == "D";
    assert "A" in ns[1].parents && "B" in ns[3].parents && "C" in ns[3].parents;
  }

  /** Adding the four nodes succeeds, with D the only leaf. */
  lemma ExampleBuild()
    ensures var b := Build(ExampleNodes());
      b.err.None? && b.store.nodes.Keys == {"A", "B", "C", "D"} && b.store.leaves == {"D"}
      && Consistent(b.store)
  {
    var ns := ExampleNodes();
    ExampleFresh();
    ExampleBackRefs();
    BuildSucceeds(ns);
    ExampleNames();
    LeavesWhenDistinct(ns);
  }

  /** What `NewDAG` computes from the example, as far as the driver looks at it. */
  lemma ExampleOutcome()
    ensures var b := Build(ParseAll(Example));
      b.err.None? && b.store.nodes.Keys == {"A", "B", "C", "D"} && b.store.leaves == {"D"}
  {
    ExampleParses();
    ExampleBuild();
  }

  /** Four well-formed nodes: every one is a bisector, with minimum 1. */
  lemma ExampleBisection(nodes: map<string, Node>, bis: set<string>, m: int)
    requires WellFormed(nodes) && nodes.Keys == {"A", "B", "C", "D"} && IsBisection(nodes, bis, m)
    ensures bis == {"A", "B", "C", "D"} && m == 1
  {
    BisectorTable(nodes, bis, m);
    assert |nodes| == |nodes.Keys| == 4;
  }

  /**
   * The driver: build the example graph and ask for the ancestors of C, the
   * leaves and the bisectors.
   */
  method RunExample() returns (ancestorsOfC: Result<set<string>, DagError>, leaves: set<string>,
                               bisectors: set<string>, bisectorMin: int)
    ensures ancestorsOfC == Success({"C"})
    ensures leaves == {"D"}
    ensures bisectors == {"A", "B", "C", "D"} && bisectorMin == 1
  {
    ExampleOutcome();
    var r := NewDag(Example);
    var dag := r.value;
    ancestorsOfC := dag.GetAncestors("C");
    leaves := dag.GetLeaves();
    bisectors := dag.GetBisectors();
    bisectorMin := dag.bisectorMin;
    ExampleBisection(dag.nodes, bisectors, bisectorMin);
  }
}
