/**
 * What structs.go does on small inputs where it departs from what the names
 * suggest: a node that is its own parent, a name declared twice, an empty
 * parent piece, and a parent that is not declared yet. The names `a` and `b`
 * stand for any names with no white space at either end and no ':' or ','.
 */
module Quirks {
  import opened Wrappers
  import opened GoStrings
  import opened DagModel

  /** A name that parses back as itself wherever a declaration puts it. */
  predicate Plain(x: string) {
    Trimmed(x) && ':' !in x && ',' !in x
  }

  /** "a: a" is accepted: a is stored before its parents are checked, so it finds itself and is no leaf. */
  lemma SelfParentAccepted(a: string)
    requires Plain(a)
    ensures var b := Build(ParseAll([a + ": " + a]));
      b.err.None? && b.store.nodes.Keys == {a} && b.store.leaves == {}
  {
    var n := Node(a, [a], map[a := a]);
    ParseOneParent(a, a);
    assert ParseAll([a + ": " + a]) == [n];
    assert [n][..0] == [];
    AddStep(Store(map[], {}), n);
  }

  /** A parent must be declared before its child: "b: a" on its own fails, naming b and a. */
  lemma MissingParentRejected(a: string, b: string)
    requires Plain(a) && Plain(b) && a != b
    ensures Build(ParseAll([b + ": " + a])).err == Some(UnknownParent(b, a))
  {
    var n := Node(b, [a], map[b := b]);
    ParseOneParent(b, a);
    assert ParseAll([b + ": " + a]) == [n];
    assert [n][..0] == [];
    AddStep(Store(map[], {}), n);
  }

  /** "a: " has one parent piece, the empty one, and keeps it: its parents are [""]. */
  lemma EmptyPieceKept(a: string)
    requires Plain(a)
    ensures ParseDecl(a + ": ").parents == [""]
  {
    assert Padded([""])[0] == " ";
    assert Padded([""]) == [" "];
    assert Declaration(a, [""]) == a + ": ";
    ParseDeclaration(a, [""]);
  }

  /**
   * Declaring a again after b names it as a parent replaces a's node, so
   * the ancestors entry b left on it is gone, and makes a a leaf again,
   * although b still lists it as a parent.
   */
  lemma RedeclaredParentIsLeafAgain(a: string, b: string)
    requires Plain(a) && Plain(b) && a != b
    ensures var r := Build(ParseAll([a + ":", b + ": " + a, a + ":"]));
      && r.err.None?
      && r.store.leaves == {a, b}
      && r.store.nodes.Keys == {a, b}
      && r.store.nodes[a] == Node(a, [], map[a := a])
      && r.store.nodes[b].parents == [a]
  {
    RedeclaredParses(a, b);
    RedeclaredNodes(a, b);
  }

  /** The three declarations parse to a, b with parent a, and a again. */
  lemma RedeclaredParses(a: string, b: string)
    requires Plain(a) && Plain(b)
    ensures ParseAll([a + ":", b + ": " + a, a + ":"]) == [Node(a, [], map[a := a]), Node(b, [a], map[b := b]), Node(a, [], map[a := a])]
  {
    ParseNoParents(a);
    ParseOneParent(b, a);
  }

  /** The same, on the parsed nodes: a, then b with parent a, then a again. */
  lemma RedeclaredNodes(a: string, b: string)
    requires a != b
    ensures var na, nb := Node(a, [], map[a := a]), Node(b, [a], map[b := b]);
      var r := Build([na, nb, na]);
      && r.err.None?
      && r.store.leaves == {a, b}
      && r.store.nodes.Keys == {a, b}
      && r.store.nodes[a] == na
      && r.store.nodes[b].parents == [a]
  {
    var na, nb := Node(a, [], map[a := a]), Node(b, [a], map[b := b]);
    var s1 := Store(map[a := na], {a});
    BuildSnoc([], na);
    assert [] + [na] == [na];
    assert Build([na]) == Step(s1, None);
    var linked := na.(ancestors := map[a := b]);
    var s2 := Store(map[a := linked, b := nb], {b});
    BuildSnoc([na], nb);
    assert [na] + [nb] == [na, nb];
    assert [a][1..] == [];
    assert map[a := a][a := b] == map[a := b];
    assert s1.leaves + {b} == {a, b};
    assert Add(s1, nb) == Link(Store(map[a := na, b := nb], {a, b}), b, [a]);
    assert Link(Store(map[a := na, b := nb], {a, b}), b, [a]) == Link(Store(map[a := na, b := nb][a := linked], {a, b} - {a}), b, []);
    assert map[a := na, b := nb][a := linked] == s2.nodes;
    assert {a, b} - {a} == {b};
    assert Build([na, nb]) == Step(s2, None);
    BuildSnoc([na, nb], na);
    assert [na, nb] + [na] == [na, nb, na];
    assert Build([na, nb, na]) == Step(Store(s2.nodes[a := na], {b} + {a}), None);
  }
}
