/**
 Concrete runs of the model: the expectations of lib/gpt-tests.ts for the
 index functions, and a three-file tree where exports cross file
 boundaries.
 */
module ExportExamples {
  import opened Ast
  import opened FragmentIndex
  import opened Resolver
  import opened Annotator
  import opened Pipeline

  function Frag(name: string, directives: seq<Directive>, sel: seq<Selection>): FragmentDefinition {
    FragmentDefinition(name, "Type", directives, sel, None)
  }

  /** lib/gpt-tests.ts, lines 4-8: `{ field }` has no fragment definitions. */
  method NoFragmentDefsTest() {
    var query := [OperationDef(Query, None, [], [Field("field", [])])];
    assert FragmentNames(query) == {};
    var defs := GetAllFragmentDefs(query);
    assert defs == map[];
  }

  /** lib/gpt-tests.ts, lines 10-18:
      `fragment A on Type { field } fragment B on Type { otherField }`. */
  method TwoFragmentDefsTest() {
    var a := Frag("A", [], [Field("field", [])]);
    var b := Frag("B", [], [Field("otherField", [])]);
    var twoDefs := [FragmentDef(a), FragmentDef(b)];
    assert FragmentNames(twoDefs) == {"A", "B"};
    var defs := GetAllFragmentDefs(twoDefs);
    var defA, defB := defs["A"], defs["B"];
    assert FragmentDef(defA) in twoDefs && defA.name == "A";
    assert FragmentDef(defB) in twoDefs && defB.name == "B";
    assert a.name != "B" && b.name != "A";
    assert defA == a && defB == b;
    assert defs.Keys == {"A", "B"};
  }

  /** lib/gpt-tests.ts, lines 21-33: `getExportedFragments`. */
  method ExportedFragmentsTests() {
    // `fragment A on Type { field }`: nothing exported.
    var a := Frag("A", [], [Field("field", [])]);
    assert GetExportedFragments([FragmentDef(a)]) == [];

    // `... fragment B on Type @export { otherField }`
    var b := Frag("B", [ExportDirective], [Field("otherField", [])]);
    assert HasExport(b) && !HasExport(a);
    var doc := [FragmentDef(a), FragmentDef(b)];
    assert doc[1..][1..] == [];
    assert GetExportedFragments(doc) == [b];
  }

  /** lib/gpt-tests.ts, lines 36-48: `findUnkownFragmentNames`. */
  method UnknownFragmentNamesTests() {
    // `fragment A on Type { field }`: no spreads, nothing unknown.
    var oneDef := [FragmentDef(Frag("A", [], [Field("field", [])]))];
    assert DocumentSpreads(oneDef) == {} by {
      assert oneDef[1..] == [];
      assert SelectionSetSpreads([Field("field", [])]) == {} by {
        assert [Field("field", [])][1..] == [];
      }
    }
    var unknown := FindUnknownFragmentNames(oneDef);
    assert unknown == {};

    // `fragment A on Type { ...B } fragment C on Type { ...D }`
    var spreading := [FragmentDef(Frag("A", [], [FragmentSpread("B")])),
                      FragmentDef(Frag("C", [], [FragmentSpread("D")]))];
    assert DocumentSpreads(spreading) == {"B", "D"} by {
      assert spreading[1..][1..] == [];
      assert [FragmentSpread("B")][1..] == [] && [FragmentSpread("D")][1..] == [];
      assert SelectionSetSpreads([FragmentSpread("B")]) == {"B"};
      assert SelectionSetSpreads([FragmentSpread("D")]) == {"D"};
    }
    assert FragmentNames(spreading) == {"A", "C"};
    unknown := FindUnknownFragmentNames(spreading);
    assert unknown == {"B", "D"};
  }

  /** File `a` defines `F`; `b` defines `G` and spreads `F`; `c` only spreads
      `G`. One run marks `F` and `G`, rewrites `a` and `b`, and leaves `c`. */
  lemma ThreeFileTree()
    ensures
      var f := Frag("F", [], [Field("id", [])]);
      var g := Frag("G", [], [FragmentSpread("F")]);
      var tree := [SourceFile("a.graphql", [FragmentDef(f)]),
                   SourceFile("b.graphql", [FragmentDef(g)]),
                   SourceFile("c.graphql", [OperationDef(Query, None, [], [FragmentSpread("G")])])];
      && RequiredOf(tree) == {"F", "G"}
      && PlannedWrites(tree, RequiredOf(tree)) ==
           [FileWrite("a.graphql", [FragmentDef(WithExport(f))]),
            FileWrite("b.graphql", [FragmentDef(WithExport(g))])]
  {
    var f := Frag("F", [], [Field("id", [])]);
    var g := Frag("G", [], [FragmentSpread("F")]);
    var a := [FragmentDef(f)];
    var b := [FragmentDef(g)];
    var c := [OperationDef(Query, None, [], [FragmentSpread("G")])];
    var tree := [SourceFile("a.graphql", a), SourceFile("b.graphql", b), SourceFile("c.graphql", c)];
    assert FragmentNames(a) == {"F"} && FragmentNames(b) == {"G"} && FragmentNames(c) == {};
    assert ExportedNames(a) == {} && ExportedNames(b) == {} && ExportedNames(c) == {};
    assert DocumentSpreads(a) == {} by {
      assert a[1..] == [] && [Field("id", [])][1..] == [];
    }
    assert DocumentSpreads(b) == {"F"} by {
      assert b[1..] == [] && [FragmentSpread("F")][1..] == [];
    }
    assert DocumentSpreads(c) == {"G"} by {
      assert c[1..] == [] && [FragmentSpread("G")][1..] == [];
    }
    assert LocallyRequired(a) == {} && LocallyRequired(b) == {"F"} && LocallyRequired(c) == {"G"};
    var r := RequiredOf(tree);
    assert tree[..2][..1] == tree[..1] && tree[..1][..0] == [];
    assert RequiredOf(tree[..1]) == {};
    assert RequiredOf(tree[..2]) == {"F"};
    assert r == {"F", "G"};
    assert NeedsExport(a[0], r) && NeedsExport(b[0], r);
    assert NeedsWrite(a, r) && NeedsWrite(b, r) && !NeedsWrite(c, r);
    assert Annotate(a, r) == [FragmentDef(WithExport(f))];
    assert Annotate(b, r) == [FragmentDef(WithExport(g))];
    assert PlannedWrites(tree[..1], r) == [FileWrite("a.graphql", [FragmentDef(WithExport(f))])];
    assert PlannedWrites(tree[..2], r) ==
      [FileWrite("a.graphql", [FragmentDef(WithExport(f))]), FileWrite("b.graphql", [FragmentDef(WithExport(g))])];
  }
}
