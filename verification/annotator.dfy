/**
 Annotator and write decision (lib/export.ts, `writeBackWithExports`): the
 definition-rewriting loop, the `shouldWrite` flag and the per-file write.
 */
module Annotator {
  import opened Ast
  import opened FragmentIndex

  /** The condition of the rewrite: a fragment definition whose name is
      required and which has no `@export` yet. */
  predicate NeedsExport(d: Definition, fragmentsToMark: set<string>) {
    d.FragmentDef? && d.fragment.name in fragmentsToMark && !HasExport(d.fragment)
  }

  /** The fragment with `@export` appended to its directive list. */
  function WithExport(f: FragmentDefinition): FragmentDefinition {
    f.(directives := f.directives + [ExportDirective])
  }

  /** How many directives in `ds` are named `export`. */
  function CountExports(ds: seq<Directive>): nat {
    if ds == [] then 0 else (if ds[0].name == ExportName then 1 else 0) + CountExports(ds[1..])
  }

  lemma {:induction false} CountExportsAppend(ds: seq<Directive>, d: Directive)
    ensures CountExports(ds + [d]) == CountExports(ds) + (if d.name == ExportName then 1 else 0)
  {
    if ds != [] {
      assert (ds + [d])[1..] == ds[1..] + [d];
      CountExportsAppend(ds[1..], d);
    }
  }

  lemma {:induction false} CountExportsZero(f: FragmentDefinition)
    ensures CountExports(f.directives) == 0 <==> !HasExport(f)
    decreases |f.directives|
  {
    var ds := f.directives;
    if ds != [] {
      CountExportsZero(f.(directives := ds[1..]));
      assert forall d :: d in ds <==> d == ds[0] || d in ds[1..];
    }
  }

  /** Lines 121-141: copy the directive list, push `@export`, and build a new
      fragment node from the old one's name, type condition, selection set
      and location. */
  method RewriteFragment(f: FragmentDefinition) returns (g: FragmentDefinition)
    ensures g == WithExport(f)
  {
    var directiveList: seq<Directive> := [];
    for k := 0 to |f.directives|
      invariant directiveList == f.directives[..k]
    {
      directiveList := directiveList + [f.directives[k]];
    }
    assert f.directives[..|f.directives|] == f.directives;
    directiveList := directiveList + [ExportDirective];
    g := FragmentDefinition(f.name, f.typeCondition, directiveList, f.selectionSet, f.loc);
  }

  /** Only the directive list differs after the rewrite, and it gains exactly
      one `@export`, at the end, where there was none. */
  lemma WithExportChangesOnlyDirectives(f: FragmentDefinition)
    requires !HasExport(f)
    ensures WithExport(f).name == f.name && WithExport(f).typeCondition == f.typeCondition
    ensures WithExport(f).selectionSet == f.selectionSet && WithExport(f).loc == f.loc
    ensures WithExport(f).directives[..|f.directives|] == f.directives
    ensures WithExport(f).directives[|f.directives|] == ExportDirective
    ensures HasExport(WithExport(f))
    ensures CountExports(WithExport(f).directives) == 1
  {
    CountExportsZero(f);
    CountExportsAppend(f.directives, ExportDirective);
  }

  /** The definition the loop pushes onto `newDefs`. */
  function Annotated(d: Definition, fragmentsToMark: set<string>): Definition {
    if NeedsExport(d, fragmentsToMark) then FragmentDef(WithExport(d.fragment)) else d
  }

  /** The new definition list, one entry per original definition. */
  function Annotate(doc: Document, fragmentsToMark: set<string>): (r: Document)
    ensures |r| == |doc|
  {
    seq(|doc|, i requires 0 <= i < |doc| => Annotated(doc[i], fragmentsToMark))
  }

  /** Some definition of `doc` is rewritten. */
  predicate NeedsWrite(doc: Document, fragmentsToMark: set<string>) {
    exists i :: 0 <= i < |doc| && NeedsExport(doc[i], fragmentsToMark)
  }

  /** The rewrite loop of `writeBackWithExports` for one file. */
  method AnnotateDefinitions(definitions: Document, fragmentsToMark: set<string>)
    returns (newDefs: Document, shouldWrite: bool)
    ensures newDefs == Annotate(definitions, fragmentsToMark)
    ensures shouldWrite <==> NeedsWrite(definitions, fragmentsToMark)
  {
    shouldWrite := false;
    newDefs := [];
    for i := 0 to |definitions|
      invariant |newDefs| == i
      invariant forall j :: 0 <= j < i ==> newDefs[j] == Annotated(definitions[j], fragmentsToMark)
      invariant shouldWrite <==> exists j :: 0 <= j < i && NeedsExport(definitions[j], fragmentsToMark)
    {
      var definition := definitions[i];
      if definition.FragmentDef? && definition.fragment.name in fragmentsToMark
         && !HasExport(definition.fragment)
      {
        var newFragmentDef := RewriteFragment(definition.fragment);
        newDefs := newDefs + [FragmentDef(newFragmentDef)];
        shouldWrite := true;
      } else {
        newDefs := newDefs + [definition];
      }
    }
  }

  /** Rewritten if and only if required and unmarked; otherwise the same
      definition at the same index. */
  lemma AnnotateAt(doc: Document, fragmentsToMark: set<string>, i: int)
    requires 0 <= i < |doc|
    ensures Annotate(doc, fragmentsToMark)[i] != doc[i] <==> NeedsExport(doc[i], fragmentsToMark)
    ensures !NeedsExport(doc[i], fragmentsToMark) ==> Annotate(doc, fragmentsToMark)[i] == doc[i]
    ensures NeedsExport(doc[i], fragmentsToMark) ==>
      Annotate(doc, fragmentsToMark)[i] == FragmentDef(WithExport(doc[i].fragment))
  {
    if NeedsExport(doc[i], fragmentsToMark) {
      var f := doc[i].fragment;
      assert |WithExport(f).directives| != |f.directives|;
    }
  }

  /** `shouldWrite` is set exactly when the new definition list differs from
      the original one. */
  lemma NeedsWriteIffChanged(doc: Document, fragmentsToMark: set<string>)
    ensures NeedsWrite(doc, fragmentsToMark) <==> Annotate(doc, fragmentsToMark) != doc
  {
    if NeedsWrite(doc, fragmentsToMark) {
      var i :| 0 <= i < |doc| && NeedsExport(doc[i], fragmentsToMark);
      AnnotateAt(doc, fragmentsToMark, i);
    } else {
      forall i | 0 <= i < |doc| ensures Annotate(doc, fragmentsToMark)[i] == doc[i] {
        AnnotateAt(doc, fragmentsToMark, i);
      }
    }
  }

  /** After the rewrite every fragment whose name is required carries
      `@export`, and no fragment carries it twice where it had none. */
  lemma AnnotateMarksRequired(doc: Document, fragmentsToMark: set<string>, i: int)
    requires 0 <= i < |doc| && doc[i].FragmentDef?
    ensures Annotate(doc, fragmentsToMark)[i].FragmentDef?
    ensures doc[i].fragment.name in fragmentsToMark ==> HasExport(Annotate(doc, fragmentsToMark)[i].fragment)
    ensures CountExports(Annotate(doc, fragmentsToMark)[i].fragment.directives) ==
      if NeedsExport(doc[i], fragmentsToMark) then 1 else CountExports(doc[i].fragment.directives)
  {
    if NeedsExport(doc[i], fragmentsToMark) {
      WithExportChangesOnlyDirectives(doc[i].fragment);
    }
  }

  /** A second rewrite with the same set changes nothing and writes nothing. */
  lemma AnnotateIdempotent(doc: Document, fragmentsToMark: set<string>)
    ensures Annotate(Annotate(doc, fragmentsToMark), fragmentsToMark) == Annotate(doc, fragmentsToMark)
    ensures !NeedsWrite(Annotate(doc, fragmentsToMark), fragmentsToMark)
  {
    var once := Annotate(doc, fragmentsToMark);
    forall i | 0 <= i < |once| ensures !NeedsExport(once[i], fragmentsToMark) {
      if doc[i].FragmentDef? {
        AnnotateMarksRequired(doc, fragmentsToMark, i);
      }
    }
  }

  /** The rewrite keeps every fragment name and every spread, and the
      exported names grow by exactly the required names defined here. */
  lemma {:induction false} AnnotatePreservesIndex(doc: Document, fragmentsToMark: set<string>)
    ensures FragmentNames(Annotate(doc, fragmentsToMark)) == FragmentNames(doc)
    ensures DocumentSpreads(Annotate(doc, fragmentsToMark)) == DocumentSpreads(doc)
    ensures ExportedNames(Annotate(doc, fragmentsToMark)) ==
      ExportedNames(doc) + (FragmentNames(doc) * fragmentsToMark)
  {
    var r := Annotate(doc, fragmentsToMark);
    if doc != [] {
      AnnotatePreservesIndex(doc[1..], fragmentsToMark);
      assert r[1..] == Annotate(doc[1..], fragmentsToMark);
      NamesOfFirstAndRest(doc);
      NamesOfFirstAndRest(r);
      assert SelectionSetOf(r[0]) == SelectionSetOf(doc[0]);
      if doc[0].FragmentDef? {
        AnnotateMarksRequired(doc, fragmentsToMark, 0);
      }
    }
  }

  lemma NamesOfFirstAndRest(doc: Document)
    requires doc != []
    ensures FragmentNames(doc) ==
      FragmentNames(doc[1..]) + (if doc[0].FragmentDef? then {doc[0].fragment.name} else {})
    ensures ExportedNames(doc) == ExportedNames(doc[1..]) +
      (if doc[0].FragmentDef? && HasExport(doc[0].fragment) then {doc[0].fragment.name} else {})
  {
    assert forall d :: d in doc <==> d == doc[0] || d in doc[1..];
  }

  /** One overwritten file: its path and the printed definition list. */
  datatype FileWrite = FileWrite(path: string, definitions: Document)

  /** The files overwritten for a given required set, in file order: only
      those with at least one rewritten definition. */
  function PlannedWrites(sources: seq<SourceFile>, fragmentsToMark: set<string>): (r: seq<FileWrite>)
    ensures |r| <= |sources|
  {
    if sources == [] then []
    else
      var k := |sources| - 1;
      var s := sources[k];
      PlannedWrites(sources[..k], fragmentsToMark) +
        (if NeedsWrite(s.document, fragmentsToMark)
         then [FileWrite(s.path, Annotate(s.document, fragmentsToMark))] else [])
  }

  /** A file is written if and only if some definition in it is rewritten,
      and what is written is its annotated definition list. */
  lemma {:induction false} PlannedWritesMembers(sources: seq<SourceFile>, fragmentsToMark: set<string>, w: FileWrite)
    ensures w in PlannedWrites(sources, fragmentsToMark) <==>
      exists i :: 0 <= i < |sources| && NeedsWrite(sources[i].document, fragmentsToMark) &&
        w == FileWrite(sources[i].path, Annotate(sources[i].document, fragmentsToMark))
  {
    if sources != [] {
      var k := |sources| - 1;
      PlannedWritesMembers(sources[..k], fragmentsToMark, w);
      assert forall i :: 0 <= i < k ==> sources[..k][i] == sources[i];
    }
  }

  /** The (path, document) pairs an index list was built from. */
  function SourcesOf(files: seq<FileIndex>): (r: seq<SourceFile>)
    ensures |r| == |files|
  {
    seq(|files|, i requires 0 <= i < |files| => SourceFile(files[i].filepath, files[i].originalDocument))
  }

  /** `writeBackWithExports`: rewrite every file, and emit a write for the
      files whose `shouldWrite` flag was set. */
  method WriteBackWithExports(files: seq<FileIndex>, fragmentsToMark: set<string>)
    returns (writes: seq<FileWrite>)
    ensures writes == PlannedWrites(SourcesOf(files), fragmentsToMark)
  {
    writes := [];
    for i := 0 to |files|
      invariant writes == PlannedWrites(SourcesOf(files)[..i], fragmentsToMark)
    {
      var newDefs, shouldWrite := AnnotateDefinitions(files[i].originalDocument, fragmentsToMark);
      assert SourcesOf(files)[..i + 1][..i] == SourcesOf(files)[..i];
      if shouldWrite {
        writes := writes + [FileWrite(files[i].filepath, newDefs)];
      }
    }
    assert SourcesOf(files)[..|files|] == SourcesOf(files);
  }
}
