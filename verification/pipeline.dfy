/**
 The whole pass (lib/export.ts, `reWriteWithExports`) over files that are
 already listed and parsed, and what one run and two runs do to the tree.
 */
module Pipeline {
  import opened Ast
  import opened FragmentIndex
  import opened Resolver
  import opened Annotator

  /** `reWriteWithExports`: index every `.graphql` file, compute the required
      names, and return the writes `writeBackWithExports` performs. */
  method ReWriteWithExports(inputs: seq<SourceFile>) returns (writes: seq<FileWrite>)
    ensures writes == PlannedWrites(GraphqlSources(inputs), RequiredOf(GraphqlSources(inputs)))
  {
    var mappedFiles := ParsePath(inputs);
    var fragmentsToMark := ProduceFragmentsToMark(mappedFiles);
    IndexedRun(GraphqlSources(inputs), mappedFiles, fragmentsToMark);
    writes := WriteBackWithExports(mappedFiles, fragmentsToMark);
  }

  /** What `parsePath` and `produceFragmentsToMark` hand to the writer is the
      listed files themselves and the required set of the run. */
  lemma IndexedRun(sources: seq<SourceFile>, files: seq<FileIndex>, fragmentsToMark: set<string>)
    requires |files| == |sources|
    requires forall j :: 0 <= j < |files| ==> IndexOf(sources[j], files[j])
    requires forall n :: n in fragmentsToMark <==> ToFind(files, |files|, n) || ExportedIn(files, |files|, n)
    ensures SourcesOf(files) == sources
    ensures fragmentsToMark == RequiredOf(sources)
  {
    forall n ensures n in fragmentsToMark <==> n in RequiredOf(sources) {
      MarkedIsRequired(sources, files, n);
    }
  }

  /** The files after one run: each holds its annotated definition list. */
  function AfterRun(sources: seq<SourceFile>): (r: seq<SourceFile>)
    ensures |r| == |sources|
  {
    seq(|sources|, i requires 0 <= i < |sources| =>
      SourceFile(sources[i].path, Annotate(sources[i].document, RequiredOf(sources))))
  }

  /** A file of the run changes exactly when some definition in it is
      rewritten; a changed file is overwritten with its new content, and an
      unchanged file (whose path no other file shares) is not written. */
  lemma AfterRunMatchesWrites(sources: seq<SourceFile>, i: int)
    requires 0 <= i < |sources|
    ensures AfterRun(sources)[i].path == sources[i].path
    ensures AfterRun(sources)[i] == sources[i] <==> !NeedsWrite(sources[i].document, RequiredOf(sources))
    ensures NeedsWrite(sources[i].document, RequiredOf(sources)) ==>
      FileWrite(sources[i].path, AfterRun(sources)[i].document) in PlannedWrites(sources, RequiredOf(sources))
    ensures (!NeedsWrite(sources[i].document, RequiredOf(sources)) &&
             (forall j :: 0 <= j < |sources| && j != i ==> sources[j].path != sources[i].path)) ==>
      forall w :: w in PlannedWrites(sources, RequiredOf(sources)) ==> w.path != sources[i].path
  {
    var r := RequiredOf(sources);
    var doc := sources[i].document;
    NeedsWriteIffChanged(doc, r);
    PlannedWritesMembers(sources, r, FileWrite(sources[i].path, Annotate(doc, r)));
    forall w | w in PlannedWrites(sources, r) && !NeedsWrite(doc, r)
      ensures exists j :: 0 <= j < |sources| && j != i && w.path == sources[j].path
    {
      PlannedWritesMembers(sources, r, w);
    }
  }

  /** One run leaves the required set unchanged: the names it newly marks
      were required already. */
  lemma RequiredStable(sources: seq<SourceFile>)
    ensures RequiredOf(AfterRun(sources)) == RequiredOf(sources)
  {
    var r := RequiredOf(sources);
    var after := AfterRun(sources);
    forall i | 0 <= i < |sources|
      ensures LocallyRequired(after[i].document) == LocallyRequired(sources[i].document) + (FragmentNames(sources[i].document) * r)
    {
      AnnotatePreservesIndex(sources[i].document, r);
    }
    forall n ensures n in RequiredOf(after) <==> n in r {
      if n in RequiredOf(after) {
        var i :| 0 <= i < |after| && n in LocallyRequired(after[i].document);
      }
      if n in r {
        var i :| 0 <= i < |sources| && n in LocallyRequired(sources[i].document);
        assert n in LocallyRequired(after[i].document);
      }
    }
  }

  lemma {:induction false} GraphqlSourcesKeepsAll(sources: seq<SourceFile>)
    requires forall i :: 0 <= i < |sources| ==> IsGraphqlPath(sources[i].path)
    ensures GraphqlSources(sources) == sources
  {
    if sources != [] {
      var k := |sources| - 1;
      GraphqlSourcesKeepsAll(sources[..k]);
      assert sources == sources[..k] + [sources[k]];
    }
  }

  /** Idempotence: a second run over the files the first run produced
      keeps the same files, finds nothing to rewrite and writes nothing. */
  lemma SecondRunWritesNothing(inputs: seq<SourceFile>)
    ensures GraphqlSources(AfterRun(GraphqlSources(inputs))) == AfterRun(GraphqlSources(inputs))
    ensures AfterRun(AfterRun(GraphqlSources(inputs))) == AfterRun(GraphqlSources(inputs))
    ensures PlannedWrites(AfterRun(GraphqlSources(inputs)), RequiredOf(AfterRun(GraphqlSources(inputs)))) == []
  {
    var sources := GraphqlSources(inputs);
    var after := AfterRun(sources);
    var r := RequiredOf(sources);
    forall i | 0 <= i < |after| ensures IsGraphqlPath(after[i].path) {
      assert sources[i] in sources;
    }
    GraphqlSourcesKeepsAll(after);
    RequiredStable(sources);
    forall i | 0 <= i < |after| ensures !NeedsWrite(after[i].document, r)
      && Annotate(after[i].document, r) == after[i].document
    {
      AnnotateIdempotent(sources[i].document, r);
    }
    var writes := PlannedWrites(after, r);
    if writes != [] {
      PlannedWritesMembers(after, r, writes[0]);
    }
  }

  /** Closure: a fragment spread in some file that does not define that name
      gets `@export` in every file that defines it, and keeps its name, type
      condition, selection set and location. */
  lemma CrossFileReferenceIsExported(sources: seq<SourceFile>, i: int, j: int, k: int)
    requires 0 <= i < |sources| && 0 <= j < |sources|
    requires 0 <= k < |sources[j].document| && sources[j].document[k].FragmentDef?
    requires sources[j].document[k].fragment.name in DocumentSpreads(sources[i].document)
    requires sources[j].document[k].fragment.name !in FragmentNames(sources[i].document)
    ensures AfterRun(sources)[j].document[k].FragmentDef?
    ensures HasExport(AfterRun(sources)[j].document[k].fragment)
    ensures AfterRun(sources)[j].document[k].fragment.name == sources[j].document[k].fragment.name
    ensures AfterRun(sources)[j].document[k].fragment.typeCondition == sources[j].document[k].fragment.typeCondition
    ensures AfterRun(sources)[j].document[k].fragment.selectionSet == sources[j].document[k].fragment.selectionSet
    ensures AfterRun(sources)[j].document[k].fragment.loc == sources[j].document[k].fragment.loc
  {
    var r := RequiredOf(sources);
    var doc := sources[j].document;
    assert doc[k].fragment.name in LocallyRequired(sources[i].document);
    AnnotateMarksRequired(doc, r, k);
    if NeedsExport(doc[k], r) {
      WithExportChangesOnlyDirectives(doc[k].fragment);
    }
  }

  /** No false positives: a name that no file leaves unresolved and no file
      exports is never marked; its fragments stay exactly as they were. */
  lemma LocalOnlyFragmentIsUntouched(sources: seq<SourceFile>, n: string)
    requires forall i :: 0 <= i < |sources| ==>
      (n in DocumentSpreads(sources[i].document) ==> n in FragmentNames(sources[i].document))
    requires forall i :: 0 <= i < |sources| ==> n !in ExportedNames(sources[i].document)
    ensures forall j, k ::
      (0 <= j < |sources| && 0 <= k < |sources[j].document| &&
       sources[j].document[k].FragmentDef? && sources[j].document[k].fragment.name == n) ==>
        AfterRun(sources)[j].document[k] == sources[j].document[k]
  {
    assert n !in RequiredOf(sources);
  }

  /** Marker monotonicity: a fragment already carrying `@export` comes out of
      the run unchanged. */
  lemma ExportedFragmentIsKept(sources: seq<SourceFile>, j: int, k: int)
    requires 0 <= j < |sources| && 0 <= k < |sources[j].document|
    requires sources[j].document[k].FragmentDef? && HasExport(sources[j].document[k].fragment)
    ensures AfterRun(sources)[j].document[k] == sources[j].document[k]
    ensures sources[j].document[k].fragment.name in RequiredOf(sources)
  {
    assert sources[j].document[k].fragment.name in LocallyRequired(sources[j].document);
  }
}
