/**
 Cross-file resolver (lib/export.ts, `produceFragmentsToMark`): the names
 that must carry `@export` after the run.
 */
module Resolver {
  import opened Ast
  import opened FragmentIndex

  /** What one document contributes to the required set: spreads it cannot
      resolve locally, and the names it already exports. */
  function LocallyRequired(doc: Document): set<string> {
    (DocumentSpreads(doc) - FragmentNames(doc)) + ExportedNames(doc)
  }

  /** The required set of a whole run, as a function of the parsed files. */
  function RequiredOf(sources: seq<SourceFile>): (r: set<string>)
    ensures forall n :: n in r <==> exists i :: 0 <= i < |sources| && n in LocallyRequired(sources[i].document)
  {
    if sources == [] then {}
    else
      var k := |sources| - 1;
      var prior := RequiredOf(sources[..k]);
      assert forall i :: 0 <= i < k ==> sources[..k][i] == sources[i];
      prior + LocallyRequired(sources[k].document)
  }

  /** Some file has `n` among its unresolved spreads. */
  ghost predicate ToFind(files: seq<FileIndex>, upTo: int, n: string)
    requires 0 <= upTo <= |files|
  {
    exists j :: 0 <= j < upTo && n in files[j].fragmentsToFind
  }

  /** Some file holds an exported fragment named `n`. */
  ghost predicate ExportedIn(files: seq<FileIndex>, upTo: int, n: string)
    requires 0 <= upTo <= |files|
  {
    exists j, k :: 0 <= j < upTo && k in files[j].exportedFragments && files[j].exportedFragments[k].name == n
  }

  /** `produceFragmentsToMark`: the union of every file's `fragmentsToFind`
      and the names of every file's exported fragments. */
  method ProduceFragmentsToMark(files: seq<FileIndex>) returns (fragmentsToMark: set<string>)
    ensures forall n :: n in fragmentsToMark <==> ToFind(files, |files|, n) || ExportedIn(files, |files|, n)
  {
    fragmentsToMark := {};
    for i := 0 to |files|
      invariant forall n :: n in fragmentsToMark <==> ToFind(files, i, n)
    {
      var pending := files[i].fragmentsToFind;
      while pending != {}
        invariant pending <= files[i].fragmentsToFind
        invariant forall n :: n in fragmentsToMark <==>
          ToFind(files, i, n) || n in files[i].fragmentsToFind - pending
        decreases pending
      {
        var n :| n in pending;
        fragmentsToMark := fragmentsToMark + {n};
        pending := pending - {n};
      }
    }
    for i := 0 to |files|
      invariant forall n :: n in fragmentsToMark <==> ToFind(files, |files|, n) || ExportedIn(files, i, n)
    {
      var exported := files[i].exportedFragments;
      var pending := exported.Keys;
      while pending != {}
        invariant pending <= exported.Keys
        invariant forall n :: n in fragmentsToMark <==>
          ToFind(files, |files|, n) || ExportedIn(files, i, n) ||
          exists k :: k in exported.Keys - pending && exported[k].name == n
        decreases pending
      {
        var k :| k in pending;
        fragmentsToMark := fragmentsToMark + {exported[k].name};
        pending := pending - {k};
      }
    }
  }

  /** On the indices `parsePath` builds, the marked set is exactly the
      required set of the run. */
  lemma MarkedIsRequired(sources: seq<SourceFile>, files: seq<FileIndex>, n: string)
    requires |files| == |sources|
    requires forall j :: 0 <= j < |files| ==> IndexOf(sources[j], files[j])
    ensures ToFind(files, |files|, n) || ExportedIn(files, |files|, n) <==> n in RequiredOf(sources)
  {
    if n in RequiredOf(sources) {
      var i :| 0 <= i < |sources| && n in LocallyRequired(sources[i].document);
      ExportedMapKeys(sources[i].document, files[i].exportedFragments);
      if n !in files[i].fragmentsToFind {
        assert n in files[i].exportedFragments;
      }
    }
    if ExportedIn(files, |files|, n) {
      var j, k :| 0 <= j < |files| && k in files[j].exportedFragments && files[j].exportedFragments[k].name == n;
      ExportedMapKeys(sources[j].document, files[j].exportedFragments);
      assert n in LocallyRequired(sources[j].document);
    }
  }
}
