/**
 Per-document fragment index (lib/export.ts, `getAllFragmentDefs`,
 `getExportedFragments`, `findUnkownFragmentNames` and the indexing body
 of `parsePath`).
 */
module FragmentIndex {
  import opened Ast

  /** `a` is `b` with some elements left out, the rest in the same order. */
  predicate IsSubsequence<T(==)>(a: seq<T>, b: seq<T>)
    decreases |b|
  {
    a == [] || (b != [] && ((a[0] == b[0] && IsSubsequence(a[1..], b[1..])) || IsSubsequence(a, b[1..])))
  }

  /** The fragment definitions carrying `@export`, in document order. */
  function GetExportedFragments(doc: Document): (r: seq<FragmentDefinition>)
    ensures IsSubsequence(r, FragmentsOf(doc))
    ensures forall f :: multiset(r)[f] == if HasExport(f) then multiset(doc)[FragmentDef(f)] else 0
  {
    if doc == [] then []
    else
      assert doc == [doc[0]] + doc[1..];
      var rest := GetExportedFragments(doc[1..]);
      var fs := FragmentsOf(doc[1..]);
      if doc[0].FragmentDef? then
        var f := doc[0].fragment;
        assert FragmentsOf(doc) == [f] + fs;
        if HasExport(f) then
          assert ([f] + rest)[1..] == rest;
          assert ([f] + fs)[1..] == fs;
          [f] + rest
        else
          assert ([f] + fs)[1..] == fs;
          rest
      else
        assert FragmentsOf(doc) == fs;
        rest
  }

  /** Names of the fragments of `doc` that carry `@export`. */
  function ExportedNames(doc: Document): set<string> {
    set d | d in doc && d.FragmentDef? && HasExport(d.fragment) :: d.fragment.name
  }

  /** The list of exported fragments holds exactly the exported fragment
      definitions of the document. */
  lemma ExportedFragmentsMembers(doc: Document, f: FragmentDefinition)
    ensures f in GetExportedFragments(doc) <==> FragmentDef(f) in doc && HasExport(f)
  {
    var r := GetExportedFragments(doc);
    assert f in r <==> multiset(r)[f] > 0;
    assert FragmentDef(f) in doc <==> multiset(doc)[FragmentDef(f)] > 0;
  }

  /** `f` is the last element of `frags` named `n`. */
  ghost predicate LastWithName(frags: seq<FragmentDefinition>, n: string, f: FragmentDefinition) {
    exists i :: 0 <= i < |frags| && frags[i] == f && f.name == n &&
      forall j :: i < j < |frags| ==> frags[j].name != n
  }

  /** `m` maps every name occurring in `frags` to its last definition there,
      which is what `Map.set` in document order leaves behind. */
  ghost predicate MapsToLastDefinition(frags: seq<FragmentDefinition>, m: map<string, FragmentDefinition>) {
    && (forall n :: n in m <==> exists i :: 0 <= i < |frags| && frags[i].name == n)
    && (forall n :: n in m ==> LastWithName(frags, n, m[n]))
  }

  /** `frags.forEach(f => map.set(f.name.value, f))` on a fresh map. */
  method IndexByName(frags: seq<FragmentDefinition>) returns (m: map<string, FragmentDefinition>)
    ensures MapsToLastDefinition(frags, m)
  {
    m := map[];
    for k := 0 to |frags|
      invariant MapsToLastDefinition(frags[..k], m)
    {
      var f := frags[k];
      ghost var prefix := frags[..k + 1];
      assert prefix == frags[..k] + [f];
      forall n | n in m && n != f.name
        ensures LastWithName(prefix, n, m[n])
      {
        var i :| 0 <= i < k && frags[..k][i] == m[n] && m[n].name == n &&
          forall j :: i < j < k ==> frags[..k][j].name != n;
        assert prefix[i] == m[n];
      }
      assert LastWithName(prefix, f.name, f) by { assert prefix[k] == f; }
      m := m[f.name := f];
    }
    assert frags[..|frags|] == frags;
  }

  /** `getAllFragmentDefs`: every fragment name of the document, mapped to
      its last definition (later duplicates win). Operations contribute
      nothing. */
  method GetAllFragmentDefs(doc: Document) returns (m: map<string, FragmentDefinition>)
    ensures m.Keys == FragmentNames(doc)
    ensures forall n :: n in m ==> m[n].name == n && FragmentDef(m[n]) in doc
    ensures MapsToLastDefinition(FragmentsOf(doc), m)
  {
    var frags := FragmentsOf(doc);
    m := IndexByName(frags);
    forall n | n in m ensures m[n].name == n && FragmentDef(m[n]) in doc {
      var i :| 0 <= i < |frags| && frags[i] == m[n] && m[n].name == n &&
        forall j :: i < j < |frags| ==> frags[j].name != n;
      assert frags[i] in frags;
    }
    forall n | n in FragmentNames(doc) ensures n in m {
      var d :| d in doc && d.FragmentDef? && d.fragment.name == n;
      assert d.fragment in frags;
      var i :| 0 <= i < |frags| && frags[i] == d.fragment;
    }
  }

  /** `findUnkownFragmentNames`: all spread names in the document minus the
      names of its own fragment definitions. */
  method FindUnknownFragmentNames(doc: Document) returns (unknown: set<string>)
    ensures forall n :: n in unknown <==> n in DocumentSpreads(doc) && n !in FragmentNames(doc)
  {
    var definedInFile := FragmentNames(doc);
    unknown := DocumentSpreads(doc);
    var pending := definedInFile;
    while pending != {}
      invariant pending <= definedInFile
      invariant unknown == DocumentSpreads(doc) - (definedInFile - pending)
      decreases pending
    {
      var n :| n in pending;
      unknown := unknown - {n};
      pending := pending - {n};
    }
  }

  /** One matched file before indexing: its path and its parsed document. */
  datatype SourceFile = SourceFile(path: string, document: Document)

  /** `FileWithExportedFragments` of the source. */
  datatype FileIndex = FileIndex(
    filepath: string,
    exportedFragments: map<string, FragmentDefinition>,
    fragmentsToFind: set<string>,
    allFragmentDefinitions: map<string, FragmentDefinition>,
    originalDocument: Document)

  /** `f` is the index `parsePath` builds for `src`. */
  ghost predicate IndexOf(src: SourceFile, f: FileIndex) {
    && f.filepath == src.path
    && f.originalDocument == src.document
    && MapsToLastDefinition(GetExportedFragments(src.document), f.exportedFragments)
    && f.fragmentsToFind == DocumentSpreads(src.document) - FragmentNames(src.document)
    && MapsToLastDefinition(FragmentsOf(src.document), f.allFragmentDefinitions)
  }

  /** The exported-fragment map of an index is keyed by exactly the exported
      names of the document, each mapped to a fragment of that name. */
  lemma ExportedMapKeys(doc: Document, m: map<string, FragmentDefinition>)
    requires MapsToLastDefinition(GetExportedFragments(doc), m)
    ensures m.Keys == ExportedNames(doc)
    ensures forall k :: k in m ==> m[k].name == k && HasExport(m[k]) && FragmentDef(m[k]) in doc
  {
    var r := GetExportedFragments(doc);
    forall k | k in m ensures m[k].name == k && HasExport(m[k]) && FragmentDef(m[k]) in doc {
      var i :| 0 <= i < |r| && r[i] == m[k] && m[k].name == k &&
        forall j :: i < j < |r| ==> r[j].name != k;
      ExportedFragmentsMembers(doc, r[i]);
    }
    forall n | n in ExportedNames(doc) ensures n in m {
      var d :| d in doc && d.FragmentDef? && HasExport(d.fragment) && d.fragment.name == n;
      ExportedFragmentsMembers(doc, d.fragment);
      var i :| 0 <= i < |r| && r[i] == d.fragment;
    }
  }

  /** The indexing body of `parsePath` for one parsed file. */
  method IndexDocument(src: SourceFile) returns (f: FileIndex)
    ensures IndexOf(src, f)
    ensures f.exportedFragments.Keys == ExportedNames(src.document)
    ensures f.allFragmentDefinitions.Keys == FragmentNames(src.document)
  {
    var doc := src.document;
    var exportedFragmentDefinitions := GetExportedFragments(doc);
    var exportedFragments := IndexByName(exportedFragmentDefinitions);
    var fragmentsToFind := FindUnknownFragmentNames(doc);
    var allFragmentDefinitions := GetAllFragmentDefs(doc);
    ExportedMapKeys(doc, exportedFragments);
    f := FileIndex(src.path, exportedFragments, fragmentsToFind, allFragmentDefinitions, doc);
  }

  /** `absPath.endsWith('.graphql')` */
  predicate IsGraphqlPath(p: string) {
    |p| >= 8 && p[|p| - 8..] == ".graphql"
  }

  /** The inputs `parsePath` keeps: those whose path ends in `.graphql`, in
      their original order. */
  function GraphqlSources(inputs: seq<SourceFile>): (r: seq<SourceFile>)
    ensures |r| <= |inputs|
    ensures forall s :: s in r <==> s in inputs && IsGraphqlPath(s.path)
  {
    if inputs == [] then []
    else
      var last := inputs[|inputs| - 1];
      assert inputs == inputs[..|inputs| - 1] + [last];
      GraphqlSources(inputs[..|inputs| - 1]) + (if IsGraphqlPath(last.path) then [last] else [])
  }

  /** `parsePath` over an already listed and parsed set of files: non-`.graphql`
      entries are dropped and every other file is indexed, in order. */
  method ParsePath(inputs: seq<SourceFile>) returns (files: seq<FileIndex>)
    ensures |files| == |GraphqlSources(inputs)|
    ensures forall j :: 0 <= j < |files| ==> IndexOf(GraphqlSources(inputs)[j], files[j])
  {
    files := [];
    for k := 0 to |inputs|
      invariant |files| == |GraphqlSources(inputs[..k])|
      invariant forall j :: 0 <= j < |files| ==> IndexOf(GraphqlSources(inputs[..k])[j], files[j])
    {
      assert inputs[..k + 1][..k] == inputs[..k];
      if IsGraphqlPath(inputs[k].path) {
        var f := IndexDocument(inputs[k]);
        files := files + [f];
      }
    }
    assert inputs[..|inputs|] == inputs;
  }
}
