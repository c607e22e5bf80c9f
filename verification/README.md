# Cross-file fragment export, modelled in Dafny

This project models the fragment-export pass of `graphql-export-shared-fragments`
(`lib/export.ts`). The pass walks a tree of `.graphql` documents and finds every
fragment that some other file spreads. It then appends the `@export` directive to
those fragment definitions and rewrites only the files that changed.

The model covers the pass from parsed documents to the list of file writes:

- `Ast`: the GraphQL nodes the pass looks at. These are definitions, fragment
  definitions with their directives, and selection sets holding fields, inline
  fragments and fragment spreads. `DocumentSpreads` replaces the `graphql`
  library's `visit`. It is proved equal to an independent "occurs anywhere"
  predicate.
- `FragmentIndex`: `getAllFragmentDefs`, `getExportedFragments`,
  `findUnkownFragmentNames` and the indexing body of `parsePath`. The `Map.set`
  loop is `IndexByName`, proved to leave the last definition of each name.
- `Resolver`: `produceFragmentsToMark` with its two nested loops. The set it
  builds is proved equal to `RequiredOf`, the required set of the run, stated as
  a function of the parsed files.
- `Annotator`: the rewrite loop of `writeBackWithExports`, its `shouldWrite`
  flag and the write decision. The writes are returned as a list of
  `FileWrite(path, definitions)` values instead of being performed.
- `Pipeline`: `reWriteWithExports`, and lemmas about the tree after one run.
  These cover closure over cross-file spreads, no false positives, marker
  stickiness, a stable required set, and idempotence (a second run writes
  nothing).
- `ExportExamples`: the index-function expectations of `lib/gpt-tests.ts`
  (lines 4-48) as verified methods, and a three-file tree as a lemma.

Two behaviours of the code that the model keeps as written:

- The annotator skips a fragment only when that definition itself carries
  `@export` (lib/export.ts:119-120). It does not skip a fragment because another
  definition of the same name in the file is exported.
- Fragment names may repeat within one document. `getAllFragmentDefs` and the
  exported-fragment map keep the last definition of each name. The rewrite
  treats every definition separately.

## Model

| member | source | states |
|---|---|---|
| `Ast.FragmentsOf` | lib/export.ts:15-16 | the fragment definitions of a document, each with its multiplicity in the document; operations and type-system definitions contribute nothing |
| `Ast.SelectionSetSpreadsAreOccurrences` | lib/export.ts:36-40 | the spreads the visitor collects from a selection set are exactly the names spread somewhere inside it, at any depth |
| `Ast.DocumentSpreadsAreOccurrences` | lib/export.ts:36-40 | the spreads collected from a document are exactly the names spread anywhere in any of its definitions, operations included |
| `FragmentIndex.GetExportedFragments` | lib/export.ts:22-27 | the result is a subsequence of the document's fragments (document order) holding every fragment with an `export` directive, as often as it occurs, and no other |
| `FragmentIndex.ExportedFragmentsMembers` | lib/export.ts:22-27 | a fragment is in the exported list if and only if it is defined in the document and has a directive named `export` |
| `FragmentIndex.IndexByName` | lib/export.ts:17-18 | `Map.set` in order leaves a map whose keys are exactly the names in the list, each mapped to the last definition of that name |
| `FragmentIndex.GetAllFragmentDefs` | lib/export.ts:13-20 | keys are exactly the document's fragment names; each maps to a definition of that name from the document, the last one when names repeat |
| `FragmentIndex.FindUnknownFragmentNames` | lib/export.ts:29-44 | a name is reported if and only if it is spread in the document and no fragment of that name is defined there |
| `FragmentIndex.ExportedMapKeys` | lib/export.ts:78-82 | the exported-fragment map is keyed by exactly the exported names of the document, and each value is an exported fragment of the document with that name |
| `FragmentIndex.IndexDocument` | lib/export.ts:76-91 | the index of one file: path and document kept, both maps keep the last definition per name, and `fragmentsToFind` is spreads minus local names |
| `FragmentIndex.GraphqlSources` | lib/export.ts:72-75 | the files kept are exactly the inputs whose path ends in `.graphql` |
| `FragmentIndex.ParsePath` | lib/export.ts:70-93 | one index per `.graphql` input, in input order, each satisfying the index contract for its file |
| `Resolver.RequiredOf` | lib/export.ts:95-107 | a name is required if and only if some file spreads it without defining it, or some file exports a fragment of that name |
| `Resolver.ProduceFragmentsToMark` | lib/export.ts:95-107 | the marked set is exactly the union of every file's `fragmentsToFind` and the names of every file's exported fragments |
| `Resolver.MarkedIsRequired` | lib/export.ts:95-107 | on the indices `parsePath` builds, the marked set equals the required set, so an exported name is always marked again |
| `Annotator.CountExportsZero` | lib/export.ts:119-120 | a directive list has no `export` directive exactly when its count of `export` directives is zero |
| `Annotator.RewriteFragment` | lib/export.ts:121-141 | the new fragment is the old one with its directive list copied and `@export` appended |
| `Annotator.WithExportChangesOnlyDirectives` | lib/export.ts:134-141 | the rewritten fragment keeps name, type condition, selection set and location; its directives are the old list plus one `@export` at the end, so it has exactly one |
| `Annotator.AnnotateDefinitions` | lib/export.ts:114-147 | the new list has one entry per definition, each rewritten exactly when required and unmarked; `shouldWrite` holds exactly when some definition was rewritten |
| `Annotator.AnnotateAt` | lib/export.ts:117-146 | a definition changes if and only if it is a fragment whose name is required and which has no `export` directive; otherwise it is the same definition at the same index |
| `Annotator.NeedsWriteIffChanged` | lib/export.ts:143-148 | `shouldWrite` is set exactly when the new definition list differs from the original |
| `Annotator.AnnotateMarksRequired` | lib/export.ts:117-133 | after the rewrite every fragment with a required name carries `@export`; the count of `export` directives becomes one where it was zero and is otherwise unchanged |
| `Annotator.AnnotateIdempotent` | lib/export.ts:117-120 | rewriting the rewritten list with the same set changes nothing and sets no `shouldWrite` |
| `Annotator.AnnotatePreservesIndex` | lib/export.ts:134-141 | the rewrite keeps every fragment name and every spread, and the exported names grow by exactly the required names defined in the file |
| `Annotator.PlannedWritesMembers` | lib/export.ts:148-156 | a write is planned if and only if its file has a rewritten definition, and it carries that file's path and new definition list |
| `Annotator.WriteBackWithExports` | lib/export.ts:109-158 | the writes emitted are the planned writes of the files, in file order |
| `Pipeline.IndexedRun` | lib/export.ts:161-163 | the writer receives the listed files unchanged and the required set of the run |
| `Pipeline.ReWriteWithExports` | lib/export.ts:160-164 | the whole pass writes exactly the planned writes of the `.graphql` files for the run's required set |
| `Pipeline.AfterRunMatchesWrites` | lib/export.ts:148-156 | a file changes exactly when a definition in it is rewritten; a changed file is written with its new content and an unchanged file (with a path of its own) is not written |
| `Pipeline.RequiredStable` | lib/export.ts:101-105 | the required set computed on the tree after one run equals the one before it |
| `Pipeline.SecondRunWritesNothing` | lib/export.ts:160-164 | a second run over the first run's output keeps the same files, changes no definition and writes no file |
| `Pipeline.CrossFileReferenceIsExported` | lib/export.ts:117-141 | a fragment spread from a file that does not define its name carries `@export` after the run, in every file that defines it, with name, type condition, selection set and location unchanged |
| `Pipeline.LocalOnlyFragmentIsUntouched` | lib/export.ts:42 | a name that no file leaves unresolved and no file exports is never marked; its fragments stay exactly as they were |
| `Pipeline.ExportedFragmentIsKept` | lib/export.ts:101-105 | a fragment already carrying `@export` is required and comes out of the run unchanged |
| `ExportExamples.ThreeFileTree` | lib/export.ts:160-164 | for files `a` (defines F), `b` (defines G, spreads F) and `c` (spreads G), F and G are required, `a` and `b` are written with `@export` appended and `c` is not written |

## Left out

- Directory walking (`getAllFilesInDir`, lib/export.ts:54-68) and `readFileSync` (lib/export.ts:76) are not modelled: the input is a sequence of (path, parsed document) pairs.
- The `graphql` parser and printer (`parse`, `print`) are not modelled. A parse error, which aborts the run in the source, is therefore not modelled either.
- `writeFileSync` and the construction of the output `DocumentNode` (lib/export.ts:149-155) are left out: each write is returned as a `FileWrite` value holding the new definition list.
- Field arguments, aliases, variables, and directives on anything other than fragment and operation definitions are not modelled. None of them hold fragment spreads or affect the pass. Directive arguments are kept as opaque text.
- Node identity is left out: the model compares definitions by value. It does not capture that untouched definitions are the same objects in memory.
- Pipeline.AfterRunMatchesWrites: "an unchanged file is not written" is proved only for a file whose path no other input shares. Paths from a directory walk are distinct.
