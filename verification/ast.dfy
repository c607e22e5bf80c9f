/**
 The part of a parsed GraphQL document that the export pass looks at:
 definitions, fragment definitions with their directives, and selection
 sets in which fragment spreads occur (sections 2.8 and 2.12 of the
 GraphQL specification, October 2021 edition).
 */
module Ast {

  datatype Option<T> = None | Some(value: T)

  /** A directive such as `@export`; its arguments are kept as opaque text. */
  datatype Directive = Directive(name: string, arguments: seq<string>)

  /** Source range of a node; the rewrite copies it unchanged. */
  datatype Location = Location(start: nat, end: nat)

  datatype Selection =
    | Field(name: string, selectionSet: seq<Selection>)
    | InlineFragment(typeCondition: Option<string>, selectionSet: seq<Selection>)
    | FragmentSpread(name: string)

  datatype FragmentDefinition = FragmentDefinition(
    name: string,
    typeCondition: string,
    directives: seq<Directive>,
    selectionSet: seq<Selection>,
    loc: Option<Location>)

  datatype OperationType = Query | Mutation | Subscription

  /** Type-system definitions hold no selection sets, so no spreads. */
  datatype Definition =
    | FragmentDef(fragment: FragmentDefinition)
    | OperationDef(operation: OperationType, name: Option<string>,
                   directives: seq<Directive>, selectionSet: seq<Selection>)
    | TypeSystemDef(text: string)

  type Document = seq<Definition>

  /** The name of the marker directive the pass adds. */
  const ExportName: string := "export"

  /** The directive pushed by the rewrite: `@export`, no arguments. */
  const ExportDirective: Directive := Directive(ExportName, [])

  /** `directives?.some(d => d.name.value === 'export')` */
  predicate HasExport(f: FragmentDefinition) {
    exists d :: d in f.directives && d.name == ExportName
  }

  /** The fragment definitions of a document in document order (the
      `filter(kind === FRAGMENT_DEFINITION).map(cast)` of the source). */
  function FragmentsOf(doc: Document): (r: seq<FragmentDefinition>)
    ensures |r| <= |doc|
    ensures forall f :: multiset(r)[f] == multiset(doc)[FragmentDef(f)]
    ensures forall f :: f in r <==> FragmentDef(f) in doc
  {
    if doc == [] then []
    else
      assert doc == [doc[0]] + doc[1..];
      (if doc[0].FragmentDef? then [doc[0].fragment] else []) + FragmentsOf(doc[1..])
  }

  /** Names of all fragments defined in a document. */
  function FragmentNames(doc: Document): set<string> {
    set d | d in doc && d.FragmentDef? :: d.fragment.name
  }

  /** The selection set of a definition; type-system definitions have none. */
  function SelectionSetOf(d: Definition): seq<Selection> {
    match d
    case FragmentDef(f) => f.selectionSet
    case OperationDef(_, _, _, sel) => sel
    case TypeSystemDef(_) => []
  }

  /** Spread names collected by walking a selection (the `FragmentSpread`
      visitor of the source). */
  function SelectionSpreads(s: Selection): set<string>
    decreases s
  {
    match s
    case Field(_, sub) => SelectionSetSpreads(sub)
    case InlineFragment(_, sub) => SelectionSetSpreads(sub)
    case FragmentSpread(n) => {n}
  }

  function SelectionSetSpreads(ss: seq<Selection>): set<string>
    decreases ss
  {
    if ss == [] then {} else SelectionSpreads(ss[0]) + SelectionSetSpreads(ss[1..])
  }

  /** Every spread name in a document, walking all definitions in order. */
  function DocumentSpreads(doc: Document): set<string> {
    if doc == [] then {} else SelectionSetSpreads(SelectionSetOf(doc[0])) + DocumentSpreads(doc[1..])
  }

  /** Independent reference: a spread named `n` occurs somewhere inside `s`. */
  ghost predicate OccursIn(s: Selection, n: string)
    decreases s
  {
    match s
    case Field(_, sub) => exists c :: c in sub && OccursIn(c, n)
    case InlineFragment(_, sub) => exists c :: c in sub && OccursIn(c, n)
    case FragmentSpread(m) => m == n
  }

  /** A spread named `n` occurs in some definition of `doc`, at any depth. */
  ghost predicate SpreadOccursInDocument(doc: Document, n: string) {
    exists d, c :: d in doc && c in SelectionSetOf(d) && OccursIn(c, n)
  }

  lemma {:induction false} SelectionSpreadsAreOccurrences(s: Selection, n: string)
    ensures n in SelectionSpreads(s) <==> OccursIn(s, n)
    decreases s
  {
    match s
    case Field(_, sub) => SelectionSetSpreadsAreOccurrences(sub, n);
    case InlineFragment(_, sub) => SelectionSetSpreadsAreOccurrences(sub, n);
    case FragmentSpread(_) =>
  }

  lemma {:induction false} SelectionSetSpreadsAreOccurrences(ss: seq<Selection>, n: string)
    ensures n in SelectionSetSpreads(ss) <==> exists c :: c in ss && OccursIn(c, n)
    decreases ss
  {
    if ss != [] {
      SelectionSpreadsAreOccurrences(ss[0], n);
      SelectionSetSpreadsAreOccurrences(ss[1..], n);
      assert forall c :: c in ss <==> c == ss[0] || c in ss[1..];
    }
  }

  /** The collected spreads are exactly the names spread anywhere in the
      document, nested selections and operations included. */
  lemma {:induction false} DocumentSpreadsAreOccurrences(doc: Document, n: string)
    ensures n in DocumentSpreads(doc) <==> SpreadOccursInDocument(doc, n)
  {
    if doc != [] {
      SelectionSetSpreadsAreOccurrences(SelectionSetOf(doc[0]), n);
      DocumentSpreadsAreOccurrences(doc[1..], n);
      assert forall d :: d in doc <==> d == doc[0] || d in doc[1..];
    }
  }
}
