/**
 * The match pattern of a watch rule. The watcher builds a case-insensitive
 * regular expression whose alternatives are the rule's role keys and
 * keywords; this model reads each alternative as a literal word and a test
 * as case-insensitive substring search.
 */
module Patterns {
  import opened Strings

  /** Separator of the alternatives in the pattern's source text. */
  const ALTERNATION: string := "|"

  /**
   * Source text used when the alternatives join to nothing: an end anchor
   * followed by a dash, which no text matches. (An empty source would match
   * every text.)
   */
  const NEVER_SOURCE: string := "$-"

  datatype Pattern = Never | AnyOf(alternatives: seq<string>)

  /** The pattern built from `alternatives` (index.js:16-18). */
  function Compile(alternatives: seq<string>): Pattern
  {
    if Join(alternatives, ALTERNATION) == [] then Never else AnyOf(alternatives)
  }

  /** The source text handed to the regular-expression constructor. */
  function Source(p: Pattern): string
  {
    match p
    case Never => NEVER_SOURCE
    case AnyOf(alternatives) => Join(alternatives, ALTERNATION)
  }

  /** The pattern finds a match in `text`. */
  predicate Test(p: Pattern, text: string)
  {
    match p
    case Never => false
    case AnyOf(alternatives) => exists a | a in alternatives :: ContainsFolded(text, a)
  }

  /** The impossible pattern is chosen exactly when there is no alternative, or one empty one. */
  lemma CompileIsNeverIff(alternatives: seq<string>)
    ensures Compile(alternatives) == Never <==> alternatives == [] || alternatives == [[]]
  {
    JoinEmpty(alternatives, ALTERNATION);
  }

  /** A compiled pattern never has an empty source, so it never matches by default. */
  lemma CompiledSourceNonEmpty(alternatives: seq<string>)
    ensures Source(Compile(alternatives)) != []
    ensures Compile(alternatives).AnyOf? ==> Source(Compile(alternatives)) == Join(alternatives, ALTERNATION)
  {
  }

  /**
   * What a compiled pattern matches: some alternative occurs in the text,
   * ignoring case; except that a lone empty alternative yields the
   * impossible pattern, which matches nothing.
   */
  lemma CompiledTestIff(alternatives: seq<string>, text: string)
    ensures Test(Compile(alternatives), text)
        <==> alternatives != [[]] && exists a | a in alternatives :: ContainsFolded(text, a)
  {
    CompileIsNeverIff(alternatives);
  }

  /** A keyword occurring in the text in another case still matches: "urgent" finds "URGENT update". */
  lemma KeywordMatchIgnoresCase()
    ensures Test(Compile(["urgent"]), "URGENT update")
  {
    CompileIsNeverIff(["urgent"]);
    FoldedAt("URGENT update", "urgent", 0);
  }
}
