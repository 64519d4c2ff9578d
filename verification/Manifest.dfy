/** What the manifest parsers (internal/deps/parsers.go) share. */
module Manifest {
  import opened Text

  datatype ParsedDep = ParsedDep(name: string, version: string, line: nat, snippet: string)

  predicate IsBracket(c: char) { c == '[' || c == ']' }

  /** The name in a bracketed section header. */
  function Section(trimmed: string): string { TrimSpace(TrimBoth(trimmed, IsBracket)) }
}
