/** The JavaScript regular-expression engine, taken as given. A pattern
    either compiles or raises a syntax error; a compiling pattern has a
    number of capture groups; `exec` on an input yields no match or the match
    array, whose entry 0 is the whole match and entry `i` capture group `i`. */
module RegexOracle {
  import opened Wrappers

  /** One entry of a match array: a captured substring, or `undefined` for a
      group that did not take part in the match. */
  datatype MatchEntry = Captured(text: string) | NotParticipating

  datatype Engine = Engine(
    compiles: string -> bool,
    syntaxError: string -> string,
    groupCount: string -> nat,
    exec: (string, string) -> Option<seq<MatchEntry>>)

  /** The shape every ECMAScript engine guarantees: a match array has one
      entry per capture group plus the whole match, which always participates. */
  ghost predicate Consistent(e: Engine) {
    forall p, s :: e.compiles(p) && e.exec(p, s).Some? ==>
      |e.exec(p, s).value| == e.groupCount(p) + 1 && e.exec(p, s).value[0].Captured?
  }
}
