// Pieces of the regular expressions that the parsers consume from the front of a
// string. Where the expression engine would backtrack, the possible matches are
// listed in the order in which it tries them.
module Scanner {
  import opened Wrappers

  function SkipSpaces(s: string): (rest: string)
    ensures |rest| <= |s|
    ensures rest != [] ==> rest[0] != ' '
  {
    if s != [] && s[0] == ' ' then SkipSpaces(s[1..]) else s
  }

  predicate IsAsciiWhitespace(c: char) {
    c == ' ' || c == '\t' || c == '\n' || c == '\r' || c == 11 as char || c == 12 as char
  }

  predicate IsBlank(s: string) {
    forall i :: 0 <= i < |s| ==> IsAsciiWhitespace(s[i])
  }

  lemma {:induction false} SkipNothing(s: string)
    requires s == [] || s[0] != ' '
    ensures SkipSpaces(s) == s
    ensures SkipSpaces(" " + s) == s
  {
    assert (" " + s)[1..] == s;
  }

  // One alternative of a group: its text and what it stands for.
  datatype Token<T> = Token(text: string, value: T)

  // What a piece of an expression matched, and the rest of the string.
  datatype Match<T> = Match(value: T, rest: string)

  function Choices<T>(s: string, tokens: seq<Token<T>>): (choices: seq<Match<T>>)
  {
    if tokens == [] then []
    else
      (if tokens[0].text <= s then [Match(tokens[0].value, s[|tokens[0].text|..])] else []) +
      Choices(s, tokens[1..])
  }

  // The first option for which the rest of the expression matches.
  function FirstSuccess<A, B>(options: seq<A>, next: A -> Option<B>): Option<B> {
    if options == [] then None
    else
      match next(options[0])
      case Some(result) => Some(result)
      case None => FirstSuccess(options[1..], next)
  }
}
