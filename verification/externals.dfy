/** The library code the checker calls but does not implement: PCRE through
    `preg_match`, `html_entity_decode`, and the simple_html_dom parser. Each
    is a field of `Env`, so every property proved about the checker holds for
    every behaviour of these dependencies. Only the delimiter rule that PHP
    applies before handing a pattern to PCRE is modelled concretely. */
module Externals {
  import opened Wrappers

  /** One element the parser's `find` returns: its tag name, its attributes
      (an attribute written without a value reads as "1", the string PHP
      makes of `true`) and its plain text. */
  datatype Elem = Elem(name: string, attrs: map<string, string>, plaintext: string)

  /** What `preg_match` returns: 1, 0, or false on error. */
  datatype MatchOutcome = Matched | NoMatch | MatchError

  datatype Env = Env(
    /** PCRE accepts the delimited pattern (syntax, modifiers). */
    compiles: string -> bool,
    /** Running an accepted pattern on a subject; `MatchError` stands for a
        run-time failure such as the backtracking limit. */
    exec: (string, string) -> MatchOutcome,
    /** `html_entity_decode` with PHP's default flags. */
    decode: string -> string,
    /** `str_get_html` followed by a walk of the tree: the elements in
        document order, or `None` when the parser returns false. */
    parse: string -> Option<seq<Elem>>)

  /** C `isspace`, which PHP uses to skip blanks before the delimiter. */
  predicate IsCSpace(c: char) {
    c == ' ' || c == '\t' || c == '\n' || c == '\U{0B}' || c == '\U{0C}' || c == '\r'
  }

  predicate IsAsciiAlnum(c: char) {
    'a' <= c <= 'z' || 'A' <= c <= 'Z' || '0' <= c <= '9'
  }

  /** Index of the first non-blank character of a pattern. */
  function SkipBlanks(p: string): (i: nat)
    ensures i <= |p|
    ensures forall k :: 0 <= k < i ==> IsCSpace(p[k])
    ensures i < |p| ==> !IsCSpace(p[i])
  {
    if |p| == 0 || !IsCSpace(p[0]) then 0 else 1 + SkipBlanks(p[1..])
  }

  /** PHP rejects, before PCRE sees it, a pattern that is blank ("Empty
      regular expression") or whose first non-blank character is
      alphanumeric or a backslash ("Delimiter must not be alphanumeric or
      backslash"). */
  predicate HasDelimiter(p: string) {
    var i := SkipBlanks(p);
    i < |p| && !IsAsciiAlnum(p[i]) && p[i] != '\\' && p[i] != '\0'
  }

  /** `preg_match($pattern, $subject)`. */
  function PregMatch(env: Env, pattern: string, subject: string): (r: MatchOutcome)
    ensures !HasDelimiter(pattern) ==> r == MatchError
    ensures HasDelimiter(pattern) && !env.compiles(pattern) ==> r == MatchError
  {
    if HasDelimiter(pattern) && env.compiles(pattern) then env.exec(pattern, subject) else MatchError
  }

  /** The checker's validity test: `preg_match($pattern, null) !== false`
      (null is read as the empty subject). */
  predicate ValidPattern(env: Env, pattern: string) {
    PregMatch(env, pattern, "") != MatchError
  }

  /** The scanners' test: `preg_match($pattern, $subject) === 1`. */
  predicate Matches(env: Env, pattern: string, subject: string) {
    PregMatch(env, pattern, subject) == Matched
  }

  /** A pattern PCRE cannot accept matches nothing, and is not valid. */
  lemma UncompiledNeverMatches(env: Env, pattern: string, subject: string)
    requires !HasDelimiter(pattern) || !env.compiles(pattern)
    ensures !Matches(env, pattern, subject) && !ValidPattern(env, pattern)
  {
  }

  /** The empty pattern and an undelimited pattern such as "abc" are invalid
      whatever PCRE would make of them. */
  lemma UndelimitedInvalid(env: Env)
    ensures !ValidPattern(env, "")
    ensures !ValidPattern(env, "abc")
    ensures !ValidPattern(env, " \tabc")
  {
    assert SkipBlanks(" \tabc") == 2 by {
      assert " \tabc"[1..] == "\tabc";
      assert "\tabc"[1..] == "abc";
    }
  }

  /** A valid pattern is never empty. */
  lemma ValidPatternNonEmpty(env: Env, pattern: string)
    requires ValidPattern(env, pattern)
    ensures |pattern| > 0
  {
  }

  /** `html_entity_decode` leaves text without an ampersand alone: it only
      rewrites entity references. */
  ghost predicate DecodesPlainTextAsIs(env: Env) {
    forall s :: '&' !in s ==> env.decode(s) == s
  }
}
