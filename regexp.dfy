/** The slice of Go's `regexp` package that the parser relies on, kept abstract.

    A compiled expression is described by what the parser can observe of it:
    the names of its sub-expressions (`SubexpNames()`) and the matches that
    `FindAllStringSubmatch(text, -1)` returns for each text. Matching itself is
    not specified; the only facts assumed are the ones the library documents:
    entry 0 of the names is the whole match and is unnamed, and every match
    carries one string per sub-expression, entry 0 being the matched text. */
module Regexp {

  datatype Option<T> = None | Some(value: T)

  /** `names` mirrors `SubexpNames()`; `find(text)` mirrors
      `FindAllStringSubmatch(text, -1)`: all leftmost non-overlapping matches,
      each one the whole match followed by the text of every group. */
  datatype RegexValue = RegexValue(names: seq<string>, find: string -> seq<seq<string>>)

  ghost predicate WellFormed(r: RegexValue) {
    && |r.names| >= 1
    && r.names[0] == ""
    && forall text, m :: m in r.find(text) ==> |m| == |r.names|
  }

  /** A compiled regular expression, as `regexp.MustCompile` returns it. */
  type Regex = r: RegexValue | WellFormed(r) witness RegexValue([""], _ => [])

  /** True when the expression declares at least one capture group, named or
      not (`len(r.SubexpNames()) > 1`). */
  predicate HasGroups(r: Regex) {
    |r.names| > 1
  }

  function FindAllStringSubmatch(r: Regex, text: string): (ms: seq<seq<string>>)
    ensures forall i :: 0 <= i < |ms| ==> |ms[i]| == |r.names|
  {
    var ms := r.find(text);
    assert forall i :: 0 <= i < |ms| ==> ms[i] in r.find(text);
    ms
  }

  /** `FindAllString(text, -1)`: the whole text of every match, in order. */
  function FindAllString(r: Regex, text: string): (texts: seq<string>)
    ensures |texts| == |FindAllStringSubmatch(r, text)|
  {
    var ms := FindAllStringSubmatch(r, text);
    seq(|ms|, i requires 0 <= i < |ms| => ms[i][0])
  }
}
