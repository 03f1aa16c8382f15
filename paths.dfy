/** File-name arithmetic the conversion task relies on: pathlib's `suffix` and
    `stem`, ASCII lower-casing, and the `{stem}.*` glob match. Names are the
    last component of a path; directories are modelled elsewhere. */
module Paths {

  /** Index of the last '.' in `name`, or -1 when there is none (str.rfind). */
  function LastDot(name: string): (i: int)
    ensures -1 <= i < |name|
    ensures i >= 0 ==> name[i] == '.'
    ensures forall j :: i < j < |name| ==> name[j] != '.'
  {
    if name == [] then -1
    else if name[|name| - 1] == '.' then |name| - 1
    else LastDot(name[..|name| - 1])
  }

  /** pathlib's `suffix`: the text from the last dot on, provided that dot is
      neither the first nor the last character of the name; otherwise "". */
  function Suffix(name: string): string
  {
    var i := LastDot(name);
    if 0 < i < |name| - 1 then name[i..] else ""
  }

  /** pathlib's `stem`: the name without its suffix. */
  function Stem(name: string): string
  {
    var i := LastDot(name);
    if 0 < i < |name| - 1 then name[..i] else name
  }

  /** A name splits into its stem followed by its suffix, and a non-empty
      suffix is a dot followed by at least one character and no other dot. */
  lemma StemSuffixSplit(name: string)
    ensures Stem(name) + Suffix(name) == name
    ensures Suffix(name) == "" || (|Suffix(name)| >= 2 && Suffix(name)[0] == '.')
    ensures forall j :: 0 < j < |Suffix(name)| ==> Suffix(name)[j] != '.'
  {
  }

  /** ASCII lower-casing of one character. */
  function LowerChar(c: char): (d: char)
    ensures 'A' <= c <= 'Z' ==> 'a' <= d <= 'z' && d as int == c as int + 32
    ensures !('A' <= c <= 'Z') ==> d == c
  {
    if 'A' <= c <= 'Z' then (c as int - 'A' as int + 'a' as int) as char else c
  }

  /** str.lower restricted to ASCII letters. */
  function Lower(s: string): (r: string)
    ensures |r| == |s|
    ensures forall j :: 0 <= j < |s| ==> r[j] == LowerChar(s[j])
  {
    if s == [] then [] else [LowerChar(s[0])] + Lower(s[1..])
  }

  /** The suffixes the cleanup keeps, compared after lower-casing. */
  const KeptSuffixes: set<string> := {".tex", ".pdf"}

  predicate HasKeptSuffix(name: string)
  {
    Lower(Suffix(name)) in KeptSuffixes
  }

  /** `name` is listed by `directory.glob(stem + ".*")`: it starts with the
      stem followed by a dot (the `*` matches anything, also nothing). */
  predicate MatchesStem(name: string, stem: string)
  {
    |stem| + 1 <= |name| && name[..|stem| + 1] == stem + "."
  }

  /** A name is listed by the glob on its own stem exactly when it has a
      suffix. */
  lemma MatchesOwnStemIff(name: string)
    ensures MatchesStem(name, Stem(name)) <==> Suffix(name) != ""
  {
  }
}
