/** What several modules share: optional values, prefixes and substrings. */
module Common {

  datatype Option<+T> = None | Some(value: T)

  predicate StartsWith<T(==)>(longer: seq<T>, shorter: seq<T>) {
    |shorter| <= |longer| && longer[..|shorter|] == shorter
  }

  predicate OccursAt(query: string, text: string, i: nat) {
    i + |query| <= |text| && text[i..i + |query|] == query
  }

  predicate Occurs(query: string, text: string) {
    exists i: nat :: i <= |text| && OccursAt(query, text, i)
  }

  /** `query` is a part of `text`. */
  ghost predicate IsPart(query: string, text: string) {
    exists before, after :: text == before + query + after
  }

  lemma OccursIsPart(query: string, text: string)
    ensures Occurs(query, text) <==> IsPart(query, text)
  {
    if i: nat :| i <= |text| && OccursAt(query, text, i) {
      assert text == text[..i] + query + text[i + |query|..];
    }
    if before, after :| text == before + query + after {
      assert OccursAt(query, text, |before|);
    }
  }

  predicate EndsWith(s: string, suffix: string) {
    |suffix| <= |s| && s[|s| - |suffix|..] == suffix
  }

  predicate IsSpace(c: char) {
    c in {' ', '\t', '\n', '\r'}
  }

  function LowerChar(c: char): char {
    if 'A' <= c <= 'Z' then (c as int + 32) as char else c
  }

  function Lower(s: string): string {
    if s == "" then "" else [LowerChar(s[0])] + Lower(s[1..])
  }
}
