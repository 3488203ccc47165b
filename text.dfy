/** The string comparisons the SQL queries perform: `LOWER(a) = LOWER(b)` and C#'s
    `string.IsNullOrEmpty`. */
module Text {
  import opened Wrappers

  /** Case folding of a single character by the database's LOWER. The model folds
      the Latin capitals A-Z and the Cyrillic capitals U+0400-U+042F and keeps every
      other character. */
  function FoldChar(c: char): char
  {
    if 'A' <= c <= 'Z' then (c as int + 32) as char
    else if '\U{0410}' <= c <= '\U{042F}' then (c as int + 32) as char
    else if '\U{0400}' <= c <= '\U{040F}' then (c as int + 80) as char
    else c
  }

  /** LOWER(s): the string with every character folded. */
  function Lower(s: string): (r: string)
    ensures |r| == |s|
    ensures forall i :: 0 <= i < |s| ==> r[i] == FoldChar(s[i])
  {
    if s == [] then [] else [FoldChar(s[0])] + Lower(s[1..])
  }

  /** `LOWER(a) = LOWER(b)`: the match used for usernames and e-mail addresses. */
  predicate SameIgnoringCase(a: string, b: string)
  {
    Lower(a) == Lower(b)
  }

  /** `string.IsNullOrEmpty` on a nullable string. */
  predicate IsNullOrEmpty(s: Option<string>)
  {
    s.None? || s.value == ""
  }

  /** Folding a character twice is folding it once. */
  lemma FoldCharIdempotent(c: char)
    ensures FoldChar(FoldChar(c)) == FoldChar(c)
  {
  }

  /** What `LOWER(x) = LOWER(y)` means as a relation on strings: folding twice is
      folding once, so a folded string matches its original. */
  lemma LowerIdempotent(s: string)
    ensures Lower(Lower(s)) == Lower(s)
    ensures SameIgnoringCase(Lower(s), s)
  {
    forall i | 0 <= i < |s|
      ensures Lower(Lower(s))[i] == Lower(s)[i]
    {
      FoldCharIdempotent(s[i]);
    }
  }

  /** Strings that match ignoring case have the same length, and the match is an
      equivalence relation. */
  lemma SameIgnoringCaseIsEquivalence(a: string, b: string, c: string)
    ensures SameIgnoringCase(a, a)
    ensures SameIgnoringCase(a, b) ==> SameIgnoringCase(b, a) && |a| == |b|
    ensures SameIgnoringCase(a, b) && SameIgnoringCase(b, c) ==> SameIgnoringCase(a, c)
  {
    if SameIgnoringCase(a, b) {
      assert |Lower(a)| == |a| && |Lower(b)| == |b|;
    }
  }
}
