/**
 Character-level helpers shared by the index and the searcher: the record
 separator, ASCII lower-casing (the behaviour of `boost::to_lower` and
 `std::tolower` in the "C" locale) and the case-insensitive `std::search`
 used to anchor snippets.
 */
module Text {

  /** The record field separator, the control byte 0x03. */
  const SEP: char := '\U{3}'

  predicate IsUpper(c: char) {
    'A' <= c <= 'Z'
  }

  /** `std::tolower` in the "C" locale: only the 26 ASCII capitals change. */
  function LowerChar(c: char): (r: char)
    ensures !IsUpper(r)
    ensures IsUpper(c) ==> r as int == c as int + 32
    ensures !IsUpper(c) ==> r == c
  {
    if IsUpper(c) then (c as int + 32) as char else c
  }

  /** `boost::to_lower` applied to a whole token. */
  function Lower(s: string): (r: string)
    ensures |r| == |s|
    ensures forall i :: 0 <= i < |s| ==> r[i] == LowerChar(s[i])
  {
    seq(|s|, i requires 0 <= i < |s| => LowerChar(s[i]))
  }

  /** Lower-casing twice is lower-casing once. */
  lemma LowerIdempotent(s: string)
    ensures Lower(Lower(s)) == Lower(s)
  {
    forall i | 0 <= i < |s|
      ensures Lower(Lower(s))[i] == Lower(s)[i]
    {
      assert !IsUpper(Lower(s)[i]);
    }
  }

  /** `word` matches `content` at `pos`, comparing characters after `std::tolower`. */
  predicate MatchAt(content: string, word: string, pos: nat) {
    pos + |word| <= |content| && Lower(content[pos..pos + |word|]) == Lower(word)
  }

  /**
   The case-insensitive `std::search` of `word` in `content`: the first match
   position, or `|content|` (the end iterator) when there is none. An empty
   `word` matches at 0, which is the end iterator when `content` is empty.
   */
  function SearchCI(content: string, word: string): (pos: nat)
    ensures pos <= |content|
    ensures pos < |content| ==> MatchAt(content, word, pos)
    ensures forall q :: 0 <= q < pos ==> !MatchAt(content, word, q)
  {
    SearchFrom(content, word, 0)
  }

  function SearchFrom(content: string, word: string, from: nat): (pos: nat)
    requires from <= |content|
    ensures from <= pos <= |content|
    ensures pos < |content| ==> MatchAt(content, word, pos)
    ensures forall q :: from <= q < pos ==> !MatchAt(content, word, q)
    decreases |content| - from
  {
    if from + |word| > |content| then |content|
    else if MatchAt(content, word, from) then from
    else SearchFrom(content, word, from + 1)
  }
}
