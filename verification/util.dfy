/**
 The string utilities of `ns_util`: `Util::CutString`, the `boost::split`
 with `is_any_of(sep)` and `token_compress_on` that turns a corpus line into
 fields, and the stop-word filter of `JiebaUtil::SplitString`. The word
 segmenter itself (`jieba.CutForSearch`) is foreign code and appears here
 only as a function supplied by the caller.
 */
module Util {

  /** No character of `s` is one of the separator characters in `sep`. */
  predicate NoSep(s: string, sep: set<char>) {
    forall i :: 0 <= i < |s| ==> s[i] !in sep
  }

  /** The first index at or after `from` holding a separator, or `|s|`. */
  function NextSep(s: string, sep: set<char>, from: nat): (i: nat)
    requires from <= |s|
    ensures from <= i <= |s|
    ensures i < |s| ==> s[i] in sep
    ensures forall k :: from <= k < i ==> s[k] !in sep
    decreases |s| - from
  {
    if from == |s| || s[from] in sep then from else NextSep(s, sep, from + 1)
  }

  /** The first index at or after `from` that is not a separator, or `|s|`. */
  function RunEnd(s: string, sep: set<char>, from: nat): (j: nat)
    requires from <= |s|
    ensures from <= j <= |s|
    ensures j < |s| ==> s[j] !in sep
    ensures forall k :: from <= k < j ==> s[k] in sep
    decreases |s| - from
  {
    if from == |s| || s[from] !in sep then from else RunEnd(s, sep, from + 1)
  }

  /**
   `Util::CutString`: the fields of `s` between maximal runs of separator
   characters. Because runs collapse, a field is never a separator and an
   empty field can only come first or last.
   */
  function CutString(s: string, sep: set<char>): (fields: seq<string>)
    ensures |fields| >= 1
    ensures forall k :: 0 <= k < |fields| ==> NoSep(fields[k], sep)
    ensures forall k :: 0 < k < |fields| - 1 ==> |fields[k]| > 0
    ensures |s| > 0 && s[0] !in sep ==> |fields[0]| > 0
    decreases |s|
  {
    var i := NextSep(s, sep, 0);
    if i == |s| then [s]
    else [s[..i]] + CutString(s[RunEnd(s, sep, i + 1)..], sep)
  }

  /**
   A separator-free field followed by one separator and a tail that does not
   start with a separator is cut off as the first field.
   */
  lemma CutAfterField(f: string, c: char, tail: string, sep: set<char>)
    requires c in sep && NoSep(f, sep)
    requires |tail| == 0 || tail[0] !in sep
    ensures CutString(f + [c] + tail, sep) == [f] + CutString(tail, sep)
  {
    var s := f + [c] + tail;
    assert NextSep(s, sep, 0) == |f| by {
      assert forall k :: 0 <= k < |f| ==> s[k] == f[k];
      assert s[|f|] == c;
    }
    assert RunEnd(s, sep, |f| + 1) == |f| + 1 by {
      if |tail| > 0 {
        assert s[|f| + 1] == tail[0];
      }
    }
    assert s[|f| + 1..] == tail;
    assert s[..|f|] == f;
  }

  /** Fields glued back together with one separator character `c` between neighbours. */
  function Join(fields: seq<string>, c: char): string
  {
    if |fields| == 0 then []
    else if |fields| == 1 then fields[0]
    else fields[0] + [c] + Join(fields[1..], c)
  }

  /**
   Cutting undoes joining: separator-free fields whose interior members are
   non-empty come back unchanged from `CutString`.
   */
  lemma {:induction false} CutJoin(fields: seq<string>, c: char, sep: set<char>)
    requires c in sep
    requires |fields| >= 1
    requires forall k :: 0 <= k < |fields| ==> NoSep(fields[k], sep)
    requires forall k :: 0 < k < |fields| - 1 ==> |fields[k]| > 0
    ensures CutString(Join(fields, c), sep) == fields
    decreases |fields|
  {
    if |fields| == 1 {
      assert NextSep(fields[0], sep, 0) == |fields[0]|;
    } else {
      var rest := fields[1..];
      var tail := Join(rest, c);
      assert forall k :: 0 <= k < |rest| ==> rest[k] == fields[k + 1];
      JoinHead(rest, c);
      if |tail| > 0 {
        assert NoSep(rest[0], sep);
      }
      CutAfterField(fields[0], c, tail, sep);
      CutJoin(rest, c, sep);
      assert Join(fields, c) == fields[0] + [c] + tail;
      assert fields == [fields[0]] + rest;
    }
  }

  /** A join starts with its first field's first character when that field is non-empty. */
  lemma JoinHead(fields: seq<string>, c: char)
    requires |fields| >= 1
    requires |fields[0]| > 0 || |fields| == 1
    ensures |Join(fields, c)| > 0 ==> |fields[0]| > 0 && Join(fields, c)[0] == fields[0][0]
  {
  }

  /** No two separator characters `c` stand next to each other in `s`. */
  predicate NoDoubleSep(s: string, c: char) {
    forall i :: 0 <= i < |s| - 1 ==> !(s[i] == c && s[i + 1] == c)
  }

  /** Joining undoes cutting on a single separator character when no two separators are adjacent. */
  lemma {:induction false} JoinCut(s: string, c: char)
    requires NoDoubleSep(s, c)
    ensures Join(CutString(s, {c}), c) == s
    decreases |s|
  {
    var i := NextSep(s, {c}, 0);
    if i < |s| {
      assert i + 1 == |s| || s[i + 1] != c;
      CutAtSingleSep(s, c, i);
      NoDoubleSepSuffix(s, c, i + 1);
      JoinCut(s[i + 1..], c);
      JoinCons(s[..i], CutString(s[i + 1..], {c}), c);
      Reassemble(s, i);
    }
  }

  /** A string is the part before position `i`, the character there, and the part after. */
  lemma Reassemble(s: string, i: nat)
    requires i < |s|
    ensures s == s[..i] + [s[i]] + s[i + 1..]
  {
  }

  /** A single separator at `i` splits off the field before it. */
  lemma CutAtSingleSep(s: string, c: char, i: nat)
    requires i == NextSep(s, {c}, 0) && i < |s|
    requires i + 1 == |s| || s[i + 1] != c
    ensures CutString(s, {c}) == [s[..i]] + CutString(s[i + 1..], {c})
  {
    assert RunEnd(s, {c}, i + 1) == i + 1;
  }

  /** A suffix has no adjacent separators when the whole string has none. */
  lemma NoDoubleSepSuffix(s: string, c: char, j: nat)
    requires NoDoubleSep(s, c) && j <= |s|
    ensures NoDoubleSep(s[j..], c)
  {
    forall k | 0 <= k < |s[j..]| - 1
      ensures !(s[j..][k] == c && s[j..][k + 1] == c)
    {
      assert s[j..][k] == s[j + k] && s[j..][k + 1] == s[j + k + 1];
    }
  }

  /** Joining a field in front of at least one more puts one separator between them. */
  lemma JoinCons(x: string, rest: seq<string>, c: char)
    requires |rest| >= 1
    ensures Join([x] + rest, c) == x + [c] + Join(rest, c)
  {
    assert ([x] + rest)[1..] == rest;
  }

  /** An empty middle field disappears: such a line yields two fields, not three. */
  lemma EmptyMiddleFieldCollapses(a: string, b: string, c: char)
    requires NoSep(a, {c}) && NoSep(b, {c})
    ensures CutString(a + [c, c] + b, {c}) == [a, b]
  {
    var s := a + [c, c] + b;
    assert NextSep(s, {c}, 0) == |a| by {
      assert forall k :: 0 <= k < |a| ==> s[k] == a[k];
      assert s[|a|] == c;
    }
    assert RunEnd(s, {c}, |a| + 1) == |a| + 2 by {
      assert s[|a| + 1] == c;
      if |b| > 0 {
        assert s[|a| + 2] == b[0];
      }
    }
    assert s[|a| + 2..] == b;
    assert s[..|a|] == a;
    assert NextSep(b, {c}, 0) == |b|;
  }

  // ---------------------------------------------------------------------------
  // JiebaUtil::SplitString

  /**
   The lexical analyser's state: the loaded stop-word set and the foreign
   segmenter `CutForSearch`, which is treated as an arbitrary function.
   */
  datatype Lexer = Lexer(stopWords: set<string>, cutForSearch: string -> seq<string>)

  /** The tokens that are not stop words, in their original order. */
  function RemoveStopWords(tokens: seq<string>, stopWords: set<string>): (kept: seq<string>)
    ensures |kept| <= |tokens|
    ensures forall k :: 0 <= k < |kept| ==> kept[k] !in stopWords
    decreases |tokens|
  {
    if |tokens| == 0 then []
    else (if tokens[0] in stopWords then [] else [tokens[0]]) + RemoveStopWords(tokens[1..], stopWords)
  }

  /** Filtering a sequence with a known first token. */
  lemma RemoveStopWordsCons(t: string, rest: seq<string>, stopWords: set<string>)
    ensures RemoveStopWords([t] + rest, stopWords)
         == (if t in stopWords then [] else [t]) + RemoveStopWords(rest, stopWords)
  {
    assert ([t] + rest)[1..] == rest;
  }

  /** Filtering keeps every occurrence of every token that is not a stop word. */
  lemma {:induction false} RemoveStopWordsKeepsOthers(tokens: seq<string>, stopWords: set<string>)
    ensures forall t :: t !in stopWords ==>
      multiset(RemoveStopWords(tokens, stopWords))[t] == multiset(tokens)[t]
    decreases |tokens|
  {
    if |tokens| > 0 {
      RemoveStopWordsKeepsOthers(tokens[1..], stopWords);
      assert tokens == [tokens[0]] + tokens[1..];
    }
  }

  /** `a` is `b` with some elements deleted and the rest in the same order. */
  ghost predicate IsSubsequence<T>(a: seq<T>, b: seq<T>)
    decreases |b|
  {
    if |a| == 0 then true
    else if |b| == 0 then false
    else (a[0] == b[0] && IsSubsequence(a[1..], b[1..])) || IsSubsequence(a, b[1..])
  }

  /** Filtering keeps the surviving tokens in their original relative order. */
  lemma {:induction false} RemoveStopWordsKeepsOrder(tokens: seq<string>, stopWords: set<string>)
    ensures IsSubsequence(RemoveStopWords(tokens, stopWords), tokens)
    decreases |tokens|
  {
    if |tokens| > 0 {
      var kept := RemoveStopWords(tokens, stopWords);
      var rest := RemoveStopWords(tokens[1..], stopWords);
      RemoveStopWordsKeepsOrder(tokens[1..], stopWords);
      if tokens[0] in stopWords {
        assert kept == rest;
      } else {
        assert kept == [tokens[0]] + rest;
        assert kept[1..] == rest;
      }
    }
  }

  /**
   The erase loop of `SplitString`: walk the token vector, erasing a stop
   word in place and stepping past anything else.
   */
  method EraseStopWords(tokens: seq<string>, stopWords: set<string>) returns (out: seq<string>)
    ensures out == RemoveStopWords(tokens, stopWords)
  {
    out := tokens;
    var it := 0;
    while it < |out|
      invariant 0 <= it <= |out|
      invariant out[..it] + RemoveStopWords(out[it..], stopWords) == RemoveStopWords(tokens, stopWords)
      decreases |out| - it
    {
      EraseStep(out, it, stopWords);
      if out[it] in stopWords {
        out := out[..it] + out[it + 1..];
      } else {
        it := it + 1;
      }
    }
    assert out[..it] == out;
  }

  /** One step of the erase loop keeps the eventual filter result unchanged. */
  lemma EraseStep(out: seq<string>, it: nat, stopWords: set<string>)
    requires it < |out|
    ensures var erased := out[..it] + out[it + 1..];
      out[it] in stopWords ==>
        erased[..it] + RemoveStopWords(erased[it..], stopWords)
        == out[..it] + RemoveStopWords(out[it..], stopWords)
    ensures out[it] !in stopWords ==>
      out[..it + 1] + RemoveStopWords(out[it + 1..], stopWords)
      == out[..it] + RemoveStopWords(out[it..], stopWords)
  {
    var tail := out[it + 1..];
    assert out[it..] == [out[it]] + tail;
    RemoveStopWordsCons(out[it], tail, stopWords);
    var erased := out[..it] + tail;
    assert erased[..it] == out[..it] && erased[it..] == tail;
    assert out[..it + 1] == out[..it] + [out[it]];
  }

  /**
   `JiebaUtil::SplitString`: with no stop words loaded it only reports the
   misuse and leaves `out` as it was; otherwise `out` becomes the segmenter's
   tokens with every stop word removed.
   */
  function SplitString(lex: Lexer, target: string, out: seq<string>): (r: seq<string>)
    ensures lex.stopWords == {} ==> r == out
  {
    if lex.stopWords == {} then out
    else RemoveStopWords(lex.cutForSearch(target), lex.stopWords)
  }

  /**
   Once stop words are loaded, the result of `SplitString` holds no stop
   word, keeps every other token of the segmenter as often as it occurred,
   and keeps them in their original order.
   */
  lemma SplitStringSpec(lex: Lexer, target: string, out: seq<string>)
    requires lex.stopWords != {}
    ensures var r := SplitString(lex, target, out);
      && (forall k :: 0 <= k < |r| ==> r[k] !in lex.stopWords)
      && IsSubsequence(r, lex.cutForSearch(target))
      && (forall t :: t !in lex.stopWords ==> multiset(r)[t] == multiset(lex.cutForSearch(target))[t])
  {
    RemoveStopWordsKeepsOrder(lex.cutForSearch(target), lex.stopWords);
    RemoveStopWordsKeepsOthers(lex.cutForSearch(target), lex.stopWords);
  }
}
