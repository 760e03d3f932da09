/**
 The corpus extractor of `parser.cpp`: pull the title out of an HTML page,
 strip its tags to get the content, rewrite the local path into the public
 URL, and serialise each document as one separator-delimited line.
 */
module Parser {
  import opened Wrappers
  import opened Text

  /** `std::string::npos`, the largest `size_t`. */
  const NPOS: nat := 0xFFFF_FFFF_FFFF_FFFF

  /** `size_t` arithmetic wraps modulo 2^64. */
  const SIZE_MOD: nat := 0x1_0000_0000_0000_0000

  /** A `std::string`: its size is always below `npos`. */
  type CppString = s: string | |s| < NPOS

  const TITLE_OPEN: string := "<title>"
  const TITLE_CLOSE: string := "</title>"

  /** The directory the extractor reads pages from. */
  const SRC: string := "./data/input/"

  /** The public location the local page paths are mapped to. */
  const URL_HEAD: string := "https://www.boost.org/doc/libs/1_79_0/doc/html/"

  /** `DocInfo_t`: one extracted page. */
  datatype ParsedDoc = ParsedDoc(title: string, content: string, url: string)

  /**
   What a parsing step did: it returned its boolean flag together with the
   (possibly updated) document, or `substr` threw `std::out_of_range`.
   */
  datatype Outcome = Returned(ok: bool, doc: ParsedDoc) | OutOfRange

  predicate OccursAt(s: string, pat: string, pos: nat) {
    pos + |pat| <= |s| && s[pos..pos + |pat|] == pat
  }

  /** `std::string::find`: the first occurrence of `pat`, or `npos`. */
  function Find(s: CppString, pat: string): (r: nat)
    ensures r == NPOS || r + |pat| <= |s|
    ensures r != NPOS ==> OccursAt(s, pat, r)
    ensures forall q :: 0 <= q < r && q < NPOS ==> !OccursAt(s, pat, q)
  {
    FindFrom(s, pat, 0)
  }

  function FindFrom(s: CppString, pat: string, from: nat): (r: nat)
    requires from <= |s|
    ensures r == NPOS || (from <= r && r + |pat| <= |s|)
    ensures r != NPOS ==> OccursAt(s, pat, r)
    ensures forall q :: from <= q < r && q < NPOS ==> !OccursAt(s, pat, q)
    decreases |s| - from
  {
    if from + |pat| > |s| then NPOS
    else if OccursAt(s, pat, from) then from
    else FindFrom(s, pat, from + 1)
  }

  /**
   `std::string::substr(pos, count)`: `None` stands for the `out_of_range`
   it throws when `pos` is past the end; otherwise the piece starting at
   `pos`, `count` characters long or up to the end, whichever is shorter.
   */
  function Substr(s: CppString, pos: nat, count: nat): (r: Option<string>)
    ensures r.None? <==> pos > |s|
    ensures r.Some? ==> OccursAt(s, r.value, pos)
    ensures r.Some? ==> |r.value| == if count < |s| - pos then count else |s| - pos
  {
    if pos > |s| then None
    else Some(s[pos..if count < |s| - pos then pos + count else |s|])
  }

  // ---------------------------------------------------------------------------
  // ParseTitle

  /**
   `ParseTitle` as written: `begin` is the position of `"<title>"` plus its
   length in wrapping `size_t` arithmetic, `end` the first `"</title>"`; a
   window that is empty or reversed is rejected and the document is left as
   it was.
   */
  function ParseTitle(file: CppString, doc: ParsedDoc): (r: Outcome)
    ensures r.Returned? && !r.ok ==> r.doc == doc
    ensures r.Returned? && r.ok ==> r.doc == doc.(title := r.doc.title)
    ensures var p := Find(file, TITLE_OPEN); var e := Find(file, TITLE_CLOSE);
      p != NPOS && e != NPOS ==>
        r == if p + |TITLE_OPEN| < e then Returned(true, doc.(title := file[p + |TITLE_OPEN|..e]))
             else Returned(false, doc)
    ensures r.Returned? && r.ok ==> exists q :: OccursAt(file, r.doc.title, q)
  {
    var begin := (Find(file, TITLE_OPEN) + |TITLE_OPEN|) % SIZE_MOD;
    var end := Find(file, TITLE_CLOSE);
    if begin >= end then Returned(false, doc)
    else
      match Substr(file, begin, end - begin)
      case None => OutOfRange
      case Some(piece) => Returned(true, doc.(title := piece))
  }

  /**
   With neither tag on the page, `begin` wraps to 6 and `end` is `npos`: a
   page of 6 or more characters is kept with everything from offset 6 as its
   title, and a shorter one makes `substr` throw.
   */
  lemma ParseTitleWithoutTags(file: CppString, doc: ParsedDoc)
    requires Find(file, TITLE_OPEN) == NPOS && Find(file, TITLE_CLOSE) == NPOS
    ensures ParseTitle(file, doc)
         == if |file| < |TITLE_OPEN| - 1 then OutOfRange
            else Returned(true, doc.(title := file[|TITLE_OPEN| - 1..]))
  {
  }

  /**
   Without `"<title>"` the wrapped `npos + 7` makes `begin` equal to 6. A page
   made of seven or more characters free of `'<'` followed by `"</title>"`
   therefore gets everything from offset 6 as its title, where the intended
   parser rejects the page.
   */
  lemma ParseTitleWithoutOpenTag(a: string, doc: ParsedDoc)
    requires '<' !in a && |a| > |TITLE_OPEN| - 1 && |a| + |TITLE_CLOSE| < NPOS
    ensures ParseTitle(a + TITLE_CLOSE, doc) == Returned(true, doc.(title := a[|TITLE_OPEN| - 1..]))
    ensures ParseTitleChecked(a + TITLE_CLOSE, doc) == Returned(false, doc)
  {
    var file: CppString := a + TITLE_CLOSE;
    NoOpenTagBeforeClose(a);
    CloseTagAfterText(a);
    assert file[|TITLE_OPEN| - 1..|a|] == a[|TITLE_OPEN| - 1..];
  }

  /** `"<title>"` cannot start inside text free of `'<'`, nor at the `"</"` that follows it. */
  lemma NoOpenTagBeforeClose(a: string)
    requires '<' !in a && |a| + |TITLE_CLOSE| < NPOS
    ensures Find(a + TITLE_CLOSE, TITLE_OPEN) == NPOS
  {
    var file: CppString := a + TITLE_CLOSE;
    forall q: nat | q + |TITLE_OPEN| <= |file|
      ensures !OccursAt(file, TITLE_OPEN, q)
    {
      if q < |a| {
        Mismatch(file, TITLE_OPEN, q, 0);
      } else if q == |a| {
        assert file[q + 1] == '/';
        Mismatch(file, TITLE_OPEN, q, 1);
      } else {
        assert file[q] == '/';
        Mismatch(file, TITLE_OPEN, q, 0);
      }
    }
  }

  /** In text free of `'<'` followed by `"</title>"`, the first `"</title>"` is the one after the text. */
  lemma CloseTagAfterText(a: string)
    requires '<' !in a && |a| + |TITLE_CLOSE| < NPOS
    ensures Find(a + TITLE_CLOSE, TITLE_CLOSE) == |a|
  {
    var file: CppString := a + TITLE_CLOSE;
    assert OccursAt(file, TITLE_CLOSE, |a|) by {
      assert file[|a|..|a| + |TITLE_CLOSE|] == TITLE_CLOSE;
    }
    forall q: nat | q < |a|
      ensures !OccursAt(file, TITLE_CLOSE, q)
    {
      Mismatch(file, TITLE_CLOSE, q, 0);
    }
  }

  /** A pattern does not occur where one of its characters differs from the text. */
  lemma Mismatch(s: string, pat: string, q: nat, k: nat)
    requires k < |pat| && q + k < |s| && s[q + k] != pat[k]
    ensures !OccursAt(s, pat, q)
  {
    if q + |pat| <= |s| {
      assert s[q..q + |pat|][k] == s[q + k];
    }
  }

  /**
   Every page shorter than 6 characters, `"<p>"` among them, is too short to
   hold either tag, so `begin` wraps to 6 and `substr` throws.
   */
  lemma ParseTitleShortPageThrows(file: CppString, doc: ParsedDoc)
    requires |file| < |TITLE_OPEN| - 1
    ensures ParseTitle(file, doc) == OutOfRange
  {
    ParseTitleWithoutTags(file, doc);
  }

  /**
   `ParseTitle` as intended: both tags must be present and enclose a
   non-empty title; the title is the text strictly between the first
   `"<title>"` and the first `"</title>"`, and nothing is ever thrown.
   */
  function ParseTitleChecked(file: CppString, doc: ParsedDoc): (r: Outcome)
    ensures r.Returned?
    ensures !r.ok ==> r.doc == doc
    ensures var p := Find(file, TITLE_OPEN); var e := Find(file, TITLE_CLOSE);
      r.ok <==> p != NPOS && e != NPOS && p + |TITLE_OPEN| < e
    ensures r.ok ==> exists p :: OccursAt(file, TITLE_OPEN + r.doc.title + TITLE_CLOSE, p)
    ensures r.ok ==> r.doc == doc.(title := r.doc.title) && |r.doc.title| > 0
  {
    var p := Find(file, TITLE_OPEN);
    var e := Find(file, TITLE_CLOSE);
    if p == NPOS || e == NPOS || p + |TITLE_OPEN| >= e then Returned(false, doc)
    else
      var t := file[p + |TITLE_OPEN|..e];
      assert file[p..e + |TITLE_CLOSE|] == TITLE_OPEN + t + TITLE_CLOSE by {
        assert file[p..e + |TITLE_CLOSE|]
            == file[p..p + |TITLE_OPEN|] + file[p + |TITLE_OPEN|..e] + file[e..e + |TITLE_CLOSE|];
      }
      assert OccursAt(file, TITLE_OPEN + t + TITLE_CLOSE, p);
      Returned(true, doc.(title := t))
  }

  /**
   With `"<title>"` but no `"</title>"`, `end` is `npos`, so `substr` takes
   everything after the open tag as the title and the page is kept, where
   the corrected parser rejects it.
   */
  lemma ParseTitleWithoutCloseTag(file: CppString, doc: ParsedDoc)
    requires Find(file, TITLE_OPEN) != NPOS && Find(file, TITLE_CLOSE) == NPOS
    ensures ParseTitle(file, doc) == Returned(true, doc.(title := file[Find(file, TITLE_OPEN) + |TITLE_OPEN|..]))
    ensures ParseTitleChecked(file, doc) == Returned(false, doc)
  {
  }

  /** Where both tags are present, the corrected title parser and the written one agree. */
  lemma ParseTitleCheckedAgrees(file: CppString, doc: ParsedDoc)
    requires Find(file, TITLE_OPEN) != NPOS && Find(file, TITLE_CLOSE) != NPOS
    ensures ParseTitleChecked(file, doc) == ParseTitle(file, doc)
  {
  }

  // ---------------------------------------------------------------------------
  // ParseContent

  /** The two states of the tag-stripping machine: inside a tag, or in text. */
  datatype Status = Lable | Content

  /** `'\n'` becomes `' '`; every other character is kept. */
  function NewlineToSpace(c: char): char {
    if c == '\n' then ' ' else c
  }

  function Spaced(s: string): (r: string)
    ensures |r| == |s|
    ensures forall i :: 0 <= i < |s| ==> r[i] == NewlineToSpace(s[i])
  {
    seq(|s|, i requires 0 <= i < |s| => NewlineToSpace(s[i]))
  }

  /**
   The text the state machine emits for `s` when it starts in state `flag`:
   inside a tag everything is dropped up to and including `'>'`; in text a
   `'<'` opens a tag and every other character is emitted, newlines as spaces.
   */
  function StripTags(s: string, flag: Status): (r: string)
    ensures |r| <= |s|
    ensures forall k :: 0 <= k < |r| ==> r[k] != '<' && r[k] != '\n'
    decreases |s|
  {
    if |s| == 0 then []
    else
      match flag
      case Lable => StripTags(s[1..], if s[0] == '>' then Content else Lable)
      case Content =>
        if s[0] == '<' then StripTags(s[1..], Lable)
        else [NewlineToSpace(s[0])] + StripTags(s[1..], Content)
  }

  /** Inside a tag, a stretch without `'>'` emits nothing. */
  lemma {:induction false} StripInsideTag(a: string, b: string)
    requires '>' !in a
    ensures StripTags(a + b, Lable) == StripTags(b, Lable)
    decreases |a|
  {
    if |a| > 0 {
      assert a == [a[0]] + a[1..];
      assert a[0] in a;
      assert (a + b)[0] == a[0] && (a + b)[1..] == a[1..] + b;
      assert StripTags(a + b, Lable) == StripTags(a[1..] + b, Lable);
      StripInsideTag(a[1..], b);
    } else {
      assert a + b == b;
    }
  }

  /** In text, a stretch without `'<'` is emitted with newlines turned into spaces. */
  lemma {:induction false} StripInText(a: string, b: string)
    requires '<' !in a
    ensures StripTags(a + b, Content) == Spaced(a) + StripTags(b, Content)
    decreases |a|
  {
    if |a| > 0 {
      assert a == [a[0]] + a[1..];
      assert a[0] in a;
      assert (a + b)[0] == a[0] && (a + b)[1..] == a[1..] + b;
      assert StripTags(a + b, Content) == [NewlineToSpace(a[0])] + StripTags(a[1..] + b, Content);
      StripInText(a[1..], b);
      assert Spaced(a) == [NewlineToSpace(a[0])] + Spaced(a[1..]);
    } else {
      assert a + b == b;
    }
  }

  /**
   Everything before the first `'>'` of the page is dropped, and so is every
   span from a `'<'` through the next `'>'`; the text between is kept.
   */
  lemma StripSegments(tag: string, text: string, rest: string)
    requires '>' !in tag && '<' !in text
    ensures StripTags(tag + ['>'] + text + ['<'] + rest, Lable)
         == Spaced(text) + StripTags(rest, Lable)
  {
    StripInsideTag(tag, ['>'] + text + ['<'] + rest);
    assert tag + ['>'] + text + ['<'] + rest == tag + (['>'] + text + ['<'] + rest);
    assert (['>'] + text + ['<'] + rest)[1..] == text + (['<'] + rest);
    StripInText(text, ['<'] + rest);
    assert (['<'] + rest)[1..] == rest;
  }

  /** A page with no `'>'` at all contributes no content. */
  lemma StripNoTagEnd(s: string)
    requires '>' !in s
    ensures StripTags(s, Lable) == []
  {
    StripInsideTag(s, []);
    assert s + [] == s;
  }

  /**
   `ParseContent`: run the two-state machine over the page, starting inside a
   tag, appending what it emits to the document's content. It always
   succeeds and changes nothing but the content.
   */
  method ParseContent(file: string, doc: ParsedDoc) returns (ok: bool, res: ParsedDoc)
    ensures ok
    ensures res.title == doc.title && res.url == doc.url
    ensures res.content == doc.content + StripTags(file, Lable)
    ensures |doc.content| <= |res.content| <= |doc.content| + |file|
    ensures forall k :: |doc.content| <= k < |res.content| ==> res.content[k] != '<' && res.content[k] != '\n'
  {
    res := doc;
    var flag := Lable;
    for i := 0 to |file|
      invariant res.title == doc.title && res.url == doc.url
      invariant res.content + StripTags(file[i..], flag) == doc.content + StripTags(file, Lable)
    {
      var ch := file[i];
      assert file[i..][0] == ch && file[i..][1..] == file[i + 1..];
      match flag
      case Lable =>
        if ch == '>' {
          flag := Content;
        }
      case Content =>
        if ch == '<' {
          flag := Lable;
        } else {
          res := res.(content := res.content + [NewlineToSpace(ch)]);
        }
    }
    assert file[|file|..] == [];
    ok := true;
  }

  // ---------------------------------------------------------------------------
  // ParseUrl and SaveHtml

  /**
   `ParseUrl`: drop the first `|SRC|` characters of the local path and put
   the public URL head in front; a path shorter than that makes `substr` throw.
   */
  function ParseUrl(path: CppString, doc: ParsedDoc): (r: Outcome)
    ensures r.OutOfRange? <==> |path| < |SRC|
    ensures r.Returned? ==> r.ok && r.doc == doc.(url := URL_HEAD + path[|SRC|..])
  {
    match Substr(path, |SRC|, NPOS)
    case None => OutOfRange
    case Some(tail) => Returned(true, doc.(url := URL_HEAD + tail))
  }

  /** A page under the source directory is published under the URL head at the same relative path. */
  lemma ParseUrlReplacesPrefix(rel: string, doc: ParsedDoc)
    requires |SRC + rel| < NPOS
    ensures ParseUrl(SRC + rel, doc) == Returned(true, doc.(url := URL_HEAD + rel))
  {
    assert (SRC + rel)[|SRC|..] == rel;
  }

  /**
   The body of the `ParseHtml` loop for one page that was read, as written:
   the title parser may reject the page or throw, the content is stripped,
   and the URL parser may throw. An exception ends the whole extraction,
   since nothing catches it.
   */
  function ParseDocument(file: CppString, path: CppString): (r: Outcome)
    ensures var t := ParseTitle(file, ParsedDoc([], [], []));
      r.OutOfRange? <==> t.OutOfRange? || (t.ok && |path| < |SRC|)
    ensures var t := ParseTitle(file, ParsedDoc([], [], []));
      r.Returned? && !r.ok <==> t == Returned(false, ParsedDoc([], [], []))
    ensures var t := ParseTitle(file, ParsedDoc([], [], []));
      r.Returned? && r.ok ==> t.Returned? && r.doc == ParsedDoc(t.doc.title, StripTags(file, Lable), URL_HEAD + path[|SRC|..])
  {
    match ParseTitle(file, ParsedDoc([], [], []))
    case OutOfRange => OutOfRange
    case Returned(ok, titled) =>
      if !ok then Returned(false, titled)
      else ParseUrl(path, titled.(content := titled.content + StripTags(file, Lable)))
  }

  /**
   The `ParseHtml` loop body with the corrected title parser: nothing is
   thrown for the title, and a page is kept only when its title was found.
   */
  function ParseDocumentChecked(file: CppString, path: CppString): (r: Outcome)
    ensures r.OutOfRange? ==> |path| < |SRC|
    ensures r.Returned? && r.ok ==>
      |path| >= |SRC| && r.doc == ParsedDoc(ParseTitleChecked(file, ParsedDoc([], [], [])).doc.title,
                         StripTags(file, Lable), URL_HEAD + path[|SRC|..])
    ensures r.Returned? && r.ok ==> |r.doc.title| > 0
    ensures r.Returned? && !r.ok <==> !ParseTitleChecked(file, ParsedDoc([], [], [])).ok
  {
    var titled := ParseTitleChecked(file, ParsedDoc([], [], []));
    if !titled.ok then Returned(false, titled.doc)
    else ParseUrl(path, titled.doc.(content := titled.doc.content + StripTags(file, Lable)))
  }

  /** Where both tags are present, the extractor as written and the corrected one keep the same document. */
  lemma ParseDocumentCheckedAgrees(file: CppString, path: CppString)
    requires Find(file, TITLE_OPEN) != NPOS && Find(file, TITLE_CLOSE) != NPOS
    ensures ParseDocument(file, path) == ParseDocumentChecked(file, path)
  {
    ParseTitleCheckedAgrees(file, ParsedDoc([], [], []));
  }

  /**
   A page with `"<title>"` but no `"</title>"`, under the source directory,
   is kept by the extractor as written with the rest of the page as its
   title, and skipped by the corrected one.
   */
  lemma ParseDocumentWithoutCloseTag(file: CppString, path: CppString)
    requires Find(file, TITLE_OPEN) != NPOS && Find(file, TITLE_CLOSE) == NPOS && |path| >= |SRC|
    ensures ParseDocument(file, path)
         == Returned(true, ParsedDoc(file[Find(file, TITLE_OPEN) + |TITLE_OPEN|..],
                                     StripTags(file, Lable), URL_HEAD + path[|SRC|..]))
    ensures ParseDocumentChecked(file, path).Returned? && !ParseDocumentChecked(file, path).ok
  {
    ParseTitleWithoutCloseTag(file, ParsedDoc([], [], []));
  }

  /** One saved record: the three fields separated by 0x03 and closed by a newline. */
  function FormatRecord(doc: ParsedDoc): string {
    doc.title + [SEP] + doc.content + [SEP] + doc.url + ['\n']
  }

  /** Everything `SaveHtml` writes: the records of all documents, in order. */
  function SaveHtml(results: seq<ParsedDoc>): string
    decreases |results|
  {
    if |results| == 0 then []
    else FormatRecord(results[0]) + SaveHtml(results[1..])
  }
}
