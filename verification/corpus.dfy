/**
 The corpus file that links the extractor to the indexer: `SaveHtml` writes
 one separator-delimited line per page, and `BuildIndex` reads it back with
 `std::getline` and cuts each line with `CutString`. This module states
 when that hand-over loses nothing and where it does.
 */
module Corpus {
  import opened Wrappers
  import opened Text
  import opened Util
  import opened Parser
  import opened Indexer

  /**
   The lines `while (getline(fin, line))` yields: each line without its
   `'\n'`; a last line without a terminating `'\n'` still counts, and a
   terminating `'\n'` does not start an extra empty line.
   */
  function Lines(s: string): (ls: seq<string>)
    ensures forall k :: 0 <= k < |ls| ==> '\n' !in ls[k]
    ensures |s| == 0 <==> |ls| == 0
    decreases |s|
  {
    if |s| == 0 then []
    else
      var i := NextSep(s, {'\n'}, 0);
      assert '\n' !in s[..i] by {
        forall k | 0 <= k < i ensures s[..i][k] != '\n' { }
      }
      if i == |s| then [s] else [s[..i]] + Lines(s[i + 1..])
  }

  /** A line free of `'\n'` followed by a newline is read back as that line, then the rest. */
  lemma LinesCons(l: string, rest: string)
    requires '\n' !in l
    ensures Lines(l + ['\n'] + rest) == [l] + Lines(rest)
  {
    var s := l + ['\n'] + rest;
    assert NextSep(s, {'\n'}, 0) == |l| by {
      forall k | 0 <= k < |l| ensures s[k] != '\n' {
        assert s[k] == l[k];
      }
      assert s[|l|] == '\n';
    }
    assert s[..|l|] == l;
    assert s[|l| + 1..] == rest;
  }

  /** The line of one record, without its newline. */
  function Record(doc: ParsedDoc): string {
    Join([doc.title, doc.content, doc.url], SEP)
  }

  /** A record is title, separator, content, separator, URL. */
  lemma RecordFields(doc: ParsedDoc)
    ensures Record(doc) == doc.title + [SEP] + doc.content + [SEP] + doc.url
  {
    var fs := [doc.title, doc.content, doc.url];
    assert fs[1..] == [doc.content, doc.url];
    assert fs[1..][1..] == [doc.url];
    assert Join(fs[1..], SEP) == doc.content + [SEP] + doc.url;
    assert Join(fs, SEP) == doc.title + [SEP] + (doc.content + [SEP] + doc.url);
  }

  /** A saved record is its fields joined by the separator, then a newline. */
  lemma FormatRecordIsJoin(doc: ParsedDoc)
    ensures FormatRecord(doc) == Record(doc) + ['\n']
  {
    RecordFields(doc);
  }

  /**
   A page survives the round trip when none of its fields holds the
   separator or a newline and its content is non-empty.
   */
  predicate Clean(doc: ParsedDoc) {
    && NoSep(doc.title, {SEP}) && NoSep(doc.content, {SEP}) && NoSep(doc.url, {SEP})
    && '\n' !in doc.title && '\n' !in doc.content && '\n' !in doc.url
    && |doc.content| > 0
  }

  /** Cutting a clean record gives back its title, content and URL. */
  lemma RecordRoundTrip(doc: ParsedDoc)
    requires Clean(doc)
    ensures CutString(Record(doc), {SEP}) == [doc.title, doc.content, doc.url]
  {
    CutJoin([doc.title, doc.content, doc.url], SEP, {SEP});
  }

  /** A clean record holds no newline. */
  lemma RecordHasNoNewline(doc: ParsedDoc)
    requires Clean(doc)
    ensures '\n' !in Record(doc)
  {
    RecordFields(doc);
    var r := Record(doc);
    forall k | 0 <= k < |r| ensures r[k] != '\n' {
      if k < |doc.title| {
        assert r[k] == doc.title[k];
      } else if k == |doc.title| {
      } else if k < |doc.title| + 1 + |doc.content| {
        assert r[k] == doc.content[k - |doc.title| - 1];
      } else if k == |doc.title| + 1 + |doc.content| {
      } else {
        assert r[k] == doc.url[k - |doc.title| - |doc.content| - 2];
      }
    }
  }

  /** The lines of all records, in order. */
  function Records(docs: seq<ParsedDoc>): seq<string> {
    seq(|docs|, k requires 0 <= k < |docs| => Record(docs[k]))
  }

  /** Reading the saved corpus back line by line yields exactly the records of clean pages. */
  lemma {:induction false} LinesOfSaveHtml(docs: seq<ParsedDoc>)
    requires forall k :: 0 <= k < |docs| ==> Clean(docs[k])
    ensures Lines(SaveHtml(docs)) == Records(docs)
    decreases |docs|
  {
    if |docs| > 0 {
      FormatRecordIsJoin(docs[0]);
      RecordHasNoNewline(docs[0]);
      LinesCons(Record(docs[0]), SaveHtml(docs[1..]));
      assert Record(docs[0]) + ['\n'] + SaveHtml(docs[1..]) == SaveHtml(docs);
      LinesOfSaveHtml(docs[1..]);
      assert Records(docs) == [Record(docs[0])] + Records(docs[1..]);
    }
  }

  /** The fields of clean pages, as the indexer accepts them. */
  function Triples(docs: seq<ParsedDoc>): seq<(string, string, string)> {
    seq(|docs|, k requires 0 <= k < |docs| => (docs[k].title, docs[k].content, docs[k].url))
  }

  /** Every record of a clean page is accepted, with its own fields. */
  lemma {:induction false} AcceptedRecordsOfClean(docs: seq<ParsedDoc>)
    requires forall k :: 0 <= k < |docs| ==> Clean(docs[k])
    ensures AcceptedRecords(Records(docs)) == Triples(docs)
    decreases |docs|
  {
    if |docs| > 0 {
      RecordRoundTrip(docs[0]);
      AcceptedRecordsOfClean(docs[1..]);
      assert Records(docs)[1..] == Records(docs[1..]);
      assert Triples(docs) == [(docs[0].title, docs[0].content, docs[0].url)] + Triples(docs[1..]);
    }
  }

  /** Pages numbered from 0 in the order they were saved. */
  function Numbered(docs: seq<ParsedDoc>): seq<DocInfo> {
    seq(|docs|, k requires 0 <= k < |docs| => DocInfo(k, docs[k].title, docs[k].content, docs[k].url))
  }

  /** Numbering the pages is numbering their fields from 0. */
  lemma NumberedIsDocs(docs: seq<ParsedDoc>)
    ensures Docs(0, Triples(docs)) == Numbered(docs)
  {
  }

  /**
   Indexing a corpus saved from clean pages succeeds, gives page `k` the id
   `k` with its own title, content and URL, and leaves a consistent index.
   */
  lemma SavedCorpusIndexes(docs: seq<ParsedDoc>, lex: Lexer)
    requires forall k :: 0 <= k < |docs| ==> Clean(docs[k])
    ensures var r := BuildIndex(EmptyIndex, Some(Lines(SaveHtml(docs))), lex);
      r.0 && r.1.forward == Numbered(docs) && Consistent(r.1, lex)
  {
    LinesOfSaveHtml(docs);
    AcceptedRecordsOfClean(docs);
    EmptyIndexConsistent(lex);
    NumberedIsDocs(docs);
    assert EmptyIndex.forward + Docs(0, Triples(docs)) == Numbered(docs);
  }

  /**
   A page whose tags left no text is saved with an empty content field; the
   two separators then collapse, the line cuts into two fields, and the
   indexer skips the page.
   */
  lemma EmptyContentIsSkipped(idx: Index, doc: ParsedDoc, lex: Lexer)
    requires NoSep(doc.title, {SEP}) && NoSep(doc.url, {SEP}) && doc.content == []
    ensures AddLine(idx, Record(doc), lex) == idx
  {
    assert Record(doc) == doc.title + [SEP, SEP] + doc.url by {
      RecordFields(doc);
    }
    EmptyMiddleFieldCollapses(doc.title, doc.url, SEP);
  }

  /** The lines of a file glued together with nothing between them. */
  function Concat(ls: seq<string>): string
    decreases |ls|
  {
    if |ls| == 0 then [] else ls[0] + Concat(ls[1..])
  }

  /**
   `Util::ReadFile`: every line `getline` yields is appended without its
   `'\n'`, so the page text the extractor parses holds no newline at all.
   */
  function ReadFile(raw: string): (text: string)
    ensures '\n' !in text
  {
    ConcatNoNewline(Lines(raw));
    Concat(Lines(raw))
  }

  lemma {:induction false} ConcatNoNewline(ls: seq<string>)
    requires forall k :: 0 <= k < |ls| ==> '\n' !in ls[k]
    ensures '\n' !in Concat(ls)
    decreases |ls|
  {
    if |ls| > 0 {
      ConcatNoNewline(ls[1..]);
      assert '\n' !in ls[0];
    }
  }

  /**
   Reading drops each newline and joins the lines it separated directly,
   so the last word of one line and the first word of the next touch.
   */
  lemma ReadFileJoinsLines(a: string, b: string)
    requires '\n' !in a
    ensures ReadFile(a + ['\n'] + b) == a + ReadFile(b)
  {
    LinesCons(a, b);
    assert ([a] + Lines(b))[1..] == Lines(b);
  }

  /** Text that occurs in a newline-free page is newline-free. */
  lemma OccurrenceHasNoNewline(file: string, x: string, p: nat)
    requires '\n' !in file && OccursAt(file, x, p)
    ensures '\n' !in x
  {
    forall k | 0 <= k < |x| ensures x[k] != '\n' {
      assert x[k] == file[p + k];
    }
  }

  /**
   A page read with `ReadFile` and extracted successfully has a title and
   content without newlines, so its saved record stays on one line. This
   holds for the extractor as written, whose title may be the wrapped
   offset-6 tail of a page without `<title>`, and for the corrected one.
   */
  lemma ExtractedFieldsHaveNoNewline(raw: string, path: CppString)
    requires |ReadFile(raw)| < NPOS
    ensures var r := ParseDocument(ReadFile(raw), path);
      r.Returned? && r.ok ==> '\n' !in r.doc.title && '\n' !in r.doc.content
    ensures var r := ParseDocumentChecked(ReadFile(raw), path);
      r.Returned? && r.ok ==> '\n' !in r.doc.title && '\n' !in r.doc.content
  {
    var file: CppString := ReadFile(raw);
    var empty := ParsedDoc([], [], []);
    var t := ParseTitle(file, empty);
    if t.Returned? && t.ok {
      var q :| OccursAt(file, t.doc.title, q);
      OccurrenceHasNoNewline(file, t.doc.title, q);
    }
    var tc := ParseTitleChecked(file, empty);
    if tc.ok {
      var p :| OccursAt(file, TITLE_OPEN + tc.doc.title + TITLE_CLOSE, p);
      OccurrenceHasNoNewline(file, TITLE_OPEN + tc.doc.title + TITLE_CLOSE, p);
      assert forall k :: 0 <= k < |tc.doc.title| ==>
        tc.doc.title[k] == (TITLE_OPEN + tc.doc.title + TITLE_CLOSE)[|TITLE_OPEN| + k];
    }
    var c := StripTags(file, Lable);
    assert forall k :: 0 <= k < |c| ==> c[k] != '\n';
  }
}
