/**
 The index of `Index.hpp`: a forward index from document id to document and
 an inverted index from lower-cased word to its posting list, built line by
 line from the corpus file. The singleton and its lock are replaced by an
 explicit `Index` value that every operation takes and returns.
 */
module Indexer {
  import opened Wrappers
  import opened Text
  import opened Util

  /** One document of the forward index. */
  datatype DocInfo = DocInfo(id: nat, title: string, content: string, url: string)

  /** One posting: the document, the word, and the word's weight in that document. */
  datatype InvertedElem = InvertedElem(id: nat, word: string, weight: int)

  type InvertedList = seq<InvertedElem>

  /** How often a word occurs in a document's title and in its content. */
  datatype WordCnt = WordCnt(titleCnt: nat, contentCnt: nat)

  datatype Index = Index(forward: seq<DocInfo>, inverted: map<string, InvertedList>)

  /** The weight of one title occurrence and of one content occurrence. */
  const TITLE_VALUE: int := 10
  const CONTENT_VALUE: int := 1

  const EmptyIndex: Index := Index([], map[])

  /** `GetForwardIndex`: the document in slot `id`, or nothing when `id` is out of range. */
  function GetForwardIndex(idx: Index, id: nat): (r: Option<DocInfo>)
    ensures r.None? <==> id >= |idx.forward|
    ensures r.Some? ==> r.value == idx.forward[id]
  {
    if id >= |idx.forward| then None else Some(idx.forward[id])
  }

  /** `GetInvertedIndex`: the posting list of `word`, or nothing when the word was never indexed. */
  function GetInvertedIndex(idx: Index, word: string): (r: Option<InvertedList>)
    ensures r.None? <==> word !in idx.inverted
    ensures r.Some? ==> r.value == idx.inverted[word]
  {
    if word in idx.inverted then Some(idx.inverted[word]) else None
  }

  // ---------------------------------------------------------------------------
  // Per-document word counting (the `word_map` of BuildInvertedIndex)

  /** The number of tokens in `parts` whose lower-cased form is `w`. */
  function Occurrences(parts: seq<string>, w: string): nat
    decreases |parts|
  {
    if |parts| == 0 then 0
    else (if Lower(parts[0]) == w then 1 else 0) + Occurrences(parts[1..], w)
  }

  /** `word_map[w]`, which value-initialises a missing entry to zero counts. */
  function CountOf(m: map<string, WordCnt>, w: string): WordCnt {
    if w in m then m[w] else WordCnt(0, 0)
  }

  /** `n` more title occurrences, or `n` more content occurrences. */
  function AddCount(c: WordCnt, n: nat, inTitle: bool): WordCnt {
    if inTitle then c.(titleCnt := c.titleCnt + n) else c.(contentCnt := c.contentCnt + n)
  }

  /** The counting loop: lower-case each token and bump its title or content count. */
  function CountWords(m: map<string, WordCnt>, parts: seq<string>, inTitle: bool): map<string, WordCnt>
    decreases |parts|
  {
    if |parts| == 0 then m
    else
      var w := Lower(parts[0]);
      CountWords(m[w := AddCount(CountOf(m, w), 1, inTitle)], parts[1..], inTitle)
  }

  /** Counting adds exactly the occurrences of each lower-cased word, and creates entries for nothing else. */
  lemma {:induction false} CountWordsSpec(m: map<string, WordCnt>, parts: seq<string>, inTitle: bool, w: string)
    ensures var r := CountWords(m, parts, inTitle);
      && (w in r <==> w in m || Occurrences(parts, w) > 0)
      && CountOf(r, w) == AddCount(CountOf(m, w), Occurrences(parts, w), inTitle)
    decreases |parts|
  {
    if |parts| > 0 {
      var w0 := Lower(parts[0]);
      var m' := m[w0 := AddCount(CountOf(m, w0), 1, inTitle)];
      CountWordsSpec(m', parts[1..], inTitle, w);
    }
  }

  /** The title tokens of a document, stop words removed. */
  function TitleWords(doc: DocInfo, lex: Lexer): seq<string> {
    SplitString(lex, doc.title, [])
  }

  /** The content tokens of a document, stop words removed. */
  function ContentWords(doc: DocInfo, lex: Lexer): seq<string> {
    SplitString(lex, doc.content, [])
  }

  /** The finished `word_map` of one document: title tokens counted first, then content tokens. */
  function WordMap(doc: DocInfo, lex: Lexer): map<string, WordCnt> {
    CountWords(CountWords(map[], TitleWords(doc, lex), true), ContentWords(doc, lex), false)
  }

  /** `TITLE_VALUE * title_cnt + CONTENT_VALUE * content_cnt`. */
  function Weight(c: WordCnt): int {
    TITLE_VALUE * c.titleCnt + CONTENT_VALUE * c.contentCnt
  }

  /**
   A word is in a document's map exactly when some title or content token
   lower-cases to it; its counts are those occurrences, so its weight is
   ten per title occurrence plus one per content occurrence, and at least 1.
   */
  lemma WordMapSpec(doc: DocInfo, lex: Lexer, w: string)
    ensures var wm := WordMap(doc, lex);
      var t := Occurrences(TitleWords(doc, lex), w);
      var c := Occurrences(ContentWords(doc, lex), w);
      && (w in wm <==> t + c > 0)
      && (w in wm ==> wm[w] == WordCnt(t, c) && Weight(wm[w]) == 10 * t + c && Weight(wm[w]) >= 1)
  {
    var m1 := CountWords(map[], TitleWords(doc, lex), true);
    CountWordsSpec(map[], TitleWords(doc, lex), true, w);
    CountWordsSpec(m1, ContentWords(doc, lex), false, w);
  }

  // ---------------------------------------------------------------------------
  // Appending postings

  /** `inverted_index[w]`, which value-initialises a missing list to empty. */
  function ListOf(inverted: map<string, InvertedList>, w: string): InvertedList {
    if w in inverted then inverted[w] else []
  }

  /** The one posting a document contributes for a word of its map. */
  function NewPosting(id: nat, wm: map<string, WordCnt>, w: string): InvertedElem
    requires w in wm
  {
    InvertedElem(id, w, Weight(wm[w]))
  }

  /** Every word of `words` gets its new posting appended to its list; other lists are untouched. */
  function AppendOn(inverted: map<string, InvertedList>, id: nat, wm: map<string, WordCnt>, words: set<string>)
    : (r: map<string, InvertedList>)
    requires words <= wm.Keys
    ensures r.Keys == inverted.Keys + words
    ensures forall w :: w in words ==> r[w] == ListOf(inverted, w) + [NewPosting(id, wm, w)]
    ensures forall w :: w in inverted && w !in words ==> r[w] == inverted[w]
  {
    map w | w in inverted.Keys + words ::
      ListOf(inverted, w) + (if w in words then [NewPosting(id, wm, w)] else [])
  }

  /**
   The loop over `word_map` in one particular iteration order `order`:
   `inverted_index[word].push_back(elem)` for each word in turn.
   */
  function PushBackAll(inverted: map<string, InvertedList>, id: nat, wm: map<string, WordCnt>, order: seq<string>)
    : map<string, InvertedList>
    requires forall k :: 0 <= k < |order| ==> order[k] in wm
    decreases |order|
  {
    if |order| == 0 then inverted
    else
      var w := order[0];
      PushBackAll(inverted[w := ListOf(inverted, w) + [NewPosting(id, wm, w)]], id, wm, order[1..])
  }

  /**
   The order in which the hash map hands out its words does not matter: any
   enumeration of the map's words without repetition yields the same index,
   because each word only ever appends to its own list.
   */
  lemma {:induction false} PushBackAnyOrder(inverted: map<string, InvertedList>, id: nat,
                                            wm: map<string, WordCnt>, order: seq<string>)
    requires forall k :: 0 <= k < |order| ==> order[k] in wm
    requires forall j, k :: 0 <= j < k < |order| ==> order[j] != order[k]
    ensures PushBackAll(inverted, id, wm, order) == AppendOn(inverted, id, wm, set w | w in order)
    decreases |order|
  {
    if |order| == 0 {
      assert (set w | w in order) == {};
      assert AppendOn(inverted, id, wm, {}) == inverted;
    } else {
      var w0 := order[0];
      var rest := order[1..];
      var inv1 := inverted[w0 := ListOf(inverted, w0) + [NewPosting(id, wm, w0)]];
      PushBackAnyOrder(inv1, id, wm, rest);
      ElementsCons(order);
      AppendOnStep(inverted, id, wm, (set w | w in rest), w0);
    }
  }

  /** The elements of a repetition-free sequence are its head plus the elements of its tail, which lack the head. */
  lemma ElementsCons(order: seq<string>)
    requires |order| > 0
    requires forall j, k :: 0 <= j < k < |order| ==> order[j] != order[k]
    ensures order[0] !in (set w | w in order[1..])
    ensures (set w | w in order) == (set w | w in order[1..]) + {order[0]}
  {
    assert order == [order[0]] + order[1..];
  }

  /** Appending for one word first and then for the others is appending for all of them. */
  lemma AppendOnStep(inverted: map<string, InvertedList>, id: nat, wm: map<string, WordCnt>,
                     words: set<string>, w0: string)
    requires words <= wm.Keys && w0 in wm && w0 !in words
    ensures AppendOn(inverted[w0 := ListOf(inverted, w0) + [NewPosting(id, wm, w0)]], id, wm, words)
         == AppendOn(inverted, id, wm, words + {w0})
  {
    var inv1 := inverted[w0 := ListOf(inverted, w0) + [NewPosting(id, wm, w0)]];
    var lhs := AppendOn(inv1, id, wm, words);
    var rhs := AppendOn(inverted, id, wm, words + {w0});
    assert lhs.Keys == rhs.Keys;
    forall w | w in lhs.Keys ensures lhs[w] == rhs[w] {
      if w == w0 {
        assert lhs[w] == inv1[w];
      } else if w !in words {
        assert lhs[w] == inv1[w] == inverted[w];
      }
    }
  }

  // ---------------------------------------------------------------------------
  // Building the index

  /**
   `BuildForwardIndex`: a line that does not cut into exactly three fields is
   rejected and the forward index is untouched; otherwise fields 0, 1 and 2
   become title, content and url of a document whose id is its slot.
   */
  function BuildForwardIndex(forward: seq<DocInfo>, line: string): (r: (seq<DocInfo>, Option<DocInfo>))
    ensures |CutString(line, {SEP})| != 3 <==> r.1.None?
    ensures r.1.None? ==> r.0 == forward
    ensures r.1.Some? ==> var f := CutString(line, {SEP});
      && r.1.value == DocInfo(|forward|, f[0], f[1], f[2])
      && r.0 == forward + [r.1.value]
      && r.0[r.1.value.id] == r.1.value
  {
    var split := CutString(line, {SEP});
    if |split| != 3 then (forward, None)
    else
      var doc := DocInfo(|forward|, split[0], split[1], split[2]);
      (forward + [doc], Some(doc))
  }

  /**
   `BuildInvertedIndex`: every distinct lower-cased word of the document gets
   exactly one posting, appended at the end of its list, with the document's
   id and the word's weight; no other list changes.
   */
  function BuildInvertedIndex(inverted: map<string, InvertedList>, doc: DocInfo, lex: Lexer)
    : (r: map<string, InvertedList>)
    ensures r.Keys == inverted.Keys + WordMap(doc, lex).Keys
    ensures forall w :: w in inverted && w !in WordMap(doc, lex) ==> r[w] == inverted[w]
    ensures forall w :: w in WordMap(doc, lex) ==>
      && |r[w]| == |ListOf(inverted, w)| + 1
      && r[w][..|ListOf(inverted, w)|] == ListOf(inverted, w)
      && r[w][|ListOf(inverted, w)|].id == doc.id
      && r[w][|ListOf(inverted, w)|].word == w
      && r[w][|ListOf(inverted, w)|].weight == Weight(WordMap(doc, lex)[w])
  {
    var wm := WordMap(doc, lex);
    var r := AppendOn(inverted, doc.id, wm, wm.Keys);
    assert forall w :: w in wm ==> r[w][..|ListOf(inverted, w)|] == ListOf(inverted, w);
    r
  }

  /** One iteration of the `getline` loop of `BuildIndex`. */
  function AddLine(idx: Index, line: string, lex: Lexer): (r: Index)
    ensures |CutString(line, {SEP})| != 3 ==> r == idx
    ensures r.forward == idx.forward + Docs(|idx.forward|, AcceptedRecord(line))
  {
    var (forward, doc) := BuildForwardIndex(idx.forward, line);
    match doc
    case None => idx
    case Some(d) => Index(forward, BuildInvertedIndex(idx.inverted, d, lex))
  }

  /** All lines, in file order. */
  function BuildFrom(idx: Index, lines: seq<string>, lex: Lexer): Index
    decreases |lines|
  {
    if |lines| == 0 then idx else BuildFrom(AddLine(idx, lines[0], lex), lines[1..], lex)
  }

  /**
   `BuildIndex`: `None` stands for a corpus file that could not be opened,
   which fails and leaves the index alone; otherwise every line is processed
   in order and the build succeeds. Building keeps the index consistent.
   */
  function BuildIndex(idx: Index, source: Option<seq<string>>, lex: Lexer): (r: (bool, Index))
    ensures r.0 <==> source.Some?
    ensures !r.0 ==> r.1 == idx
    ensures source.Some? ==>
      r.1.forward == idx.forward + Docs(|idx.forward|, AcceptedRecords(source.value))
    ensures Consistent(idx, lex) ==> Consistent(r.1, lex)
  {
    match source
    case None => (false, idx)
    case Some(lines) =>
      BuildFromForward(idx, lines, lex);
      assert Consistent(idx, lex) ==> Consistent(BuildFrom(idx, lines, lex), lex) by {
        if Consistent(idx, lex) {
          BuildFromConsistent(idx, lines, lex);
        }
      }
      (true, BuildFrom(idx, lines, lex))
  }

  // ---------------------------------------------------------------------------
  // What the forward index holds

  /** The three fields of a line that cuts into exactly three fields; nothing for any other line. */
  function AcceptedRecord(line: string): seq<(string, string, string)> {
    var f := CutString(line, {SEP});
    if |f| == 3 then [(f[0], f[1], f[2])] else []
  }

  /** The accepted records of all lines, in order. */
  function AcceptedRecords(lines: seq<string>): seq<(string, string, string)>
    decreases |lines|
  {
    if |lines| == 0 then [] else AcceptedRecord(lines[0]) + AcceptedRecords(lines[1..])
  }

  /** Documents numbered consecutively from `start`. */
  function Docs(start: nat, recs: seq<(string, string, string)>): seq<DocInfo> {
    seq(|recs|, k requires 0 <= k < |recs| => DocInfo(start + k, recs[k].0, recs[k].1, recs[k].2))
  }

  lemma DocsAppend(start: nat, a: seq<(string, string, string)>, b: seq<(string, string, string)>)
    ensures Docs(start, a + b) == Docs(start, a) + Docs(start + |a|, b)
  {
  }

  /**
   The forward index gains one document per accepted line, with ids that
   continue densely from the current size: rejected lines leave no gap.
   */
  lemma {:induction false} BuildFromForward(idx: Index, lines: seq<string>, lex: Lexer)
    ensures BuildFrom(idx, lines, lex).forward == idx.forward + Docs(|idx.forward|, AcceptedRecords(lines))
    decreases |lines|
  {
    if |lines| == 0 {
      assert idx.forward + [] == idx.forward;
    } else {
      var idx1 := AddLine(idx, lines[0], lex);
      assert BuildFrom(idx, lines, lex) == BuildFrom(idx1, lines[1..], lex);
      assert AcceptedRecords(lines) == AcceptedRecord(lines[0]) + AcceptedRecords(lines[1..]);
      BuildFromForward(idx1, lines[1..], lex);
      DocsChain(idx.forward, AcceptedRecord(lines[0]), AcceptedRecords(lines[1..]),
                idx1.forward, BuildFrom(idx1, lines[1..], lex).forward);
    }
  }

  /** Numbering two batches of records one after the other numbers them together. */
  lemma DocsChain(f0: seq<DocInfo>, a: seq<(string, string, string)>, later: seq<(string, string, string)>,
                  f1: seq<DocInfo>, f2: seq<DocInfo>)
    requires f1 == f0 + Docs(|f0|, a)
    requires f2 == f1 + Docs(|f1|, later)
    ensures f2 == f0 + Docs(|f0|, a + later)
  {
    DocsAppend(|f0|, a, later);
  }

  // ---------------------------------------------------------------------------
  // What the inverted index holds

  /** The postings document `d` contributes for `w`: one if `w` is among its words, else none. */
  function PostingOf(d: DocInfo, w: string, lex: Lexer): InvertedList {
    var wm := WordMap(d, lex);
    if w in wm then [NewPosting(d.id, wm, w)] else []
  }

  /** The list `w` should have: the postings of all documents containing `w`, in document order. */
  function Expected(forward: seq<DocInfo>, w: string, lex: Lexer): InvertedList
    decreases |forward|
  {
    if |forward| == 0 then []
    else Expected(forward[..|forward| - 1], w, lex) + PostingOf(forward[|forward| - 1], w, lex)
  }

  /** Every document sits in the slot named by its id. */
  ghost predicate DenseIds(forward: seq<DocInfo>) {
    forall i :: 0 <= i < |forward| ==> forward[i].id == i
  }

  /**
   The index invariant: ids are dense, a word has a list exactly when some
   document contains it, and that list is exactly the expected one.
   */
  ghost predicate Consistent(idx: Index, lex: Lexer) {
    && DenseIds(idx.forward)
    && (forall w :: w in idx.inverted <==> Expected(idx.forward, w, lex) != [])
    && (forall w :: w in idx.inverted ==> idx.inverted[w] == Expected(idx.forward, w, lex))
  }

  lemma EmptyIndexConsistent(lex: Lexer)
    ensures Consistent(EmptyIndex, lex)
  {
  }

  /** Processing one line keeps the index consistent. */
  lemma AddLineConsistent(idx: Index, line: string, lex: Lexer)
    requires Consistent(idx, lex)
    ensures Consistent(AddLine(idx, line, lex), lex)
  {
    var r := AddLine(idx, line, lex);
    if |CutString(line, {SEP})| == 3 {
      var d := r.forward[|idx.forward|];
      assert r.forward == idx.forward + [d];
      assert d.id == |idx.forward|;
      assert r.inverted == BuildInvertedIndex(idx.inverted, d, lex);
      var wm := WordMap(d, lex);
      forall w
        ensures Expected(r.forward, w, lex) == Expected(idx.forward, w, lex) + PostingOf(d, w, lex)
      {
        assert r.forward[..|r.forward| - 1] == idx.forward;
      }
      forall w | w in r.inverted
        ensures r.inverted[w] == Expected(r.forward, w, lex)
      {
        if w in wm {
          assert r.inverted[w] == AppendOn(idx.inverted, d.id, wm, wm.Keys)[w];
          assert ListOf(idx.inverted, w) == Expected(idx.forward, w, lex);
        }
      }
    }
  }

  /** Processing any sequence of lines keeps the index consistent. */
  lemma {:induction false} BuildFromConsistent(idx: Index, lines: seq<string>, lex: Lexer)
    requires Consistent(idx, lex)
    ensures Consistent(BuildFrom(idx, lines, lex), lex)
    decreases |lines|
  {
    if |lines| > 0 {
      AddLineConsistent(idx, lines[0], lex);
      BuildFromConsistent(AddLine(idx, lines[0], lex), lines[1..], lex);
    }
  }

  /**
   Over documents with dense ids, every expected posting names an existing
   document, carries its word and a weight of at least 1, and the ids rise
   strictly along the list.
   */
  lemma {:induction false} ExpectedFacts(forward: seq<DocInfo>, w: string, lex: Lexer)
    requires DenseIds(forward)
    ensures var e := Expected(forward, w, lex);
      forall k :: 0 <= k < |e| ==> e[k].id < |forward| && e[k].word == w && e[k].weight >= 1
    ensures var e := Expected(forward, w, lex);
      forall j, k :: 0 <= j < k < |e| ==> e[j].id < e[k].id
    decreases |forward|
  {
    if |forward| > 0 {
      var n := |forward| - 1;
      ExpectedSnoc(forward, w, lex);
      var e := Expected(forward, w, lex);
      var e0 := Expected(forward[..n], w, lex);
      var p := PostingOf(forward[n], w, lex);
      ExpectedFacts(forward[..n], w, lex);
      PostingOfFacts(forward[n], w, lex);
      forall k | 0 <= k < |e|
        ensures e[k].id < |forward| && e[k].word == w && e[k].weight >= 1
        ensures k < |e0| ==> e[k].id < n
        ensures k >= |e0| ==> e[k].id == n
      {
        if k < |e0| {
          assert e[k] == e0[k];
        } else {
          assert e[k] == p[k - |e0|];
        }
      }
    }
  }

  /** A document contributes at most one posting per word: its own id, that word, and a positive weight. */
  lemma PostingOfFacts(d: DocInfo, w: string, lex: Lexer)
    ensures var p := PostingOf(d, w, lex);
      && (p == [] <==> w !in WordMap(d, lex))
      && (p != [] ==> |p| == 1 && p[0] == NewPosting(d.id, WordMap(d, lex), w))
      && (p != [] ==> p[0].id == d.id && p[0].word == w && p[0].weight >= 1)
  {
    WordMapSpec(d, lex, w);
  }

  /** The expected list over one more document is the old list followed by that document's posting. */
  lemma ExpectedSnoc(forward: seq<DocInfo>, w: string, lex: Lexer)
    requires |forward| > 0
    requires DenseIds(forward)
    ensures DenseIds(forward[..|forward| - 1])
    ensures Expected(forward, w, lex)
         == Expected(forward[..|forward| - 1], w, lex) + PostingOf(forward[|forward| - 1], w, lex)
  {
  }

  /** Any posting of document `i` in the expected list of `w` is the one `w` earns in that document. */
  lemma {:induction false} ExpectedDocSound(forward: seq<DocInfo>, w: string, lex: Lexer, i: nat)
    requires DenseIds(forward) && i < |forward|
    ensures var e := Expected(forward, w, lex);
      forall k :: 0 <= k < |e| && e[k].id == i ==>
        w in WordMap(forward[i], lex) && e[k] == NewPosting(i, WordMap(forward[i], lex), w)
    decreases |forward|
  {
    var n := |forward| - 1;
    ExpectedSnoc(forward, w, lex);
    var e := Expected(forward, w, lex);
    var e0 := Expected(forward[..n], w, lex);
    var p := PostingOf(forward[n], w, lex);
    PostingOfFacts(forward[n], w, lex);
    forall k | 0 <= k < |e0| ensures e[k] == e0[k] { }
    forall k | |e0| <= k < |e| ensures e[k] == p[k - |e0|] { }
    if i < n {
      ExpectedDocSound(forward[..n], w, lex, i);
      assert forward[..n][i] == forward[i];
      assert forward[n].id == n;
    } else {
      ExpectedFacts(forward[..n], w, lex);
    }
  }

  /** If `w` is among the words of document `i`, the expected list of `w` holds a posting of `i`. */
  lemma {:induction false} ExpectedDocComplete(forward: seq<DocInfo>, w: string, lex: Lexer, i: nat)
    requires DenseIds(forward) && i < |forward|
    requires w in WordMap(forward[i], lex)
    ensures var e := Expected(forward, w, lex);
      exists k :: 0 <= k < |e| && e[k].id == i
    decreases |forward|
  {
    var n := |forward| - 1;
    ExpectedSnoc(forward, w, lex);
    var e := Expected(forward, w, lex);
    var e0 := Expected(forward[..n], w, lex);
    var p := PostingOf(forward[n], w, lex);
    if i < n {
      assert forward[..n][i] == forward[i];
      ExpectedDocComplete(forward[..n], w, lex, i);
      var k :| 0 <= k < |e0| && e0[k].id == i;
      assert e[k] == e0[k];
    } else {
      PostingOfFacts(forward[n], w, lex);
      assert p != [] && p[0].id == i;
      assert e[|e0|] == p[0];
    }
  }

  /**
   In a consistent index every posting names an existing document, lies in
   the list of its own word, has weight at least 1, and each list rises
   strictly in document id, so no document appears twice in one list.
   */
  lemma PostingsWellFormed(idx: Index, lex: Lexer, w: string)
    requires Consistent(idx, lex)
    requires w in idx.inverted
    ensures var l := idx.inverted[w];
      forall k :: 0 <= k < |l| ==> l[k].id < |idx.forward| && l[k].word == w && l[k].weight >= 1
    ensures var l := idx.inverted[w];
      forall j, k :: 0 <= j < k < |l| ==> l[j].id < l[k].id
  {
    assert DenseIds(idx.forward);
    ExpectedFacts(idx.forward, w, lex);
    assert idx.inverted[w] == Expected(idx.forward, w, lex);
  }

  /**
   In a consistent index, document `i` appears in the list of `w` exactly
   when one of its title or content tokens lower-cases to `w`, and its
   posting there weighs ten per title occurrence plus one per content occurrence.
   */
  lemma PostingForDoc(idx: Index, lex: Lexer, w: string, i: nat)
    requires Consistent(idx, lex) && i < |idx.forward|
    ensures var d := idx.forward[i];
      Occurrences(TitleWords(d, lex), w) + Occurrences(ContentWords(d, lex), w) > 0
      <==> (w in idx.inverted && exists k :: 0 <= k < |idx.inverted[w]| && idx.inverted[w][k].id == i)
    ensures var d := idx.forward[i];
      w in idx.inverted ==>
        forall k :: 0 <= k < |idx.inverted[w]| && idx.inverted[w][k].id == i ==>
          idx.inverted[w][k].weight
          == TITLE_VALUE * Occurrences(TitleWords(d, lex), w) + CONTENT_VALUE * Occurrences(ContentWords(d, lex), w)
  {
    var d := idx.forward[i];
    assert w in idx.inverted ==> idx.inverted[w] == Expected(idx.forward, w, lex);
    ExpectedDocSound(idx.forward, w, lex, i);
    if w in WordMap(d, lex) {
      ExpectedDocComplete(idx.forward, w, lex, i);
    }
    WordMapSpec(d, lex, w);
  }
}
