/**
 The query side of `Searcher.hpp`: tokenise the query, collect the posting
 lists of its lower-cased tokens, merge the postings of each document into
 one group, rank the groups by summed weight, and render each group as a
 title, a snippet around the first matched word, and a URL. The JSON text
 the source serialises is replaced by the sequence of rendered hits.
 */
module Searcher {
  import opened Wrappers
  import opened Text
  import opened Util
  import opened Indexer

  /** The merged postings of one document: the matched words in arrival order and their summed weight. */
  datatype InvertedElemSet = InvertedElemSet(id: nat, words: seq<string>, weightSum: int)

  /** One rendered search result. */
  datatype Hit = Hit(title: string, description: string, url: string)

  /** How far the snippet reaches before and after the matched word. */
  const BEGIN_STEP: nat := 50
  const END_STEP: nat := 100

  /** The snippet of a document whose content does not contain the word. */
  const NO_DESCRIPTION: string := "None"
  const ELLIPSIS: string := "..."

  // ---------------------------------------------------------------------------
  // Looking up the query tokens

  /** The posting list of one query token after `boost::to_lower`; a word never indexed contributes nothing. */
  function TokenPostings(idx: Index, token: string): (r: InvertedList)
    ensures GetInvertedIndex(idx, Lower(token)).None? ==> r == []
    ensures GetInvertedIndex(idx, Lower(token)).Some? ==> r == idx.inverted[Lower(token)]
  {
    match GetInvertedIndex(idx, Lower(token))
    case None => []
    case Some(list) => list
  }

  /** Lookup ignores case: a token and its lower-cased form find the same postings. */
  lemma TokenPostingsIgnoresCase(idx: Index, token: string)
    ensures TokenPostings(idx, token) == TokenPostings(idx, Lower(token))
  {
    LowerIdempotent(token);
  }

  /** In a consistent index, every posting a token finds names an existing document and carries the lower-cased token. */
  lemma TokenPostingsWellFormed(idx: Index, lex: Lexer, token: string)
    requires Consistent(idx, lex)
    ensures var l := TokenPostings(idx, token);
      forall k :: 0 <= k < |l| ==> l[k].id < |idx.forward| && l[k].word == Lower(token) && l[k].weight >= 1
  {
    if Lower(token) in idx.inverted {
      PostingsWellFormed(idx, lex, Lower(token));
    }
  }

  /** All postings the query visits, token by token in query order, each list in its own order. */
  function QueryPostings(idx: Index, tokens: seq<string>): seq<InvertedElem>
    decreases |tokens|
  {
    if |tokens| == 0 then [] else TokenPostings(idx, tokens[0]) + QueryPostings(idx, tokens[1..])
  }

  /** Visiting two stretches of tokens one after the other visits their postings one after the other. */
  lemma {:induction false} QueryPostingsAppend(idx: Index, ts1: seq<string>, ts2: seq<string>)
    ensures QueryPostings(idx, ts1 + ts2) == QueryPostings(idx, ts1) + QueryPostings(idx, ts2)
    decreases |ts1|
  {
    if |ts1| > 0 {
      assert (ts1 + ts2)[1..] == ts1[1..] + ts2;
      QueryPostingsAppend(idx, ts1[1..], ts2);
    } else {
      assert ts1 + ts2 == ts2;
    }
  }

  // ---------------------------------------------------------------------------
  // Merging by document (the `tokens_map` loop)

  /** The ids of a sequence of postings. */
  function PostingIds(ps: seq<InvertedElem>): set<nat> {
    set k | 0 <= k < |ps| :: ps[k].id
  }

  /** The ids of a sequence of groups. */
  function GroupIds(groups: seq<InvertedElemSet>): set<nat> {
    set k | 0 <= k < |groups| :: groups[k].id
  }

  /** No two groups share a document. */
  predicate DistinctIds(groups: seq<InvertedElemSet>) {
    forall j, k :: 0 <= j < k < |groups| ==> groups[j].id != groups[k].id
  }

  /** The summed weight of the postings of document `id`. */
  function SumFor(ps: seq<InvertedElem>, id: nat): int
    decreases |ps|
  {
    if |ps| == 0 then 0
    else SumFor(ps[..|ps| - 1], id) + (if ps[|ps| - 1].id == id then ps[|ps| - 1].weight else 0)
  }

  /** The words of the postings of document `id`, in the order they were visited. */
  function WordsFor(ps: seq<InvertedElem>, id: nat): seq<string>
    decreases |ps|
  {
    if |ps| == 0 then []
    else WordsFor(ps[..|ps| - 1], id) + (if ps[|ps| - 1].id == id then [ps[|ps| - 1].word] else [])
  }

  /** The slot of the group of document `id`, or `|groups|` when it has none yet. */
  function GroupOf(groups: seq<InvertedElemSet>, id: nat): (k: nat)
    ensures k <= |groups|
    ensures k < |groups| ==> groups[k].id == id
    ensures forall j :: 0 <= j < k ==> groups[j].id != id
    decreases |groups|
  {
    if |groups| == 0 then 0
    else if groups[0].id == id then 0
    else 1 + GroupOf(groups[1..], id)
  }

  /** `tokens_map[id]`: the group of document `id`, or a fresh one with no words and zero weight. */
  function Entry(groups: seq<InvertedElemSet>, id: nat): (g: InvertedElemSet)
    ensures g.id == id
    ensures GroupOf(groups, id) < |groups| ==> g == groups[GroupOf(groups, id)]
    ensures GroupOf(groups, id) == |groups| ==> g.words == [] && g.weightSum == 0
  {
    var k := GroupOf(groups, id);
    if k < |groups| then groups[k] else InvertedElemSet(id, [], 0)
  }

  /** The group after one more posting: its id, its weight added, its word pushed at the back. */
  function Absorb(item: InvertedElemSet, e: InvertedElem): InvertedElemSet {
    item.(id := e.id, weightSum := item.weightSum + e.weight, words := item.words + [e.word])
  }

  /** One step of the merge loop: `tokens_map[elem.id]` absorbs the posting `e`. */
  function MergeElem(groups: seq<InvertedElemSet>, e: InvertedElem): seq<InvertedElemSet> {
    var k := GroupOf(groups, e.id);
    var item' := Absorb(Entry(groups, e.id), e);
    if k < |groups| then groups[k := item'] else groups + [item']
  }

  /** The merge loop over all visited postings, in visiting order. */
  function Merge(ps: seq<InvertedElem>): seq<InvertedElemSet>
    decreases |ps|
  {
    if |ps| == 0 then [] else MergeElem(Merge(ps[..|ps| - 1]), ps[|ps| - 1])
  }

  /** A document has a group exactly when its id is among the groups' ids. */
  lemma GroupOfIds(groups: seq<InvertedElemSet>, id: nat)
    ensures GroupOf(groups, id) < |groups| <==> id in GroupIds(groups)
  {
    if id in GroupIds(groups) {
      var j :| 0 <= j < |groups| && groups[j].id == id;
    }
  }

  /** In distinct groups, the group of a slot's id is that slot. */
  lemma GroupOfDistinct(groups: seq<InvertedElemSet>, k: nat)
    requires DistinctIds(groups) && k < |groups|
    ensures GroupOf(groups, groups[k].id) == k
  {
  }

  /** Two sequences with the same ids slot by slot agree on where each document's group is, and on the ids. */
  lemma {:induction false} SameIds(g: seq<InvertedElemSet>, r: seq<InvertedElemSet>, id: nat)
    requires |g| == |r| && forall j :: 0 <= j < |g| ==> g[j].id == r[j].id
    ensures GroupOf(r, id) == GroupOf(g, id)
    ensures GroupIds(r) == GroupIds(g)
    ensures DistinctIds(r) == DistinctIds(g)
    decreases |g|
  {
    if |g| > 0 {
      SameIds(g[1..], r[1..], id);
    }
    forall x | x in GroupIds(g) ensures x in GroupIds(r) {
      var j :| 0 <= j < |g| && g[j].id == x;
      assert r[j].id == x;
    }
  }

  /** Appending a group leaves the slots of earlier documents alone and adds its id. */
  lemma {:induction false} GroupOfAppend(g: seq<InvertedElemSet>, x: InvertedElemSet, id: nat)
    ensures GroupOf(g + [x], id)
         == if GroupOf(g, id) < |g| then GroupOf(g, id) else if x.id == id then |g| else |g| + 1
    ensures GroupIds(g + [x]) == GroupIds(g) + {x.id}
    decreases |g|
  {
    if |g| > 0 {
      assert (g + [x])[1..] == g[1..] + [x];
      GroupOfAppend(g[1..], x, id);
    }
    forall y | y in GroupIds(g + [x]) ensures y in GroupIds(g) + {x.id} {
      var j :| 0 <= j < |g| + 1 && (g + [x])[j].id == y;
      if j < |g| {
        assert g[j].id == y;
      }
    }
    forall y | y in GroupIds(g) ensures y in GroupIds(g + [x]) {
      var j :| 0 <= j < |g| && g[j].id == y;
      assert (g + [x])[j].id == y;
    }
    assert (g + [x])[|g|].id == x.id;
  }

  /**
   One merge step keeps the ids distinct, adds the posting's id, lets the
   posting's document absorb it, and leaves every other document's group
   as it was.
   */
  lemma MergeElemSpec(groups: seq<InvertedElemSet>, e: InvertedElem, id: nat)
    requires DistinctIds(groups)
    ensures var r := MergeElem(groups, e);
      && DistinctIds(r)
      && GroupIds(r) == GroupIds(groups) + {e.id}
      && Entry(r, id) == if id == e.id then Absorb(Entry(groups, id), e) else Entry(groups, id)
  {
    var r := MergeElem(groups, e);
    var k := GroupOf(groups, e.id);
    GroupOfIds(groups, e.id);
    if k < |groups| {
      SameIds(groups, r, id);
      SameIds(groups, r, e.id);
    } else {
      var item' := Absorb(InvertedElemSet(e.id, [], 0), e);
      assert r == groups + [item'];
      GroupOfAppend(groups, item', id);
      GroupOfAppend(groups, item', e.id);
      forall j, j' | 0 <= j < j' < |r| ensures r[j].id != r[j'].id {
        if j' == |groups| {
          assert groups[j].id in GroupIds(groups);
        }
      }
    }
  }

  /** The ids of postings one longer: the old ids and the last posting's. */
  lemma PostingIdsSnoc(ps: seq<InvertedElem>)
    requires |ps| > 0
    ensures PostingIds(ps) == PostingIds(ps[..|ps| - 1]) + {ps[|ps| - 1].id}
  {
    var n := |ps| - 1;
    forall x | x in PostingIds(ps) ensures x in PostingIds(ps[..n]) + {ps[n].id} {
      var k :| 0 <= k < |ps| && ps[k].id == x;
      if k < n {
        assert ps[..n][k].id == x;
      }
    }
    forall x | x in PostingIds(ps[..n]) ensures x in PostingIds(ps) {
      var k :| 0 <= k < n && ps[..n][k].id == x;
      assert ps[k].id == x;
    }
  }

  /**
   Merging yields one group per document that has a visited posting and no
   other; the group of document `id` sums the weights of exactly that
   document's postings and lists their words in visiting order.
   */
  lemma {:induction false} MergeSpec(ps: seq<InvertedElem>, id: nat)
    ensures var g := Merge(ps);
      && DistinctIds(g)
      && GroupIds(g) == PostingIds(ps)
      && Entry(g, id) == InvertedElemSet(id, WordsFor(ps, id), SumFor(ps, id))
    decreases |ps|
  {
    if |ps| > 0 {
      var n := |ps| - 1;
      var e := ps[n];
      var g0 := Merge(ps[..n]);
      assert Merge(ps) == MergeElem(g0, e);
      MergeSpec(ps[..n], id);
      MergeElemSpec(g0, e, id);
      PostingIdsSnoc(ps);
      assert SumFor(ps, id) == SumFor(ps[..n], id) + (if e.id == id then e.weight else 0);
      assert WordsFor(ps, id) == WordsFor(ps[..n], id) + (if e.id == id then [e.word] else []);
    }
  }

  /** A document with a visited posting has at least one word. */
  lemma {:induction false} PresentId(ps: seq<InvertedElem>, id: nat)
    requires id in PostingIds(ps)
    ensures |WordsFor(ps, id)| > 0
    decreases |ps|
  {
    var n := |ps| - 1;
    PostingIdsSnoc(ps);
    if ps[n].id != id {
      PresentId(ps[..n], id);
    }
  }

  /** Every merged group is the full record of its document's visited postings. */
  lemma MergeGroups(ps: seq<InvertedElem>)
    ensures var g := Merge(ps);
      && DistinctIds(g)
      && GroupIds(g) == PostingIds(ps)
      && forall k :: 0 <= k < |g| ==> GroupIsRecordOf(g[k], ps)
  {
    MergeSpec(ps, 0);
    var g := Merge(ps);
    forall k | 0 <= k < |g| ensures GroupIsRecordOf(g[k], ps) {
      MergeSpec(ps, g[k].id);
      GroupOfDistinct(g, k);
      assert g[k].id in GroupIds(g);
      PresentId(ps, g[k].id);
    }
  }

  /** Group `g` holds the summed weight and all the words of its document's postings in `ps`, and at least one word. */
  predicate GroupIsRecordOf(g: InvertedElemSet, ps: seq<InvertedElem>) {
    g.weightSum == SumFor(ps, g.id) && g.words == WordsFor(ps, g.id) && |g.words| > 0
  }

  // ---------------------------------------------------------------------------
  // Ranking (the `std::sort` by descending weight)

  /** Groups in non-increasing order of summed weight. */
  predicate SortedDesc(s: seq<InvertedElemSet>) {
    forall j, k :: 0 <= j < k < |s| ==> s[j].weightSum >= s[k].weightSum
  }

  /** Put `x` in front of the first group that weighs strictly less. */
  function Insert(x: InvertedElemSet, s: seq<InvertedElemSet>): (r: seq<InvertedElemSet>)
    ensures multiset(r) == multiset(s) + multiset{x}
    decreases |s|
  {
    if |s| == 0 then [x]
    else if s[0].weightSum < x.weightSum then [x] + s
    else
      assert s == [s[0]] + s[1..];
      [s[0]] + Insert(x, s[1..])
  }

  /** Inserting into a ranked sequence keeps it ranked. */
  lemma {:induction false} InsertSorted(x: InvertedElemSet, s: seq<InvertedElemSet>)
    requires SortedDesc(s)
    ensures SortedDesc(Insert(x, s))
    decreases |s|
  {
    if |s| > 0 && s[0].weightSum >= x.weightSum {
      var t := Insert(x, s[1..]);
      InsertSorted(x, s[1..]);
      assert s == [s[0]] + s[1..];
      forall k | 0 <= k < |t| ensures s[0].weightSum >= t[k].weightSum {
        assert t[k] in multiset(s[1..]) + multiset{x} by {
          assert t[k] in multiset(t);
        }
        if t[k] != x {
          var j :| 0 <= j < |s[1..]| && s[1..][j] == t[k];
          assert s[j + 1] == t[k];
        }
      }
    }
  }

  /** Inserting adds exactly the inserted group's id, and keeps ids distinct when that id was new. */
  lemma {:induction false} InsertIds(x: InvertedElemSet, s: seq<InvertedElemSet>)
    ensures GroupIds(Insert(x, s)) == GroupIds(s) + {x.id}
    ensures DistinctIds(s) && x.id !in GroupIds(s) ==> DistinctIds(Insert(x, s))
    decreases |s|
  {
    if |s| > 0 {
      var r := Insert(x, s);
      if s[0].weightSum < x.weightSum {
        assert r[1..] == s;
        SplitIds(r);
      } else {
        InsertIds(x, s[1..]);
        assert r[1..] == Insert(x, s[1..]);
        SplitIds(r);
        SplitIds(s);
      }
    }
  }

  /** The ids of a non-empty sequence: the head's and the tail's; distinct when the tail is and lacks the head's. */
  lemma SplitIds(s: seq<InvertedElemSet>)
    requires |s| > 0
    ensures GroupIds(s) == {s[0].id} + GroupIds(s[1..])
    ensures DistinctIds(s) <==> DistinctIds(s[1..]) && s[0].id !in GroupIds(s[1..])
  {
    forall x | x in GroupIds(s) ensures x in {s[0].id} + GroupIds(s[1..]) {
      var k :| 0 <= k < |s| && s[k].id == x;
      if k > 0 {
        assert s[1..][k - 1].id == x;
      }
    }
    forall x | x in GroupIds(s[1..]) ensures x in GroupIds(s) {
      var k :| 0 <= k < |s[1..]| && s[1..][k].id == x;
      assert s[k + 1].id == x;
    }
    if DistinctIds(s[1..]) && s[0].id !in GroupIds(s[1..]) {
      forall j, k | 0 <= j < k < |s| ensures s[j].id != s[k].id {
        if j == 0 {
          assert s[1..][k - 1].id == s[k].id;
        } else {
          assert s[1..][j - 1] == s[j] && s[1..][k - 1] == s[k];
        }
      }
    }
    if DistinctIds(s) {
      forall k | 0 <= k < |s[1..]| ensures s[1..][k].id != s[0].id {
        assert s[1..][k] == s[k + 1];
      }
    }
  }

  /**
   The ranking: a permutation of the groups in non-increasing order of
   summed weight. `std::sort` leaves the order of equal weights open; this
   insertion sort is one admissible choice.
   */
  function SortByWeight(s: seq<InvertedElemSet>): (r: seq<InvertedElemSet>)
    ensures multiset(r) == multiset(s)
    ensures SortedDesc(r)
    decreases |s|
  {
    if |s| == 0 then []
    else
      assert s == [s[0]] + s[1..];
      InsertSorted(s[0], SortByWeight(s[1..]));
      Insert(s[0], SortByWeight(s[1..]))
  }

  /** Ranking keeps the set of documents, and keeps them distinct. */
  lemma {:induction false} SortKeepsIds(s: seq<InvertedElemSet>)
    ensures GroupIds(SortByWeight(s)) == GroupIds(s)
    ensures DistinctIds(s) ==> DistinctIds(SortByWeight(s))
    decreases |s|
  {
    if |s| > 0 {
      SortKeepsIds(s[1..]);
      InsertIds(s[0], SortByWeight(s[1..]));
      SplitIds(s);
    }
  }

  // ---------------------------------------------------------------------------
  // Snippets

  /**
   The snippet window around a match at `pos` in a text of length `len`:
   it reaches back `BEGIN_STEP` characters and forward `END_STEP`
   characters from the match, clipped to the text.
   */
  function Window(len: nat, pos: nat): (w: (nat, nat))
    requires pos < len
    ensures w.0 <= pos < w.1 <= len
    ensures pos - w.0 <= BEGIN_STEP && (w.0 == 0 || pos - w.0 == BEGIN_STEP)
    ensures w.1 - pos <= END_STEP && (w.1 == len || w.1 - pos == END_STEP)
  {
    var begin := if pos > BEGIN_STEP then pos - BEGIN_STEP else 0;
    var end := if len - pos > END_STEP then pos + END_STEP else len;
    (begin, end)
  }

  /**
   `GetDescription`: `"None"` when the word does not occur in the content
   ignoring ASCII case; otherwise the window around its first occurrence
   followed by `"..."`. The source's `begin >= end` branch cannot be taken.
   */
  function GetDescription(content: string, word: string): (r: string)
    ensures r == NO_DESCRIPTION <==> SearchCI(content, word) == |content|
    ensures SearchCI(content, word) < |content| ==>
      var w := Window(|content|, SearchCI(content, word));
      r == content[w.0..w.1] + ELLIPSIS
    ensures |r| <= BEGIN_STEP + END_STEP + |ELLIPSIS|
  {
    var pos := SearchCI(content, word);
    if pos == |content| then NO_DESCRIPTION
    else
      var w := Window(|content|, pos);
      var r := content[w.0..w.1] + ELLIPSIS;
      assert r[|r| - 1] == '.';
      r
  }

  /** A found word that is at most `END_STEP` long appears, ignoring case, inside its snippet. */
  lemma DescriptionShowsMatch(content: string, word: string)
    requires SearchCI(content, word) < |content| && |word| <= END_STEP
    ensures var r := GetDescription(content, word);
      var pos := SearchCI(content, word);
      MatchAt(r, word, pos - Window(|content|, pos).0)
  {
    var pos := SearchCI(content, word);
    var w := Window(|content|, pos);
    assert pos + |word| <= w.1;
    SliceOfWindow(content, w.0, w.1, pos - w.0, |word|);
  }

  /** A stretch inside the window sits at the same place in the snippet, shifted by the window's start. */
  lemma SliceOfWindow(content: string, b: nat, e: nat, i: nat, n: nat)
    requires b <= e <= |content| && b + i + n <= e
    ensures (content[b..e] + ELLIPSIS)[i..i + n] == content[b + i..b + i + n]
  {
    var r := content[b..e] + ELLIPSIS;
    var lhs := r[i..i + n];
    var rhs := content[b + i..b + i + n];
    forall k | 0 <= k < n ensures lhs[k] == rhs[k] {
      assert r[i + k] == content[b..e][i + k];
    }
  }

  // ---------------------------------------------------------------------------
  // Rendering and the whole query

  /** The hit for document `doc`, snippeted around `word`. */
  function HitFor(doc: DocInfo, word: string): Hit {
    Hit(doc.title, GetDescription(doc.content, word), doc.url)
  }

  /** Every group has at least one word, so `words[0]` is defined. */
  predicate HasWords(groups: seq<InvertedElemSet>) {
    forall k :: 0 <= k < |groups| ==> |groups[k].words| > 0
  }

  /**
   The rendering loop. `None` stands for the null document pointer the
   source would dereference when a group names no document.
   */
  function Render(idx: Index, ranked: seq<InvertedElemSet>): (r: Option<seq<Hit>>)
    requires HasWords(ranked)
    ensures r.Some? <==> forall k :: 0 <= k < |ranked| ==> ranked[k].id < |idx.forward|
    ensures r.Some? ==> |r.value| == |ranked|
    ensures r.Some? ==> forall k :: 0 <= k < |ranked| ==>
      r.value[k] == HitFor(idx.forward[ranked[k].id], ranked[k].words[0])
    decreases |ranked|
  {
    if |ranked| == 0 then Some([])
    else
      match GetForwardIndex(idx, ranked[0].id)
      case None => None
      case Some(doc) =>
        match Render(idx, ranked[1..])
        case None => None
        case Some(hits) => Some([HitFor(doc, ranked[0].words[0])] + hits)
  }

  /** The query's tokens, merged by document and ranked. */
  function Ranked(idx: Index, lex: Lexer, query: string): (r: seq<InvertedElemSet>)
    ensures var ps := QueryPostings(idx, SplitString(lex, query, []));
      && SortedDesc(r) && DistinctIds(r) && HasWords(r)
      && GroupIds(r) == PostingIds(ps)
      && (forall k :: 0 <= k < |r| ==> GroupIsRecordOf(r[k], ps))
  {
    var ps := QueryPostings(idx, SplitString(lex, query, []));
    var g := Merge(ps);
    MergeGroups(ps);
    var r := SortByWeight(g);
    SortKeepsIds(g);
    forall k | 0 <= k < |r| ensures GroupIsRecordOf(r[k], ps) {
      assert r[k] in multiset(r);
      assert r[k] in g;
    }
    r
  }

  /**
   `Search`: tokenise the query, merge and rank the postings of its tokens,
   and render one hit per ranked group. `None` stands for a ranked group
   that names no document.
   */
  function Search(idx: Index, lex: Lexer, query: string): (r: Option<seq<Hit>>)
    ensures r.Some? ==> |r.value| == |Ranked(idx, lex, query)|
  {
    Render(idx, Ranked(idx, lex, query))
  }

  // ---------------------------------------------------------------------------
  // What a query finds in a consistent index

  /** Document `d` has a title or content token that lower-cases to `w`. */
  predicate Mentions(d: DocInfo, lex: Lexer, w: string) {
    Occurrences(TitleWords(d, lex), w) + Occurrences(ContentWords(d, lex), w) > 0
  }

  /** Some token of the query, lower-cased, is mentioned by document `d`. */
  predicate MatchesQuery(d: DocInfo, lex: Lexer, tokens: seq<string>) {
    exists j :: 0 <= j < |tokens| && Mentions(d, lex, Lower(tokens[j]))
  }

  /** The ids of two stretches of postings together. */
  lemma PostingIdsAppend(a: seq<InvertedElem>, b: seq<InvertedElem>)
    ensures PostingIds(a + b) == PostingIds(a) + PostingIds(b)
  {
    forall x | x in PostingIds(a + b) ensures x in PostingIds(a) + PostingIds(b) {
      var k :| 0 <= k < |a + b| && (a + b)[k].id == x;
      if k >= |a| {
        assert b[k - |a|].id == x;
      }
    }
    forall x | x in PostingIds(b) ensures x in PostingIds(a + b) {
      var k :| 0 <= k < |b| && b[k].id == x;
      assert (a + b)[k + |a|].id == x;
    }
    forall x | x in PostingIds(a) ensures x in PostingIds(a + b) {
      var k :| 0 <= k < |a| && a[k].id == x;
      assert (a + b)[k].id == x;
    }
  }

  /** In a consistent index, one token's postings belong exactly to the documents that mention it lower-cased. */
  lemma TokenPostingIds(idx: Index, lex: Lexer, t: string, i: nat)
    requires Consistent(idx, lex)
    ensures i in PostingIds(TokenPostings(idx, t)) <==> i < |idx.forward| && Mentions(idx.forward[i], lex, Lower(t))
  {
    var l := TokenPostings(idx, t);
    var w := Lower(t);
    TokenPostingsWellFormed(idx, lex, t);
    if i in PostingIds(l) {
      var k :| 0 <= k < |l| && l[k].id == i;
      PostingForDoc(idx, lex, w, i);
    }
    if i < |idx.forward| && Mentions(idx.forward[i], lex, w) {
      PostingForDoc(idx, lex, w, i);
      var k :| 0 <= k < |idx.inverted[w]| && idx.inverted[w][k].id == i;
      assert l[k].id == i;
    }
  }

  /** A document matches a non-empty query when it mentions the first token or matches the rest. */
  lemma MatchesQueryCons(d: DocInfo, lex: Lexer, tokens: seq<string>)
    requires |tokens| > 0
    ensures MatchesQuery(d, lex, tokens) <==> Mentions(d, lex, Lower(tokens[0])) || MatchesQuery(d, lex, tokens[1..])
  {
    if MatchesQuery(d, lex, tokens) && !Mentions(d, lex, Lower(tokens[0])) {
      var j :| 0 <= j < |tokens| && Mentions(d, lex, Lower(tokens[j]));
      assert tokens[1..][j - 1] == tokens[j];
    }
    if MatchesQuery(d, lex, tokens[1..]) {
      var j :| 0 <= j < |tokens[1..]| && Mentions(d, lex, Lower(tokens[1..][j]));
      assert tokens[j + 1] == tokens[1..][j];
    }
  }

  /**
   In a consistent index, the postings the query visits belong exactly to
   the documents that mention one of its lower-cased tokens.
   */
  lemma {:induction false} QueryPostingIds(idx: Index, lex: Lexer, tokens: seq<string>, i: nat)
    requires Consistent(idx, lex)
    ensures i in PostingIds(QueryPostings(idx, tokens)) <==>
      i < |idx.forward| && MatchesQuery(idx.forward[i], lex, tokens)
    decreases |tokens|
  {
    if |tokens| > 0 {
      QueryPostingIds(idx, lex, tokens[1..], i);
      TokenPostingIds(idx, lex, tokens[0], i);
      PostingIdsAppend(TokenPostings(idx, tokens[0]), QueryPostings(idx, tokens[1..]));
      if i < |idx.forward| {
        MatchesQueryCons(idx.forward[i], lex, tokens);
      }
    }
  }

  /**
   Against a consistent index a query always renders, one hit per document
   that mentions one of its lower-cased tokens, each document once, in
   non-increasing order of summed weight.
   */
  lemma SearchFindsMatchingDocs(idx: Index, lex: Lexer, query: string)
    requires Consistent(idx, lex)
    ensures var ranked := Ranked(idx, lex, query);
      && Search(idx, lex, query).Some?
      && (forall k :: 0 <= k < |ranked| ==>
            Search(idx, lex, query).value[k] == HitFor(idx.forward[ranked[k].id], ranked[k].words[0]))
      && (forall i: nat :: i in GroupIds(ranked) <==>
            i < |idx.forward| && MatchesQuery(idx.forward[i], lex, SplitString(lex, query, [])))
  {
    var tokens := SplitString(lex, query, []);
    var ranked := Ranked(idx, lex, query);
    forall i: nat ensures i in GroupIds(ranked) <==> i < |idx.forward| && MatchesQuery(idx.forward[i], lex, tokens) {
      QueryPostingIds(idx, lex, tokens, i);
    }
    forall k | 0 <= k < |ranked| ensures ranked[k].id < |idx.forward| {
      assert ranked[k].id in GroupIds(ranked);
      QueryPostingIds(idx, lex, tokens, ranked[k].id);
    }
  }

  // ---------------------------------------------------------------------------
  // Weights

  /** The weight of a document over two stretches of postings is the sum of its weights over each. */
  lemma {:induction false} SumForAppend(a: seq<InvertedElem>, b: seq<InvertedElem>, id: nat)
    ensures SumFor(a + b, id) == SumFor(a, id) + SumFor(b, id)
    decreases |b|
  {
    if |b| == 0 {
      assert a + b == a;
    } else {
      var n := |b| - 1;
      assert (a + b)[..|a + b| - 1] == a + b[..n];
      SumForAppend(a, b[..n], id);
    }
  }

  /**
   A token repeated in the query counts again: every document's summed
   weight for `[t, t]` is twice its weight for `[t]`. Duplicate query tokens
   are not collapsed.
   */
  lemma RepeatedTokenCountsTwice(idx: Index, t: string, id: nat)
    ensures SumFor(QueryPostings(idx, [t, t]), id) == 2 * SumFor(QueryPostings(idx, [t]), id)
  {
    QueryPostingsAppend(idx, [t], [t]);
    assert [t] + [t] == [t, t];
    SumForAppend(QueryPostings(idx, [t]), QueryPostings(idx, [t]), id);
  }
}
