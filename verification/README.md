# boost_searcher in Dafny

This project models the core of boost_searcher, a small search engine over
the Boost HTML documentation. It has three stages:

- **The extractor** (`parser.cpp`) reads every page. It takes the text
  between `<title>` and `</title>` as the title. It strips the tags with a
  two-state machine to get the content. It rewrites the local path
  `./data/input/...` into the public Boost URL. Each page becomes one corpus
  line: `title 0x03 content 0x03 url \n`.
- **The indexer** (`Index.hpp`) reads the corpus line by line. It cuts each
  line into fields with `boost::split`, where runs of separators collapse.
  Every line that yields exactly three fields becomes a document, with its
  slot in the forward index as its id. Title and content are segmented and
  stop words are removed. Each token is lower-cased and counted. Every
  distinct word then gets one posting with weight `10 * title count +
  content count`, appended to that word's list in the inverted index.
- **The searcher** (`Searcher.hpp`) segments the query and lower-cases each
  token. It collects the posting lists in query order and merges the
  postings of each document into one group, summing the weights and keeping
  the words. It sorts the groups by descending summed weight. Each group is
  rendered as the title, a snippet of up to 50 characters before and 100
  after the first case-insensitive match of the group's first word, and the
  URL.

## Modules

- `Wrappers` (`wrappers.dfy`): `Option`, which stands for the source's null
  pointers.
- `Text` (`text.dfy`):
  - ASCII lower-casing, i.e. `std::tolower` and `boost::to_lower` in the "C"
    locale;
  - the case-insensitive `std::search`;
  - the separator byte 0x03.
- `Util` (`util.dfy`):
  - `CutString`, i.e. `boost::split` with `token_compress_on`;
  - the stop-word filter of `JiebaUtil::SplitString`, both as a function and
    as the erase loop.
- `Parser` (`parser.dfy`):
  - `std::string::find` and `substr` with `npos` and the `out_of_range`
    throw;
  - `ParseTitle` as written, and a corrected version;
  - `ParseContent`'s state machine;
  - `ParseUrl`;
  - the record format of `SaveHtml`.
- `Indexer` (`index.dfy`):
  - the forward and inverted index and the per-document word counts;
  - `BuildForwardIndex`, `BuildInvertedIndex` and the `BuildIndex` loop;
  - the index invariant `Consistent`: every list is exactly the postings the
    documents earn, in document order.
- `Searcher` (`searcher.dfy`):
  - lookup, merge by document, ranking, snippets and rendering;
  - what a query finds in a consistent index.
- `Corpus` (`corpus.dfy`):
  - `std::getline` and `Util::ReadFile`;
  - the round trip from the saved corpus back into the index.

The singleton index, its mutex and all file I/O are replaced by values. An
`Index` value is passed in and returned. A file is passed as its text, or as
`Option` text when it might fail to open. The word segmenter `CutForSearch`
is foreign code. It is a function field of the `Lexer` value, next to the
loaded stop-word set.

Three behaviours of the code are worth spelling out, because a reader might
expect otherwise:

- Duplicate query tokens are not collapsed. Each occurrence visits the
  posting list again, so `Searcher.RepeatedTokenCountsTwice` holds.
- Ties in summed weight are not broken by ascending document id. The
  source's order is whatever the hash map and `std::sort` produce.
  `Searcher.SortByWeight` proves only a descending permutation; its tie order
  is one admissible choice.
- The snippet is anchored at the group's first word. That is the word of the
  first visited posting of that document, not the highest-weighted term.

## Model

| member | source | states |
|---|---|---|
| Text.LowerChar | Searcher.hpp:116-118 | `std::tolower` in the "C" locale: only the 26 ASCII capitals change, by +32; the result is never a capital |
| Text.Lower | Index.hpp:165 | `boost::to_lower` keeps the length and lower-cases every character |
| Text.LowerIdempotent | Searcher.hpp:55 | lower-casing an already lower-cased token changes nothing |
| Text.SearchCI | Searcher.hpp:116-118 | case-insensitive `std::search`: the first match position, with no match before it, or the end when there is none |
| Util.CutString | Util.hpp:40-44 | `boost::split` with `token_compress_on`: at least one field, no field holds a separator, only the first or last field can be empty |
| Util.CutJoin | Util.hpp:40-44 | cutting undoes joining for separator-free fields whose interior fields are non-empty |
| Util.JoinCut | Util.hpp:40-44 | joining with one separator undoes cutting when no two separators are adjacent |
| Util.EmptyMiddleFieldCollapses | Util.hpp:42 | an empty middle field disappears, so such a line gives two fields, not three |
| Util.CutAfterField | Util.hpp:42 | a separator-free field, one separator and a tail not starting with a separator cut into that field and the tail's fields |
| Util.RemoveStopWords | Util.hpp:90-101 | the filtered tokens are no more than the input and include no stop word |
| Util.RemoveStopWordsKeepsOthers | Util.hpp:90-101 | every token that is not a stop word survives as often as it occurred |
| Util.RemoveStopWordsKeepsOrder | Util.hpp:90-101 | the survivors keep their relative order |
| Util.EraseStopWords | Util.hpp:90-101 | the in-place erase loop computes exactly the filtered sequence |
| Util.SplitString | Util.hpp:79-86 | with no stop words loaded the output is left as it was |
| Util.SplitStringSpec | Util.hpp:87-101 | with stop words loaded: no stop word, every other segmenter token kept as often as it occurred, in order |
| Parser.Find | parser.cpp:96-99 | `std::string::find`: the first occurrence, or `npos` when there is none |
| Parser.Substr | parser.cpp:106 | `substr` throws `out_of_range` exactly when the start is past the end; otherwise it returns the piece of the string at that start, `count` characters long or up to the end if that comes first |
| Parser.ParseTitle | parser.cpp:94-109 | as written: a rejection leaves the document alone; a kept title is a piece of the page; with both tags present, the title is the text between them, and an empty or reversed window is rejected |
| Parser.ParseTitleWithoutTags | parser.cpp:96-106 | with neither tag on the page, `begin` wraps to 6 and `end` is `npos`: a page of 6 or more characters is kept with its text from offset 6 as the title, and a shorter page throws |
| Parser.ParseTitleWithoutOpenTag | parser.cpp:96-97 | without `<title>`, `npos + 7` wraps to 6, so seven or more `<`-free characters before `</title>` become a title from offset 6; the corrected parser rejects the same page |
| Parser.NoOpenTagBeforeClose | parser.cpp:96 | `<title>` is not found in `<`-free text followed by `</title>` |
| Parser.CloseTagAfterText | parser.cpp:99 | in `<`-free text followed by `</title>`, the first `</title>` sits right after the text |
| Parser.ParseTitleShortPageThrows | parser.cpp:101-106 | every page shorter than 6 characters, such as `<p>`, makes `substr` throw |
| Parser.ParseTitleWithoutCloseTag | parser.cpp:96-106 | with `<title>` but no `</title>`, `end` is `npos`, so the whole rest of the page after the open tag becomes the title; the corrected parser rejects the page |
| Parser.ParseTitleChecked | parser.cpp:94-109 | corrected: never throws; succeeds exactly when both tags are found in order with text between them; the title is non-empty and the page contains `<title>` + title + `</title>` |
| Parser.ParseTitleCheckedAgrees | parser.cpp:94-109 | when both tags are present, the corrected and the written title parser agree |
| Parser.StripTags | parser.cpp:110-142 | the state machine emits at most the page's length and never a `<` or a newline |
| Parser.StripInsideTag | parser.cpp:121-123 | inside a tag, a stretch without `>` emits nothing |
| Parser.StripInText | parser.cpp:124-133 | in text, a stretch without `<` is emitted with newlines as spaces |
| Parser.StripSegments | parser.cpp:110-142 | the page up to the first `>` is dropped, and so is every `<`...`>` span; the text between is kept |
| Parser.StripNoTagEnd | parser.cpp:117-123 | a page with no `>` contributes no content |
| Parser.ParseContent | parser.cpp:110-142 | the loop always succeeds, changes only the content, and appends exactly what the state machine emits |
| Parser.ParseUrl | parser.cpp:143-150 | throws exactly when the path is shorter than `./data/input/`; otherwise the URL is the public head plus the rest of the path |
| Parser.ParseUrlReplacesPrefix | parser.cpp:143-150 | a page under `./data/input/` is published under the URL head at the same relative path |
| Parser.ParseDocument | parser.cpp:152-185 | one page of `ParseHtml` as written: it throws exactly when the title parser throws, or when a title was found and the path is shorter than `./data/input/`; it is skipped exactly when the title parser rejects it; a kept page has that title, the stripped content and the rewritten URL |
| Parser.ParseDocumentChecked | parser.cpp:152-185 | one page of `ParseHtml` with the corrected title parser: the title never throws; the page is kept exactly when a title was found, with that non-empty title, the stripped content and the rewritten URL |
| Parser.ParseDocumentCheckedAgrees | parser.cpp:152-185 | on a page holding both tags, the extractor as written and the corrected one keep the same document |
| Parser.ParseDocumentWithoutCloseTag | parser.cpp:152-185 | a page with `<title>` but no `</title>` is kept by the extractor as written, titled with the rest of the page, and skipped by the corrected one |
| Indexer.GetForwardIndex | Index.hpp:64-74 | no document exactly when the id is out of range; otherwise the document in that slot |
| Indexer.GetInvertedIndex | Index.hpp:75-86 | no list exactly when the word was never indexed; otherwise its list |
| Indexer.CountWordsSpec | Index.hpp:163-176 | the counting loop `Indexer.CountWords` adds exactly the occurrences of each lower-cased word and creates no other entry |
| Indexer.WordMapSpec | Index.hpp:158-176 | in a document's `word_map` (`Indexer.WordMap`) a word is present exactly when one of its title or content tokens lower-cases to it; the weight is 10 per title and 1 per content occurrence, at least 1 |
| Indexer.AppendOn | Index.hpp:180-190 | every word of the map gets its posting appended to its own list; other lists are untouched |
| Indexer.PushBackAnyOrder | Index.hpp:180-190 | the `push_back` loop `Indexer.PushBackAll` gives the same inverted index whatever order the hash map hands out its words in |
| Indexer.AppendOnStep | Index.hpp:189 | appending for one word and then for the rest is appending for all of them |
| Indexer.BuildForwardIndex | Index.hpp:125-155 | a line that does not cut into three fields is rejected and changes nothing; otherwise the document gets the next id and fields 0, 1 and 2 |
| Indexer.BuildInvertedIndex | Index.hpp:156-193 | every word of the document gets exactly one posting at the end of its list, with the document's id, that word, and the weight `10 * title count + content count`; no other list changes |
| Indexer.AddLine | Index.hpp:99-115 | a rejected line leaves the index alone; the forward index grows by the accepted record |
| Indexer.BuildIndex | Index.hpp:87-123 | fails and changes nothing exactly when the corpus cannot be opened; otherwise the forward index gains the accepted records with dense ids, and consistency is kept |
| Indexer.BuildFromForward | Index.hpp:99-120 | the `getline` loop `Indexer.BuildFrom` leaves no gap for rejected lines: the forward index gains one document per accepted line, numbered on from its size |
| Indexer.EmptyIndexConsistent | Index.hpp:40-41 | the empty index is consistent |
| Indexer.AddLineConsistent | Index.hpp:99-115 | processing one line keeps the index consistent |
| Indexer.BuildFromConsistent | Index.hpp:99-120 | the `getline` loop `Indexer.BuildFrom` keeps the index consistent over any sequence of lines |
| Indexer.ExpectedFacts | Index.hpp:180-190 | every expected posting names an existing document, carries its word and a weight of at least 1, and ids rise strictly along a list |
| Indexer.PostingOfFacts | Index.hpp:180-190 | a document contributes at most one posting per word: its own id, that word, a positive weight |
| Indexer.ExpectedSnoc | Index.hpp:152-154 | the expected list over one more document is the old list followed by that document's posting |
| Indexer.ExpectedDocSound | Index.hpp:183-189 | any posting of document `i` in a word's list is the one the word earns in that document |
| Indexer.ExpectedDocComplete | Index.hpp:180-190 | a word of document `i` has a posting of `i` in its list |
| Indexer.PostingsWellFormed | Index.hpp:180-190 | in a consistent index, postings name existing documents, sit in their own word's list, weigh at least 1, and no document appears twice in a list |
| Indexer.PostingForDoc | Index.hpp:158-190 | in a consistent index, document `i` is in the list of `w` exactly when a token of it lower-cases to `w`, weighing 10 per title and 1 per content occurrence |
| Searcher.TokenPostings | Searcher.hpp:55-61 | a token whose lower-cased form was never indexed contributes nothing; otherwise that word's list |
| Searcher.TokenPostingsIgnoresCase | Searcher.hpp:55-57 | a token and its lower-cased form find the same postings |
| Searcher.TokenPostingsWellFormed | Searcher.hpp:57-69 | in a consistent index, every posting a token finds names an existing document and carries the lower-cased token |
| Searcher.QueryPostingsAppend | Searcher.hpp:53-71 | `Searcher.QueryPostings`, the postings the query loop visits, are those of two stretches of tokens one after the other |
| Searcher.GroupOf | Searcher.hpp:66 | the slot of a document's group is its first one, or none |
| Searcher.Entry | Searcher.hpp:66 | `tokens_map[id]` is the group already recorded for the id, or else a fresh group for that id with no words and zero weight |
| Searcher.GroupOfIds | Searcher.hpp:66 | a document has a group exactly when its id is among the groups' ids |
| Searcher.MergeElemSpec | Searcher.hpp:64-70 | one merge step `Searcher.MergeElem` keeps ids distinct, adds the posting's id, lets that document's group absorb it, and leaves the others alone |
| Searcher.MergeSpec | Searcher.hpp:51-77 | the merge loop `Searcher.Merge` gives one group per document with a visited posting and no other; each group sums its document's weights and lists its words in visiting order |
| Searcher.MergeGroups | Searcher.hpp:51-77 | every merged group holds the full weight and words of its document, and at least one word |
| Searcher.PresentId | Searcher.hpp:69 | a document with a visited posting has at least one word |
| Searcher.Insert | Searcher.hpp:80-84 | inserting adds exactly the inserted group |
| Searcher.InsertSorted | Searcher.hpp:80-84 | inserting into a ranked sequence keeps it ranked |
| Searcher.InsertIds | Searcher.hpp:80-84 | inserting adds exactly the group's id, keeping ids distinct when it was new |
| Searcher.SortByWeight | Searcher.hpp:80-84 | the ranking is a permutation of the groups in non-increasing summed weight |
| Searcher.SortKeepsIds | Searcher.hpp:80-84 | ranking keeps the set of documents and keeps them distinct |
| Searcher.Window | Searcher.hpp:112-131 | the snippet reaches 50 characters back and 100 forward from the match, clipped to the content |
| Searcher.GetDescription | Searcher.hpp:109-139 | `"None"` exactly when the word does not occur ignoring case; otherwise the window plus `"..."`, at most 153 characters; the `begin >= end` branch is unreachable |
| Searcher.DescriptionShowsMatch | Searcher.hpp:109-139 | a found word of at most 100 characters appears, ignoring case, inside its snippet |
| Searcher.Render | Searcher.hpp:88-101 | renders exactly when every group names a document; one hit per group (`Searcher.HitFor`), with that document's title and URL and the snippet around the group's first word |
| Searcher.Ranked | Searcher.hpp:42-84 | the ranked groups are sorted, have distinct ids and words, cover exactly the visited documents, and each sums its document's weights |
| Searcher.Search | Searcher.hpp:40-107 | a rendered result has one hit per ranked group |
| Searcher.TokenPostingIds | Searcher.hpp:57-69 | in a consistent index, one token's postings belong exactly to the documents that mention it lower-cased |
| Searcher.QueryPostingIds | Searcher.hpp:53-71 | in a consistent index, the visited postings belong exactly to the documents that mention a lower-cased query token |
| Searcher.SearchFindsMatchingDocs | Searcher.hpp:40-107 | against a consistent index a query always renders, each document that mentions a query token exactly once, with its own title and URL |
| Searcher.SumForAppend | Searcher.hpp:67 | a document's weight over two stretches of postings is the sum of its weights over each |
| Searcher.RepeatedTokenCountsTwice | Searcher.hpp:53-71 | a repeated query token counts twice towards every document's weight |
| Corpus.Lines | Index.hpp:99 | `getline` yields newline-free lines, and none at all from an empty file |
| Corpus.LinesCons | Index.hpp:99 | a newline-free line followed by a newline is read back as that line, then the rest |
| Corpus.FormatRecordIsJoin | parser.cpp:200-209 | a record of `Parser.FormatRecord` is title, content and URL joined by 0x03, then a newline |
| Corpus.RecordRoundTrip | parser.cpp:200-209 | cutting the record of a page with separator-free fields and non-empty content gives back title, content and URL |
| Corpus.LinesOfSaveHtml | parser.cpp:187-216 | reading what `Parser.SaveHtml` writes line by line yields exactly the records of clean pages, in order |
| Corpus.AcceptedRecordsOfClean | Index.hpp:125-155 | every record of a clean page is accepted with its own fields |
| Corpus.SavedCorpusIndexes | Index.hpp:87-123 | indexing a corpus saved from clean pages succeeds, gives page `k` id `k` with its own fields, and leaves a consistent index |
| Corpus.EmptyContentIsSkipped | Index.hpp:130-142 | a page saved with empty content cuts into two fields and is skipped by the indexer |
| Corpus.ReadFile | Util.hpp:17-37 | `ReadFile` drops every newline of the page |
| Corpus.ReadFileJoinsLines | Util.hpp:28-32 | neighbouring lines are glued together with nothing between them |
| Corpus.ExtractedFieldsHaveNoNewline | parser.cpp:152-185 | a page read with `ReadFile` and kept by the extractor, as written or corrected, has a newline-free title and content |

## Left out

- File I/O is not modelled: opening, reading and writing files, `EnumFile` and its directory walk, and `LoadStopWords`. Files are passed in as text. A file that fails to open is `None` in `BuildIndex`. Every other open failure has no counterpart.
- `main` of the extractor and the `ParseHtml` loop over the file list are not modelled as such. `Parser.ParseDocument` models one iteration as written. An `OutOfRange` result stands for the uncaught exception that ends the whole run.
- The HTTP server (`http_server.cpp`) and the console query loop (`debug.cpp`) are not modelled. They are transport only: they read a query from the request's `words` parameter or from standard input and call `Search`. The server also answers a request without `words` with a fixed message and serves static files.
- The singleton `GetInstance`, its mutex and all concurrency are left out. The index is an explicit value.
- Logging (`Log.hpp`) is not modelled. It has no effect on results.
- The JSON serialisation of `Search` is left out. `Search` returns the sequence of hits that would be serialised, in order.
- `Searcher.GetDescription`: each `char` stands for one byte of a `std::string`. The 50 and 100 steps and the 153 bound are byte counts. Multi-byte UTF-8 is not decoded, so the model does not show the source cutting a character in half at a window edge.
- `jieba.CutForSearch` is foreign code. It is an arbitrary function inside `Lexer`.
- The `default` branch of `ParseContent`'s switch is left out, because it is unreachable.
- Integer widths are not modelled:
  - `Indexer.WordMapSpec`: the `int` counts and weights are unbounded. The source's `int` would overflow only beyond about 2^31 occurrences of one word.
  - `Searcher.GetDescription`: the match position is an unbounded integer. The source stores it in an `int`, which matters only for content longer than 2^31.
- `Searcher.SortByWeight`: states a descending permutation, which is all `std::sort` promises. The order of equal weights comes from the hash map and the unstable sort and is not pinned down.
- `Searcher.Search`: its own contract only ties the hits to the ranked groups. What a query finds is stated by `Searcher.SearchFindsMatchingDocs` for consistent indexes.
- The iteration order of `tokens_map` is one fixed choice: first touch. It is invisible after the sort, up to ties.
- `BuildInvertedIndex` always returns true, and `CutString` always returns true. Their flags are not modelled.
- `ParseContent` turns `'\n'` into a space, but the page text comes from `ReadFile`, which has already dropped every newline (`Corpus.ReadFile`). That branch never fires in the pipeline. It is modelled anyway.

## Findings

| source | as written | input that shows it | evidently intended | confidence | as-written member | corrected member |
|---|---|---|---|---|---|---|
| parser.cpp:96-97 | `begin = find("<title>") + 7` is computed without checking for `npos`, so a missing `<title>` wraps `begin` to 6 | the page `abcdefx</title>` gets the title `x` | a page without `<title>` is rejected | not executed | Parser.ParseTitleWithoutOpenTag | Parser.ParseTitleChecked |
| parser.cpp:101-106 | with neither tag, `begin` is 6 and `end` is `npos`, so `substr(6, …)` throws `out_of_range` on a page shorter than 6 characters, and nothing catches it | the page `<p>` | the page is rejected and extraction continues | not executed | Parser.ParseTitleShortPageThrows | Parser.ParseTitleChecked |
| parser.cpp:99-106 | `end = find("</title>")` is not checked for `npos`, so on a page with `<title>` and no `</title>` the call `substr(begin, npos - begin)` takes everything after the open tag as the title | the page `<title>abc<p>body` gets the title `abc<p>body` | a page without a closing title tag is rejected | not executed | Parser.ParseTitleWithoutCloseTag | Parser.ParseTitleChecked |
