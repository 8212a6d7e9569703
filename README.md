# BioMatch in Dafny

A model of the `BioMatch` class of `biomatch/biomatch.py`, which scrapes the
biography pages linked from a staff directory and ranks the biographies by
their similarity to a query. The model covers the sequence and string work
the class does around its libraries:

- collecting the bio links: the `href` targets of the directory's anchors
  that start with the slug (module `Links`, method `BioMatch.BioMatch.BioLinks`);
- the tag probe: for h1 to h6 and p, a preview of the first element's text,
  cut to 40 characters plus `...`, which fails at the first preview that is
  not ASCII (module `Probe`, method `TagTest`);
- extracting a bio record (name, lower-cased paragraphs, tokens without
  stopwords) and inserting it into the corpus map, and the scraping loop over
  all links (module `Bios`, method `ScrapeBios`);
- normalising the query, building the document list, ranking the bios by
  score and choosing the top ten and their padding width (module `Ranker`,
  method `CosineSimilarity`).

Supporting modules: `Wrappers` (Option, Result), `Text` (Python's `strip`,
`lower`, `split` and `join` on one character, `startswith`) and `Html` (a
parsed page as the sequence of its elements in document order, with
`find_all`, `get_text()` and `get_text(strip=True)`).

Fetching a URL and parsing the page are a function `web: string -> Page`
given to the methods. The stopword list is a `set<string>` given to the
constructor. The TF-IDF scores are a sequence of integers given to
`CosineSimilarity`, one per bio in corpus order. The data file is given to
the constructor as the corpus it holds, if it exists.

The source is Python 2 (`raw_input`, the `print_function` import), so
`filter` returns a list and `self.links[0]` indexes it. The model keeps these
behaviours of the code, which a reader might not expect:

- words are split on the single space character `" "`, not on any whitespace,
  so runs of spaces give empty words;
- a page with no `bio_tag` element is not stored (line 92), but it must still
  have a `name_tag` element (line 89 comes first);
- a page without a `name_tag` element raises `IndexError`, which ends the
  whole scrape rather than skipping that page; records inserted before it
  stay in `self.bios`, and the data file is not written;
- `get_text(strip=True)` strips each text fragment of an element on its own
  and runs them together; the whole text is not trimmed as one string;
- `argsort()[::-1]` gives no particular order among equal scores, so only
  non-increasing order is stated;
- the probe line of line 68 formats the unicode preview into a byte-string
  template without encoding it, which Python 2 does by converting it to
  ASCII: a preview with any other character raises `UnicodeEncodeError` and
  ends the probe (and the constructor that runs it).

## Model

| member | source | states |
|---|---|---|
| Links.BioLinkFilter | biomatch/biomatch.py:47-49 | every kept link starts with the slug, and there are no more links than anchors |
| Links.BioLinkFilterSound | biomatch/biomatch.py:47-49 | each link is the href of an anchor that has one starting with the slug, read at strictly increasing anchor positions |
| Links.BioLinkFilterComplete | biomatch/biomatch.py:47-49 | every anchor position whose href is present and starts with the slug is among the positions the links are read from |
| Links.BioLinkFilterExact | biomatch/biomatch.py:47-49 | the links are exactly the present hrefs starting with the slug, in anchor order: read at strictly increasing positions, and every such href is kept |
| Links.BioLinkFilterMembership | biomatch/biomatch.py:47-49 | a string is a link if and only if some anchor has it as its href and it starts with the slug |
| Html.Hrefs | biomatch/biomatch.py:47 | one entry per anchor, in document order: the anchor's `href`, or none when it has no such attribute |
| Html.FindAllFirst | biomatch/biomatch.py:89 | `find_all` is empty exactly when no element has the tag; otherwise its first entry is the first element in the page with the tag |
| Probe.Preview | biomatch/biomatch.py:64-67 | a text of at most 40 characters is shown whole; a longer one becomes its first 40 characters and `...`, 43 characters in all |
| Probe.ProbeAll | biomatch/biomatch.py:59-68 | the probes of the tags in their order, at most one per tag; `ProbeAllSound`, `ProbeAllComplete` and `ProbeAllPrefix` state what they are |
| Probe.ProbeAllPrefix | biomatch/biomatch.py:59-68 | the probes of the first i tags are a prefix of the probes of all tags, so the loop only ever appends |
| Probe.FirstUnprintable | biomatch/biomatch.py:68 | the position of the first probe whose preview has a non-ASCII character, where formatting the probe line fails; none exactly when every preview is ASCII |
| Probe.StopsAtUnprintable | biomatch/biomatch.py:59-68 | when the probes so far are all ASCII and the next one is not, the whole probe fails at that next probe, which shows the tag being probed |
| Probe.ProbeAllSound | biomatch/biomatch.py:59-68 | the probes follow the order h1..h6, p; each belongs to a tag that occurs and shows the preview of the first element with that tag |
| Probe.ProbeAllComplete | biomatch/biomatch.py:59-62 | every probed tag that occurs on the page gets a probe |
| Probe.ProbeAllEmpty | biomatch/biomatch.py:59-62 | there are no probes if and only if none of the tags occurs |
| BioMatch.BioMatch.TagTest | biomatch/biomatch.py:52-68 | an empty link list is an error; otherwise the result is the probe list of the first link's page when every preview is ASCII, and the error naming the tag of the first non-ASCII preview when one is not |
| Text.Split | biomatch/biomatch.py:94 | `split(" ")` gives at least one piece and no piece holds the separator |
| Bios.Paragraphs | biomatch/biomatch.py:91 | paragraph k is the lower-cased stripped text of the k-th `bio_tag` element, one per element; each is lower-cased and has no whitespace at either end |
| Bios.RemoveStopwords | biomatch/biomatch.py:95 | no stopword is left, every other word keeps its number of occurrences, and every kept word comes from the input |
| Bios.Words | biomatch/biomatch.py:94 | every paragraph split on single spaces, the pieces run together in paragraph order |
| Bios.Tokens | biomatch/biomatch.py:94-95 | the words of all paragraphs without the stopwords; `TokensAreByParagraph` and `RemoveStopwords` state what they are |
| Bios.TokensAreByParagraph | biomatch/biomatch.py:94-95 | the tokens are the concatenation, in paragraph order, of each paragraph's split words without stopwords, and none is a stopword |
| Bios.RemoveNoStopwords | biomatch/biomatch.py:95 | words without stopwords pass unchanged |
| Bios.ExtractBio | biomatch/biomatch.py:87-95 | extraction fails exactly when the page has no `name_tag` element; otherwise the name is the first such element's text, there is one paragraph per `bio_tag` element and no token is a stopword |
| Bios.ExtractBioNoParagraphs | biomatch/biomatch.py:91-95 | a page with a name but no `bio_tag` element gives empty paragraphs and empty tokens |
| Bios.Insert | biomatch/biomatch.py:96 | the URL is bound to the record, no other key changes, a new key goes last in the order and the order keeps listing each key once |
| Bios.ScrapePage | biomatch/biomatch.py:87-96 | one loop pass keeps the corpus well formed and changes the order at most by appending the URL |
| Bios.ScrapePageMissingName | biomatch/biomatch.py:89 | the pass fails if and only if the page has no `name_tag` element |
| Bios.ScrapePageNoParagraphs | biomatch/biomatch.py:91-92 | a page with a name and no `bio_tag` element leaves the corpus unchanged |
| Bios.ScrapePageStores | biomatch/biomatch.py:92-96 | a page with a name and a `bio_tag` element binds its URL to `{name, bio, data}` and changes no other key |
| Bios.ScrapeAll | biomatch/biomatch.py:80-96 | the loop keeps the corpus well formed and the order of the keys already present; what else it leaves is stated by the lemmas below |
| Bios.ScrapeAllFailure | biomatch/biomatch.py:80-89 | the scrape completes if and only if every linked page has a `name_tag` element; when it stops, it stops at a link whose page has none |
| Bios.ScrapeAllStopsAtFirst | biomatch/biomatch.py:80-89 | a scrape that stops, stops at the first link whose page has no `name_tag` element, and leaves exactly the corpus the links before it produce |
| Bios.ScrapeAllRecords | biomatch/biomatch.py:80-96 | after a complete scrape every link whose page has a `bio_tag` element holds the record extracted from its page, and every other key keeps its old record |
| Bios.ScrapeAllKeys | biomatch/biomatch.py:80-96 | after a complete scrape the keys are the old keys plus the links whose page has a `bio_tag` element |
| Bios.ProgressFragment | biomatch/biomatch.py:82 | the two path pieces before the URL's last slash, joined by a slash; a URL without a slash shows nothing (the lemmas below give each case) |
| Bios.ProgressFragmentOfPath | biomatch/biomatch.py:82 | for a URL `p/a/b/t` the progress text is `a/b` |
| Bios.ProgressFragmentTwoSlashes | biomatch/biomatch.py:82 | for a URL `a/b/t` the progress text is `a/b` |
| Bios.ProgressFragmentShort | biomatch/biomatch.py:82 | for `a/t` the progress text is `a`, and for a URL without a slash it is empty |
| Ranker.NormalizeQuery | biomatch/biomatch.py:113-114 | the normalised query is lower-cased |
| Ranker.NormalizeQueryWords | biomatch/biomatch.py:113-114 | split on spaces, the normalised query is exactly the non-stopword words of the lower-cased text in order, the tokens a paragraph of that text would give; it is empty when none survives |
| Ranker.NormalizeQueryNoStopwords | biomatch/biomatch.py:113-114 | split on spaces, the normalised query holds no stopword |
| Ranker.NormalizeQueryIdempotent | biomatch/biomatch.py:113-114 | normalising a normalised query changes nothing |
| Ranker.Names | biomatch/biomatch.py:116 | one name per bio, in corpus order |
| Ranker.Documents | biomatch/biomatch.py:118-119 | n + 1 documents: each bio's tokens joined by spaces in corpus order, then the query |
| Ranker.Ranking | biomatch/biomatch.py:124 | the ranking is a rearrangement of 0..n-1 with non-increasing scores |
| Ranker.RankingIsPermutation | biomatch/biomatch.py:124 | the ranking has n distinct entries below n, so every corpus index occurs once |
| Ranker.MaxNameLength | biomatch/biomatch.py:126 | the width is at least every listed name's length and equals one of them |
| Ranker.Similarity | biomatch/biomatch.py:113-127 | the query fails if and only if the corpus is empty |
| Ranker.SimilarityListing | biomatch/biomatch.py:113-127 | for n > 0 bios: n names and n + 1 documents in corpus order with the query last, a permutation ranking by non-increasing score, the first min(10, n) of it listed, padded to the longest listed name |
| BioMatch.BioMatch.constructor | biomatch/biomatch.py:14-38 | a stored corpus is taken whole and its keys become the links; otherwise the corpus is empty and the links are collected from the directory |
| BioMatch.BioMatch.BioLinks | biomatch/biomatch.py:41-49 | the links become the directory's filtered anchor targets |
| BioMatch.BioMatch.ScrapeBios | biomatch/biomatch.py:71-96 | the corpus afterwards, and the link that stopped the loop if any, are those of the scraping loop over the links, and the corpus stays well formed |
| BioMatch.BioMatch.CosineSimilarity | biomatch/biomatch.py:102-133 | the result is the query's listing over the current corpus, and an error exactly when the corpus is empty |

## Left out

- Fetching pages with `requests.get` and parsing them with BeautifulSoup (lines 46, 57, 87): a page is a flat sequence of elements in document order, given by the function `web`; network errors are not modelled. Because `web` is a function, the model assumes a URL gives the same page on every fetch: a link listed twice is fetched twice by the source, and the last fetch's record wins, which `ScrapeAllRecords` states only for the page `web` gives; `TagTest` and `ScrapeBios` likewise see the same page for `links[0]`.
- Loading and saving the JSON data file (lines 30-34, 98-99): the constructor receives the stored corpus when the file exists; the write after a complete scrape is not modelled.
- The NLTK English stopword list (lines 8, 95, 114): a set of strings given to the constructor. `NormalizeQueryNoStopwords` assumes the empty string is not a stopword, as holds for that list.
- Unicode case mapping and whitespace: `lower` and `strip` are modelled on ASCII only. The text BeautifulSoup returns is unicode, whose `strip` also removes `\x1c`-`\x1f`, `\x85`, `\xa0` and the Unicode space separators; the model keeps those characters.
- TF-IDF vectorisation and `linear_kernel` (lines 121-122): the scores are integers given to `CosineSimilarity`; their floating-point values and the fitting over the document list are not modelled. The vectoriser's own failure is not modelled either: it raises "empty vocabulary" on a non-empty corpus when no document holds a token of two or more word characters (say one bio whose only paragraph is empty, and a query of stopwords), where `Similarity` and `CosineSimilarity` return `Ok`.
- The order of equal scores in `argsort()[::-1]` (line 124): only non-increasing order is stated.
- Iteration order of the bio map: the model lists bios in insertion order; the source's interpreter keeps `names` and the documents in the same order, which is all the pipeline relies on.
- Console output, `ljust`/`rjust` padding, `.encode("utf-8")`, `sys.stdout.flush` and the `__main__` driver (lines 31, 44, 55, 68, 78, 83-85, 111, 128-131, 136-148); the progress text of line 82 is modelled as a function but not shown, and of line 68 only the failure to format a non-ASCII preview is modelled. The probes printed before that failure are not returned.
- Links.BioLinkFilter: keeps every present href that starts with the slug. Under Python 2 the source first keeps only hrefs of type `str`, and BeautifulSoup returns attribute values as `unicode` (all of them with `html.parser`, the non-ASCII ones with `lxml`), so the source can drop hrefs the model keeps; the model does not distinguish the two string types.
- BioMatch.BioMatch.constructor: does not run the tag probe; `TagTest` is a separate call, so the source's failures of the constructor on an empty link list and on a non-ASCII preview are the `NoLinks` and `Unprintable` errors of `TagTest`.
