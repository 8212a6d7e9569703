/**
 * The bio extractor and the corpus it fills (`BioMatch.scrape_bios`): a
 * record per bio page holding the page's name, its lower-cased paragraphs and
 * their words without stopwords, kept in a map from URL to record whose keys
 * remember the order in which they were first inserted.
 */
module Bios {
  import opened Wrappers
  import opened Text
  import opened Html

  /** The stored record `{"name": ..., "bio": ..., "data": ...}`. */
  datatype Bio = Bio(name: string, bio: seq<string>, data: seq<string>)

  /** `[t.get_text(strip=True).lower() for t in soup.find_all(bio_tag)]` */
  function Paragraphs(page: Page, bioTag: string): (r: seq<string>)
    ensures |r| == |FindAll(page, bioTag)|
    ensures forall k :: 0 <= k < |r| ==> r[k] == Lower(GetStrippedText(FindAll(page, bioTag)[k]))
    ensures forall k :: 0 <= k < |r| ==> IsLowered(r[k]) && IsTrimmed(r[k])
  {
    var found := FindAll(page, bioTag);
    forall k | 0 <= k < |found| ensures IsTrimmed(Lower(GetStrippedText(found[k]))) {
      LowerTrimmed(GetStrippedText(found[k]));
    }
    seq(|found|, k requires 0 <= k < |found| => Lower(GetStrippedText(found[k])))
  }

  /** Every paragraph split on single spaces, the pieces run together in order. */
  function Words(paragraphs: seq<string>): seq<string> {
    if |paragraphs| == 0 then [] else Split(paragraphs[0], ' ') + Words(paragraphs[1..])
  }

  /** `[w for w in words if w not in stop]`: the order is kept and so are repeated words. */
  function RemoveStopwords(words: seq<string>, stop: set<string>): (r: seq<string>)
    ensures |r| <= |words|
    ensures forall k :: 0 <= k < |r| ==> r[k] !in stop && r[k] in words
    ensures forall w :: w !in stop ==> multiset(r)[w] == multiset(words)[w]
    ensures forall w :: w in stop ==> multiset(r)[w] == 0
  {
    if |words| == 0 then []
    else
      var rest := RemoveStopwords(words[1..], stop);
      assert words == [words[0]] + words[1..];
      if words[0] in stop then rest else [words[0]] + rest
  }

  /** Words none of which is a stopword all survive. */
  lemma {:induction false} RemoveNoStopwords(words: seq<string>, stop: set<string>)
    requires forall k :: 0 <= k < |words| ==> words[k] !in stop
    ensures RemoveStopwords(words, stop) == words
    decreases |words|
  {
    if |words| > 0 {
      var rest := words[1..];
      assert forall k :: 0 <= k < |rest| ==> rest[k] == words[k + 1];
      RemoveNoStopwords(rest, stop);
      assert words[0] !in stop;
      assert words == [words[0]] + rest;
    }
  }

  /** The token list `data` of a record. */
  function Tokens(paragraphs: seq<string>, stop: set<string>): seq<string> {
    RemoveStopwords(Words(paragraphs), stop)
  }

  /** Removing stopwords from two runs of words one after the other. */
  lemma {:induction false} RemoveStopwordsAppend(a: seq<string>, b: seq<string>, stop: set<string>)
    ensures RemoveStopwords(a + b, stop) == RemoveStopwords(a, stop) + RemoveStopwords(b, stop)
    decreases |a|
  {
    if |a| > 0 {
      assert (a + b)[0] == a[0] && (a + b)[1..] == a[1..] + b;
      RemoveStopwordsAppend(a[1..], b, stop);
    } else {
      assert a + b == b;
    }
  }

  /** The tokens of each paragraph taken on its own, one paragraph after the other. */
  function TokensByParagraph(paragraphs: seq<string>, stop: set<string>): seq<string> {
    if |paragraphs| == 0 then []
    else RemoveStopwords(Split(paragraphs[0], ' '), stop) + TokensByParagraph(paragraphs[1..], stop)
  }

  /**
   * The token list is the concatenation, in paragraph order, of each
   * paragraph's words without stopwords, and it holds no stopword.
   */
  lemma {:induction false} TokensAreByParagraph(paragraphs: seq<string>, stop: set<string>)
    ensures Tokens(paragraphs, stop) == TokensByParagraph(paragraphs, stop)
    ensures forall k :: 0 <= k < |Tokens(paragraphs, stop)| ==> Tokens(paragraphs, stop)[k] !in stop
    decreases |paragraphs|
  {
    if |paragraphs| > 0 {
      TokensAreByParagraph(paragraphs[1..], stop);
      RemoveStopwordsAppend(Split(paragraphs[0], ' '), Words(paragraphs[1..]), stop);
    }
  }

  /**
   * The record of a page, or None when the page has no `name_tag` element
   * (the source indexes `[0]` into an empty list there). The name is the
   * text of the first `name_tag` element.
   */
  function ExtractBio(page: Page, nameTag: string, bioTag: string, stop: set<string>): (r: Option<Bio>)
    ensures r.None? <==> |FindAll(page, nameTag)| == 0
    ensures r.Some? ==> r.value.name == GetText(FindAll(page, nameTag)[0])
    ensures r.Some? ==> |r.value.bio| == |FindAll(page, bioTag)|
    ensures r.Some? ==> forall k :: 0 <= k < |r.value.data| ==> r.value.data[k] !in stop
  {
    var names := FindAll(page, nameTag);
    if |names| == 0 then None
    else
      var paragraphs := Paragraphs(page, bioTag);
      Some(Bio(GetText(names[0]), paragraphs, Tokens(paragraphs, stop)))
  }

  /** A page without any `bio_tag` element yields a record with no paragraphs and no tokens. */
  lemma ExtractBioNoParagraphs(page: Page, nameTag: string, bioTag: string, stop: set<string>)
    requires |FindAll(page, nameTag)| > 0
    requires |FindAll(page, bioTag)| == 0
    ensures ExtractBio(page, nameTag, bioTag, stop).Some?
    ensures ExtractBio(page, nameTag, bioTag, stop).value.bio == []
    ensures ExtractBio(page, nameTag, bioTag, stop).value.data == []
  {
  }

  /**
   * The scraped bios: the map `bios` together with the order in which its
   * keys were first inserted. The names and the documents of a query are
   * both listed in this one order.
   */
  datatype Corpus = Corpus(order: seq<string>, bios: map<string, Bio>)

  /** The order lists every key of the map exactly once. */
  ghost predicate WellFormed(c: Corpus) {
    && (forall i, j :: 0 <= i < j < |c.order| ==> c.order[i] != c.order[j])
    && (forall u :: u in c.bios <==> u in c.order)
  }

  const NoBios: Corpus := Corpus([], map[])

  /**
   * `bios[url] = b`: the key is bound to the record and no other key changes;
   * a new key goes to the end of the order, an existing one keeps its place.
   */
  function Insert(c: Corpus, url: string, b: Bio): (r: Corpus)
    requires WellFormed(c)
    ensures WellFormed(r)
    ensures url in r.bios && r.bios[url] == b
    ensures forall u :: u != url ==> (u in r.bios <==> u in c.bios)
    ensures forall u :: u != url && u in c.bios ==> r.bios[u] == c.bios[u]
    ensures r.order == if url in c.bios then c.order else c.order + [url]
  {
    Corpus(if url in c.bios then c.order else c.order + [url], c.bios[url := b])
  }

  /**
   * One pass of the scraping loop on the page at `url`: None when the page
   * has no name element; otherwise the corpus with the page's record
   * inserted when it has at least one paragraph, and unchanged when it has none.
   */
  function ScrapePage(c: Corpus, url: string, page: Page, nameTag: string, bioTag: string, stop: set<string>): (r: Option<Corpus>)
    requires WellFormed(c)
    ensures r.Some? ==> WellFormed(r.value)
    ensures r.Some? ==> r.value.order == c.order || r.value.order == c.order + [url]
  {
    match ExtractBio(page, nameTag, bioTag, stop)
    case None => None
    case Some(b) => Some(if |b.bio| > 0 then Insert(c, url, b) else c)
  }

  /** A pass over a page with a name element, spelled out record by record. */
  lemma ScrapePageNamed(c: Corpus, url: string, page: Page, nameTag: string, bioTag: string, stop: set<string>)
    requires WellFormed(c) && |FindAll(page, nameTag)| > 0
    ensures var paragraphs := Paragraphs(page, bioTag);
      var b := Bio(GetText(FindAll(page, nameTag)[0]), paragraphs, Tokens(paragraphs, stop));
      ScrapePage(c, url, page, nameTag, bioTag, stop) == Some(if |paragraphs| > 0 then Insert(c, url, b) else c)
  {
  }

  /** A page without a name element stops the scrape. */
  lemma ScrapePageMissingName(c: Corpus, url: string, page: Page, nameTag: string, bioTag: string, stop: set<string>)
    requires WellFormed(c)
    ensures ScrapePage(c, url, page, nameTag, bioTag, stop).None? <==> |FindAll(page, nameTag)| == 0
  {
  }

  /** A page with a name but no `bio_tag` element leaves the corpus as it was. */
  lemma ScrapePageNoParagraphs(c: Corpus, url: string, page: Page, nameTag: string, bioTag: string, stop: set<string>)
    requires WellFormed(c)
    requires |FindAll(page, nameTag)| > 0 && |FindAll(page, bioTag)| == 0
    ensures ScrapePage(c, url, page, nameTag, bioTag, stop) == Some(c)
  {
  }

  /**
   * A page with a name and at least one `bio_tag` element binds its URL to
   * `{name, bio, data}` and changes no other key.
   */
  lemma ScrapePageStores(c: Corpus, url: string, page: Page, nameTag: string, bioTag: string, stop: set<string>)
    requires WellFormed(c)
    requires |FindAll(page, nameTag)| > 0 && |FindAll(page, bioTag)| > 0
    ensures var r := ScrapePage(c, url, page, nameTag, bioTag, stop);
      && r.Some?
      && url in r.value.bios
      && r.value.bios[url].name == GetText(FindAll(page, nameTag)[0])
      && r.value.bios[url].bio == Paragraphs(page, bioTag)
      && r.value.bios[url].data == Tokens(Paragraphs(page, bioTag), stop)
      && (forall u :: u != url ==> (u in r.value.bios <==> u in c.bios))
      && (forall u :: u != url && u in c.bios ==> r.value.bios[u] == c.bios[u])
  {
  }

  /**
   * Where the scraping loop stopped: the corpus it left behind (the source
   * mutates the map in place, so records inserted before a failure stay) and
   * the URL whose page had no name element, if any.
   */
  datatype ScrapeRun = ScrapeRun(corpus: Corpus, failedAt: Option<string>)

  /** The scraping loop over `links`, each page fetched by `web`. */
  function ScrapeAll(c: Corpus, links: seq<string>, web: string -> Page, nameTag: string, bioTag: string,
                     stop: set<string>): (r: ScrapeRun)
    requires WellFormed(c)
    ensures WellFormed(r.corpus)
    ensures |c.order| <= |r.corpus.order| && r.corpus.order[..|c.order|] == c.order
    decreases |links|
  {
    if |links| == 0 then ScrapeRun(c, None)
    else
      match ScrapePage(c, links[0], web(links[0]), nameTag, bioTag, stop)
      case None => ScrapeRun(c, Some(links[0]))
      case Some(next) =>
        var r := ScrapeAll(next, links[1..], web, nameTag, bioTag, stop);
        assert next.order[..|c.order|] == c.order;
        r
  }

  /** The loop's first pass, then the rest of the links. */
  lemma ScrapeAllStep(c: Corpus, links: seq<string>, web: string -> Page, nameTag: string, bioTag: string,
                      stop: set<string>)
    requires WellFormed(c) && |links| > 0
    ensures var step := ScrapePage(c, links[0], web(links[0]), nameTag, bioTag, stop);
      && (step.None? ==> ScrapeAll(c, links, web, nameTag, bioTag, stop) == ScrapeRun(c, Some(links[0])))
      && (step.Some? ==> ScrapeAll(c, links, web, nameTag, bioTag, stop) == ScrapeAll(step.value, links[1..], web, nameTag, bioTag, stop))
  {
  }

  /**
   * The scrape completes exactly when every linked page has a name element;
   * when it stops, it stops at a link whose page has none.
   */
  lemma {:induction false} ScrapeAllFailure(c: Corpus, links: seq<string>, web: string -> Page, nameTag: string,
                                            bioTag: string, stop: set<string>)
    requires WellFormed(c)
    ensures var r := ScrapeAll(c, links, web, nameTag, bioTag, stop);
      && (r.failedAt.None? <==> forall i :: 0 <= i < |links| ==> |FindAll(web(links[i]), nameTag)| > 0)
      && (r.failedAt.Some? ==> r.failedAt.value in links && |FindAll(web(r.failedAt.value), nameTag)| == 0)
    decreases |links|
  {
    if |links| > 0 {
      match ScrapePage(c, links[0], web(links[0]), nameTag, bioTag, stop)
      case None =>
      case Some(next) =>
        ScrapeAllFailure(next, links[1..], web, nameTag, bioTag, stop);
        assert forall i :: 1 <= i < |links| ==> links[i] == links[1..][i - 1];
    }
  }

  /**
   * After a complete scrape the corpus holds the keys it held before and
   * every link whose page has at least one `bio_tag` element, and nothing else.
   */
  lemma {:induction false} ScrapeAllKeys(c: Corpus, links: seq<string>, web: string -> Page, nameTag: string,
                                         bioTag: string, stop: set<string>)
    requires WellFormed(c)
    requires ScrapeAll(c, links, web, nameTag, bioTag, stop).failedAt.None?
    ensures forall u :: u in ScrapeAll(c, links, web, nameTag, bioTag, stop).corpus.bios <==>
      u in c.bios || (u in links && |FindAll(web(u), bioTag)| > 0)
    decreases |links|
  {
    if |links| > 0 {
      match ScrapePage(c, links[0], web(links[0]), nameTag, bioTag, stop)
      case None =>
      case Some(next) =>
        ScrapeAllKeys(next, links[1..], web, nameTag, bioTag, stop);
        assert forall u :: u in links <==> u == links[0] || u in links[1..];
    }
  }

  /**
   * The scrape stops at `links[i]`: its page is the first one with no name
   * element, and the corpus left is the one the links before it produce.
   */
  ghost predicate StopsAt(c: Corpus, links: seq<string>, i: int, web: string -> Page, nameTag: string,
                          bioTag: string, stop: set<string>)
    requires WellFormed(c)
  {
    var r := ScrapeAll(c, links, web, nameTag, bioTag, stop);
    && 0 <= i < |links| && r.failedAt == Some(links[i])
    && |FindAll(web(links[i]), nameTag)| == 0
    && (forall j :: 0 <= j < i ==> |FindAll(web(links[j]), nameTag)| > 0)
    && r.corpus == ScrapeAll(c, links[..i], web, nameTag, bioTag, stop).corpus
  }

  /** A scrape that stops, stops at the first link whose page has no name element. */
  lemma {:induction false} ScrapeAllStopsAtFirst(c: Corpus, links: seq<string>, web: string -> Page, nameTag: string,
                                                 bioTag: string, stop: set<string>)
    requires WellFormed(c)
    requires ScrapeAll(c, links, web, nameTag, bioTag, stop).failedAt.Some?
    ensures exists i :: StopsAt(c, links, i, web, nameTag, bioTag, stop)
    decreases |links|
  {
    var step := ScrapePage(c, links[0], web(links[0]), nameTag, bioTag, stop);
    ScrapeAllStep(c, links, web, nameTag, bioTag, stop);
    ScrapePageMissingName(c, links[0], web(links[0]), nameTag, bioTag, stop);
    if step.None? {
      assert links[..0] == [];
      assert StopsAt(c, links, 0, web, nameTag, bioTag, stop);
    } else {
      var i' := ScrapeAllStopsAtFirstTail(c, step.value, links, web, nameTag, bioTag, stop);
      assert StopsAt(c, links, i' + 1, web, nameTag, bioTag, stop);
    }
  }

  /** The step of `ScrapeAllStopsAtFirst` past a first page that has a name. */
  lemma {:induction false} ScrapeAllStopsAtFirstTail(c: Corpus, next: Corpus, links: seq<string>, web: string -> Page,
                                                     nameTag: string, bioTag: string, stop: set<string>)
    returns (i': int)
    requires WellFormed(c) && |links| > 0
    requires ScrapePage(c, links[0], web(links[0]), nameTag, bioTag, stop) == Some(next)
    requires ScrapeAll(c, links, web, nameTag, bioTag, stop).failedAt.Some?
    ensures StopsAt(c, links, i' + 1, web, nameTag, bioTag, stop)
    decreases |links|, 0
  {
    var tail := links[1..];
    ScrapeAllStopsAtFirst(next, tail, web, nameTag, bioTag, stop);
    i' :| StopsAt(next, tail, i', web, nameTag, bioTag, stop);
    var i := i' + 1;
    var r := ScrapeAll(c, links, web, nameTag, bioTag, stop);
    assert r == ScrapeAll(next, tail, web, nameTag, bioTag, stop) by {
      ScrapeAllStep(c, links, web, nameTag, bioTag, stop);
    }
    assert links[i] == tail[i'];
    assert r.corpus == ScrapeAll(c, links[..i], web, nameTag, bioTag, stop).corpus by {
      assert links[..i][0] == links[0] && links[..i][1..] == tail[..i'];
      ScrapeAllStep(c, links[..i], web, nameTag, bioTag, stop);
    }
    forall j | 0 <= j < i ensures |FindAll(web(links[j]), nameTag)| > 0 {
      if j == 0 {
        ScrapePageMissingName(c, links[0], web(links[0]), nameTag, bioTag, stop);
      } else {
        assert links[j] == tail[j - 1];
      }
    }
  }

  /**
   * After a complete scrape, every link whose page has a `bio_tag` element
   * holds the record extracted from its page, and every other key keeps the
   * record it had.
   */
  lemma {:induction false} ScrapeAllRecords(c: Corpus, links: seq<string>, web: string -> Page, nameTag: string,
                                            bioTag: string, stop: set<string>)
    requires WellFormed(c)
    requires ScrapeAll(c, links, web, nameTag, bioTag, stop).failedAt.None?
    ensures var r := ScrapeAll(c, links, web, nameTag, bioTag, stop).corpus;
      && (forall u :: u in links && |FindAll(web(u), bioTag)| > 0 ==>
            ExtractBio(web(u), nameTag, bioTag, stop).Some? && u in r.bios
            && r.bios[u] == ExtractBio(web(u), nameTag, bioTag, stop).value)
      && (forall u :: u in c.bios && !(u in links && |FindAll(web(u), bioTag)| > 0) ==>
            u in r.bios && r.bios[u] == c.bios[u])
    decreases |links|
  {
    if |links| > 0 {
      match ScrapePage(c, links[0], web(links[0]), nameTag, bioTag, stop)
      case None =>
      case Some(next) =>
        var tail := links[1..];
        ScrapeAllRecords(next, tail, web, nameTag, bioTag, stop);
        var r := ScrapeAll(c, links, web, nameTag, bioTag, stop).corpus;
        assert r == ScrapeAll(next, tail, web, nameTag, bioTag, stop).corpus;
        assert forall u :: u in links <==> u == links[0] || u in tail;
        var first := links[0];
        if |FindAll(web(first), bioTag)| > 0 {
          ScrapePageStores(c, first, web(first), nameTag, bioTag, stop);
        } else {
          ScrapePageNoParagraphs(c, first, web(first), nameTag, bioTag, stop);
        }
    }
  }

  /**
   * `"/".join(url.split("/")[-3:-1])`: the progress display shows the two
   * path pieces before the URL's last slash (fewer when there are fewer).
   */
  function ProgressFragment(url: string): (r: string)
    ensures '/' !in url ==> r == ""
  {
    var parts := Split(url, '/');
    var n := |parts|;
    assert '/' !in url ==> n == 1 by {
      if '/' !in url {
        SplitWithoutSep(url, '/');
      }
    }
    Join(parts[if n >= 3 then n - 3 else 0 .. n - 1], '/')
  }

  /** For `.../a/b/t` the fragment is `a/b`. */
  lemma ProgressFragmentOfPath(p: string, a: string, b: string, t: string)
    requires '/' !in a && '/' !in b && '/' !in t
    ensures ProgressFragment(p + "/" + a + "/" + b + "/" + t) == a + "/" + b
  {
    var url := p + "/" + a + "/" + b + "/" + t;
    assert url == p + ['/'] + (a + ['/'] + (b + ['/'] + t));
    SplitAround(p, a + ['/'] + (b + ['/'] + t), '/');
    SplitAround(a, b + ['/'] + t, '/');
    SplitAround(b, t, '/');
    SplitWithoutSep(a, '/');
    SplitWithoutSep(b, '/');
    SplitWithoutSep(t, '/');
    var parts := Split(url, '/');
    assert parts == Split(p, '/') + [a, b, t];
    assert parts[|parts| - 3 .. |parts| - 1] == [a, b];
    assert [a, b][1..] == [b];
    assert Join([a, b], '/') == a + ['/'] + b;
  }

  /** For `a/b/t` the fragment is `a/b`. */
  lemma ProgressFragmentTwoSlashes(a: string, b: string, t: string)
    requires '/' !in a && '/' !in b && '/' !in t
    ensures ProgressFragment(a + "/" + b + "/" + t) == a + "/" + b
  {
    var url := a + "/" + b + "/" + t;
    assert url == a + ['/'] + (b + ['/'] + t);
    SplitAround(a, b + ['/'] + t, '/');
    SplitAround(b, t, '/');
    SplitWithoutSep(a, '/');
    SplitWithoutSep(b, '/');
    SplitWithoutSep(t, '/');
    var parts := Split(url, '/');
    assert parts == [a, b, t];
    assert parts[0 .. 2] == [a, b];
    assert [a, b][1..] == [b];
    assert Join([a, b], '/') == a + ['/'] + b;
  }

  /** For `a/t` the fragment is `a`; a URL without a slash shows nothing. */
  lemma ProgressFragmentShort(a: string, t: string)
    requires '/' !in a && '/' !in t
    ensures ProgressFragment(a + "/" + t) == a
    ensures ProgressFragment(a) == ""
  {
    assert a + "/" + t == a + ['/'] + t;
    SplitAround(a, t, '/');
    SplitWithoutSep(a, '/');
    SplitWithoutSep(t, '/');
    assert Split(a + "/" + t, '/') == [a, t];
  }
}
