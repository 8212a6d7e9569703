/**
 * The `BioMatch` object: the scraped corpus it keeps in place, the bio
 * links it collects from the staff directory, and its four operations.
 * Fetching a URL and parsing the HTML are the function `web`, which gives
 * the parsed page of a URL.
 */
module BioMatch {
  import opened Wrappers
  import opened Html
  import opened Links
  import opened Probe
  import opened Bios
  import opened Ranker

  /**
   * Why the tag probe fails: `links[0]` on an empty link list, or a preview
   * with a non-ASCII character, which Python 2 cannot format into the
   * byte-string template of the probe line (the tag is the one probed).
   */
  datatype ProbeError = NoLinks | Unprintable(tag: string)

  class BioMatch {
    const directory: string
    const slug: string
    /** The stopword list, given once instead of read from a linguistic corpus. */
    const stopwords: set<string>
    /** `self.bios`, a map from URL to record ... */
    var bios: map<string, Bio>
    /** ... and the order in which its keys were inserted. */
    var order: seq<string>
    /** `self.links` */
    var links: seq<string>

    function Snapshot(): Corpus
      reads this
    {
      Corpus(order, bios)
    }

    ghost predicate Valid()
      reads this
    {
      WellFormed(Snapshot())
    }

    /**
     * `stored` is what loading the data file gives when it exists: the
     * corpus is taken from it and its keys become the links. Otherwise the
     * corpus starts empty and the links are collected from the directory.
     */
    constructor (directory: string, slug: string, stored: Option<Corpus>, web: string -> Page, stopwords: set<string>)
      requires stored.Some? ==> WellFormed(stored.value)
      ensures Valid()
      ensures this.directory == directory && this.slug == slug && this.stopwords == stopwords
      ensures stored.Some? ==> Snapshot() == stored.value && links == stored.value.order
      ensures stored.None? ==> Snapshot() == NoBios && links == BioLinkFilter(Hrefs(web(directory)), slug)
    {
      this.directory := directory;
      this.slug := slug;
      this.stopwords := stopwords;
      bios := if stored.Some? then stored.value.bios else map[];
      order := if stored.Some? then stored.value.order else [];
      links := if stored.Some? then stored.value.order else [];
      new;
      if stored.None? {
        BioLinks(web);
      }
    }

    /** `_bio_links`: the directory's anchor targets that start with the slug. */
    method BioLinks(web: string -> Page)
      modifies this`links
      ensures links == BioLinkFilter(Hrefs(web(directory)), slug)
    {
      links := BioLinkFilter(Hrefs(web(directory)), slug);
    }

    /**
     * `_tag_test`: the probes of h1 to h6 and p on the first link's page,
     * returned instead of printed; an error when there is no link, and at
     * the first preview that is not ASCII.
     */
    method TagTest(web: string -> Page) returns (r: Result<seq<Probe>, ProbeError>)
      ensures |links| == 0 ==> r == Err(NoLinks)
      ensures |links| > 0 ==> var probes := ProbeAll(web(links[0]), ProbeTags);
        && (FirstUnprintable(probes).None? ==> r == Ok(probes))
        && (FirstUnprintable(probes).Some? ==> r == Err(Unprintable(probes[FirstUnprintable(probes).value].tag)))
    {
      if |links| == 0 {
        return Err(NoLinks);
      }
      var page := web(links[0]);
      var tags := ProbeTags;
      var probes: seq<Probe> := [];
      for t := 0 to |tags|
        invariant probes == ProbeAll(page, tags[..t])
        invariant FirstUnprintable(probes) == None
      {
        var tag := tags[t];
        var found := FindAll(page, tag);
        ProbeAllStep(page, tags, t);
        if |found| > 0 {
          var text := GetText(found[0]);
          if |text| > PreviewLimit {
            text := text[..PreviewLimit] + Ellipsis;
          }
          assert text == Preview(GetText(found[0]));
          if !IsAscii(text) {
            StopsAtUnprintable(page, tags, t, probes, Probe(tag, text));
            return Err(Unprintable(tag));
          }
          PrintableAppend(probes, Probe(tag, text));
          probes := probes + [Probe(tag, text)];
        }
      }
      assert tags[..|tags|] == tags;
      r := Ok(probes);
    }

    /**
     * `scrape_bios`: every link's page in turn; a page with paragraphs is
     * recorded under its URL. A page without a name element stops the loop
     * (the source raises there) and its URL is returned; the records made
     * before it stay in the map. The tags default to `h2` and `p`, as in
     * the source.
     */
    method ScrapeBios(web: string -> Page, nameTag: string := "h2", bioTag: string := "p") returns (failedAt: Option<string>)
      requires Valid()
      modifies this`bios, this`order
      ensures Valid()
      ensures var run := ScrapeAll(old(Snapshot()), links, web, nameTag, bioTag, stopwords);
        Snapshot() == run.corpus && failedAt == run.failedAt
    {
      for ix := 0 to |links|
        invariant Valid()
        invariant ScrapeAll(Snapshot(), links[ix..], web, nameTag, bioTag, stopwords)
               == ScrapeAll(old(Snapshot()), links, web, nameTag, bioTag, stopwords)
      {
        var url := links[ix];
        var page := web(url);
        ghost var step := ScrapePage(Snapshot(), url, page, nameTag, bioTag, stopwords);
        assert links[ix..][0] == url && links[ix..][1..] == links[ix + 1..];
        ScrapeAllStep(Snapshot(), links[ix..], web, nameTag, bioTag, stopwords);
        var names := FindAll(page, nameTag);
        if |names| == 0 {
          return Some(url);
        }
        ScrapePageNamed(Snapshot(), url, page, nameTag, bioTag, stopwords);
        var name := GetText(names[0]);
        var paragraphs := Paragraphs(page, bioTag);
        if |paragraphs| > 0 {
          var data := Tokens(paragraphs, stopwords);
          if url !in bios {
            order := order + [url];
          }
          bios := bios[url := Bio(name, paragraphs, data)];
        }
        assert Snapshot() == step.value;
      }
      return None;
    }

    /**
     * `cosine_similarity`: the query against the corpus, given the score of
     * each bio; an error for an empty corpus.
     */
    method CosineSimilarity(text: string, scores: seq<int>) returns (r: Result<Listing, QueryError>)
      requires Valid() && |scores| == |order|
      ensures r == Similarity(Snapshot(), text, stopwords, scores)
      ensures r.Err? <==> |order| == 0
    {
      r := Similarity(Snapshot(), text, stopwords, scores);
    }
  }
}
