/**
 * The link extractor (`BioMatch._bio_links`): of the `href` values of a
 * directory page's anchors, keep those that are strings starting with the
 * bio slug, in document order.
 */
module Links {
  import opened Wrappers
  import opened Text

  /** An href survives the two filters: it is present and starts with the slug. */
  predicate Kept(href: Option<string>, slug: string) {
    href.Some? && StartsWith(href.value, slug)
  }

  /** The filtered link list. */
  function BioLinkFilter(hrefs: seq<Option<string>>, slug: string): (r: seq<string>)
    ensures |r| <= |hrefs|
    ensures forall k :: 0 <= k < |r| ==> StartsWith(r[k], slug)
  {
    if |hrefs| == 0 then []
    else
      var last := hrefs[|hrefs| - 1];
      BioLinkFilter(hrefs[..|hrefs| - 1], slug) + (if Kept(last, slug) then [last.value] else [])
  }

  /** The positions, in increasing order, of the hrefs that survive the filter. */
  function KeptIndices(hrefs: seq<Option<string>>, slug: string): (r: seq<nat>)
  {
    if |hrefs| == 0 then []
    else
      var n := |hrefs| - 1;
      KeptIndices(hrefs[..n], slug) + (if Kept(hrefs[n], slug) then [n] else [])
  }

  /**
   * The filtered list is read off the hrefs at strictly increasing
   * positions, each of which holds a kept href.
   */
  lemma {:induction false} BioLinkFilterSound(hrefs: seq<Option<string>>, slug: string)
    ensures var r, idx := BioLinkFilter(hrefs, slug), KeptIndices(hrefs, slug);
      && |idx| == |r|
      && (forall k :: 0 <= k < |idx| ==> idx[k] < |hrefs| && Kept(hrefs[idx[k]], slug) && r[k] == hrefs[idx[k]].value)
      && (forall j, k :: 0 <= j < k < |idx| ==> idx[j] < idx[k])
    decreases |hrefs|
  {
    if |hrefs| > 0 {
      var n := |hrefs| - 1;
      var front := hrefs[..n];
      BioLinkFilterSound(front, slug);
      var r0, idx0 := BioLinkFilter(front, slug), KeptIndices(front, slug);
      var r, idx := BioLinkFilter(hrefs, slug), KeptIndices(hrefs, slug);
      assert r == r0 + (if Kept(hrefs[n], slug) then [hrefs[n].value] else []);
      assert idx == idx0 + (if Kept(hrefs[n], slug) then [n] else []);
      forall k | 0 <= k < |idx0|
        ensures idx[k] < |hrefs| && Kept(hrefs[idx[k]], slug) && r[k] == hrefs[idx[k]].value
      {
        assert idx[k] == idx0[k] && r[k] == r0[k];
        assert hrefs[idx0[k]] == front[idx0[k]];
      }
    }
  }

  /** Every kept href's position is among the positions read. */
  lemma {:induction false} BioLinkFilterComplete(hrefs: seq<Option<string>>, slug: string)
    ensures forall i :: 0 <= i < |hrefs| && Kept(hrefs[i], slug) ==> i in KeptIndices(hrefs, slug)
    decreases |hrefs|
  {
    if |hrefs| > 0 {
      var n := |hrefs| - 1;
      var front := hrefs[..n];
      BioLinkFilterComplete(front, slug);
      var idx0 := KeptIndices(front, slug);
      var idx := KeptIndices(hrefs, slug);
      assert idx == idx0 + (if Kept(hrefs[n], slug) then [n] else []);
      forall i | 0 <= i < |hrefs| && Kept(hrefs[i], slug) ensures i in idx {
        if i < n {
          assert front[i] == hrefs[i];
          assert i in idx0;
        }
      }
    }
  }

  /**
   * The filtered list is exactly the subsequence of kept hrefs: it is read
   * off at strictly increasing positions, each holding a kept href, and every
   * kept position is among them.
   */
  lemma BioLinkFilterExact(hrefs: seq<Option<string>>, slug: string)
    ensures var r, idx := BioLinkFilter(hrefs, slug), KeptIndices(hrefs, slug);
      && |idx| == |r|
      && (forall k :: 0 <= k < |idx| ==> idx[k] < |hrefs| && Kept(hrefs[idx[k]], slug) && r[k] == hrefs[idx[k]].value)
      && (forall j, k :: 0 <= j < k < |idx| ==> idx[j] < idx[k])
      && (forall i :: 0 <= i < |hrefs| && Kept(hrefs[i], slug) ==> i in idx)
  {
    BioLinkFilterSound(hrefs, slug);
    BioLinkFilterComplete(hrefs, slug);
  }

  /** No link is dropped that passes both filters, and none is kept that fails one. */
  lemma BioLinkFilterMembership(hrefs: seq<Option<string>>, slug: string, link: string)
    ensures link in BioLinkFilter(hrefs, slug) <==> Some(link) in hrefs && StartsWith(link, slug)
  {
    BioLinkFilterSound(hrefs, slug);
    BioLinkFilterComplete(hrefs, slug);
    var r, idx := BioLinkFilter(hrefs, slug), KeptIndices(hrefs, slug);
    if link in r {
      var k :| 0 <= k < |r| && r[k] == link;
      assert hrefs[idx[k]] == Some(link);
    }
    if Some(link) in hrefs && StartsWith(link, slug) {
      var i :| 0 <= i < |hrefs| && hrefs[i] == Some(link);
      assert i in idx;
      var k :| 0 <= k < |idx| && idx[k] == i;
      assert r[k] == link;
    }
  }
}
