/**
 * The tag prober (`BioMatch._tag_test`): for each of the tags h1 to h6 and p
 * that occurs on a sample page, a preview of the first such element's text,
 * cut to 40 characters and marked with "..." when it is longer.
 */
module Probe {
  import opened Wrappers
  import opened Html

  const ProbeTags: seq<string> := ["h1", "h2", "h3", "h4", "h5", "h6", "p"]

  const PreviewLimit: nat := 40

  const Ellipsis: string := "..."

  datatype Probe = Probe(tag: string, preview: string)

  /** A text of at most 40 characters is shown whole; a longer one is cut to 40 and marked. */
  function Preview(text: string): (r: string)
    ensures |text| <= PreviewLimit ==> r == text
    ensures |text| > PreviewLimit ==> |r| == PreviewLimit + |Ellipsis| && r == text[..PreviewLimit] + Ellipsis
    ensures |r| <= PreviewLimit + |Ellipsis|
  {
    if |text| > PreviewLimit then text[..PreviewLimit] + Ellipsis else text
  }

  /** The page has at least one element with the tag. */
  predicate Occurs(page: Page, tag: string) {
    |FindAll(page, tag)| > 0
  }

  /** `p` reports `tag`: it shows the preview of the first element with that tag. */
  predicate Shows(page: Page, tag: string, p: Probe) {
    p.tag == tag && Occurs(page, tag) && p.preview == Preview(GetText(FindAll(page, tag)[0]))
  }

  /** The probe of one tag: nothing when the page has no such element. */
  function ProbeTag(page: Page, tag: string): seq<Probe> {
    var found := FindAll(page, tag);
    if |found| > 0 then [Probe(tag, Preview(GetText(found[0])))] else []
  }

  /** A tag that occurs gets the one probe showing it; any other gets none. */
  lemma ProbeTagShows(page: Page, tag: string)
    ensures Occurs(page, tag) ==> |ProbeTag(page, tag)| == 1 && Shows(page, tag, ProbeTag(page, tag)[0])
    ensures !Occurs(page, tag) ==> ProbeTag(page, tag) == []
  {
  }

  /** The probes of `tags`, in their order: at most one per tag, each for one of the tags. */
  function ProbeAll(page: Page, tags: seq<string>): (r: seq<Probe>)
  {
    if |tags| == 0 then []
    else ProbeAll(page, tags[..|tags| - 1]) + ProbeTag(page, tags[|tags| - 1])
  }

  /** Probing the first `i` tags gives a prefix of the probes of all of them. */
  lemma {:induction false} ProbeAllPrefix(page: Page, tags: seq<string>, i: nat)
    requires i <= |tags|
    ensures ProbeAll(page, tags[..i]) <= ProbeAll(page, tags)
    decreases |tags|
  {
    if i < |tags| {
      var n := |tags| - 1;
      var front := tags[..n];
      var head := ProbeAll(page, tags[..i]);
      var rest := ProbeAll(page, front);
      assert head <= rest by {
        ProbeAllPrefix(page, front, i);
        assert front[..i] == tags[..i];
      }
      assert ProbeAll(page, tags) == rest + ProbeTag(page, tags[n]);
    } else {
      assert tags[..i] == tags;
    }
  }

  /**
   * Every character is ASCII, so that Python 2 can put the text into the
   * byte-string template of the probe line without encoding it.
   */
  predicate IsAscii(s: string) {
    forall k :: 0 <= k < |s| ==> s[k] as int < 128
  }

  /**
   * The position of the first probe whose preview is not ASCII: formatting
   * that preview into the byte-string template raises `UnicodeEncodeError`,
   * which ends the probe.
   */
  function FirstUnprintable(probes: seq<Probe>): (r: Option<nat>)
    ensures r.None? ==> forall k :: 0 <= k < |probes| ==> IsAscii(probes[k].preview)
    ensures r.Some? ==> r.value < |probes| && !IsAscii(probes[r.value].preview)
    ensures r.Some? ==> forall j :: 0 <= j < r.value ==> IsAscii(probes[j].preview)
    decreases |probes|
  {
    if |probes| == 0 then None
    else if !IsAscii(probes[0].preview) then Some(0)
    else
      match FirstUnprintable(probes[1..])
      case None => None
      case Some(i) => Some(i + 1)
  }

  /** One more probe with an ASCII preview still prints without failing. */
  lemma PrintableAppend(probes: seq<Probe>, p: Probe)
    requires FirstUnprintable(probes) == None && IsAscii(p.preview)
    ensures FirstUnprintable(probes + [p]) == None
  {
    var all := probes + [p];
    assert forall k :: 0 <= k < |all| ==> IsAscii(all[k].preview) by {
      assert forall k :: 0 <= k < |probes| ==> all[k] == probes[k];
    }
  }

  /**
   * When the probes of the first `t` tags are all ASCII and the next tag's
   * probe is not, the whole probe stops at that next probe.
   */
  lemma StopsAtUnprintable(page: Page, tags: seq<string>, t: nat, probes: seq<Probe>, p: Probe)
    requires t < |tags| && ProbeAll(page, tags[..t + 1]) == probes + [p]
    requires FirstUnprintable(probes) == None
    requires !IsAscii(p.preview)
    ensures FirstUnprintable(ProbeAll(page, tags)) == Some(|probes|)
    ensures ProbeAll(page, tags)[|probes|] == p
  {
    var all := ProbeAll(page, tags);
    var n := |probes|;
    var head := probes + [p];
    assert n < |all| && all[..n + 1] == head by {
      ProbeAllPrefix(page, tags, t + 1);
    }
    assert all[n] == head[n] == p;
    forall k | 0 <= k < n ensures IsAscii(all[k].preview) {
      assert all[k] == head[k] == probes[k];
    }
    var i := FirstUnprintable(all);
    if i.None? || i.value < n || i.value > n {
      assert false;
    }
  }

  /** Probing one more tag appends that tag's probe. */
  lemma ProbeAllStep(page: Page, tags: seq<string>, t: nat)
    requires t < |tags|
    ensures ProbeAll(page, tags[..t + 1]) == ProbeAll(page, tags[..t]) + ProbeTag(page, tags[t])
  {
    assert tags[..t + 1][..t] == tags[..t];
  }

  /** The positions in `tags` of the tags that occur on the page. */
  function ProbedPositions(page: Page, tags: seq<string>): seq<nat> {
    if |tags| == 0 then []
    else
      var n := |tags| - 1;
      ProbedPositions(page, tags[..n]) + (if Occurs(page, tags[n]) then [n] else [])
  }

  /**
   * The probes come in the order of `tags`, each at the position of a tag
   * that occurs on the page, and each shows the preview of the first element
   * with its tag.
   */
  lemma {:induction false} ProbeAllSound(page: Page, tags: seq<string>)
    ensures var r, idx := ProbeAll(page, tags), ProbedPositions(page, tags);
      && |idx| == |r|
      && (forall k :: 0 <= k < |idx| ==> idx[k] < |tags| && Shows(page, tags[idx[k]], r[k]))
      && (forall j, k :: 0 <= j < k < |idx| ==> idx[j] < idx[k])
    decreases |tags|
  {
    if |tags| > 0 {
      var n := |tags| - 1;
      var front := tags[..n];
      var r0, idx0 := ProbeAll(page, front), ProbedPositions(page, front);
      var last := ProbeTag(page, tags[n]);
      var lastIdx: seq<nat> := if Occurs(page, tags[n]) then [n] else [];
      var r, idx := r0 + last, idx0 + lastIdx;
      assert ProbeAll(page, tags) == r && ProbedPositions(page, tags) == idx;
      assert |idx0| == |r0| && |lastIdx| == |last| by {
        ProbeAllSound(page, front);
        ProbeTagShows(page, tags[n]);
      }
      forall k | 0 <= k < |idx| ensures idx[k] < |tags| && Shows(page, tags[idx[k]], r[k]) {
        if k < |idx0| {
          ProbeAllSound(page, front);
          assert idx[k] == idx0[k] && r[k] == r0[k];
          assert tags[idx0[k]] == front[idx0[k]];
        } else {
          ProbeTagShows(page, tags[n]);
          assert idx[k] == n && r[k] == last[0];
        }
      }
      forall j, k | 0 <= j < k < |idx| ensures idx[j] < idx[k] {
        ProbeAllSound(page, front);
        if k < |idx0| {
          assert idx[j] == idx0[j] && idx[k] == idx0[k];
        } else {
          assert idx[j] == idx0[j] && idx[k] == n;
        }
      }
    }
  }

  /** A tag at position `i` that occurs on the page is probed. */
  lemma {:induction false} ProbedAt(page: Page, tags: seq<string>, i: nat)
    requires i < |tags| && Occurs(page, tags[i])
    ensures i in ProbedPositions(page, tags)
    decreases |tags|
  {
    var n := |tags| - 1;
    var front := tags[..n];
    var idx0 := ProbedPositions(page, front);
    var last: seq<nat> := if Occurs(page, tags[n]) then [n] else [];
    assert ProbedPositions(page, tags) == idx0 + last;
    if i < n {
      assert i in idx0 by {
        assert front[i] == tags[i];
        ProbedAt(page, front, i);
      }
    } else {
      assert last == [n];
    }
  }

  /** Every tag that occurs on the page is probed. */
  lemma ProbeAllComplete(page: Page, tags: seq<string>)
    ensures forall i :: 0 <= i < |tags| && Occurs(page, tags[i]) ==> i in ProbedPositions(page, tags)
  {
    forall i | 0 <= i < |tags| && Occurs(page, tags[i]) ensures i in ProbedPositions(page, tags) {
      ProbedAt(page, tags, i);
    }
  }

  /** Only tags that occur are reported: a page without any of the tags gives no probe. */
  lemma ProbeAllEmpty(page: Page, tags: seq<string>)
    ensures ProbeAll(page, tags) == [] <==> forall i :: 0 <= i < |tags| ==> !Occurs(page, tags[i])
  {
    ProbeAllSound(page, tags);
    ProbeAllComplete(page, tags);
    var idx := ProbedPositions(page, tags);
    if ProbeAll(page, tags) == [] {
      assert |idx| == 0;
    } else {
      assert Occurs(page, tags[idx[0]]);
    }
  }
}
