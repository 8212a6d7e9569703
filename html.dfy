/**
 * The parsed-page interface the scraper uses: a page is the sequence of its
 * elements in document order, and each element carries its tag name, its
 * `href` attribute when it has one, and the text fragments beneath it.
 */
module Html {
  import opened Wrappers
  import opened Text

  datatype Element = Element(tag: string, href: Option<string>, strings: seq<string>)

  type Page = seq<Element>

  /** `soup.find_all(tag)`: the elements with that tag, in document order. */
  function FindAll(page: Page, tag: string): (r: seq<Element>)
    ensures |r| <= |page|
    ensures forall k :: 0 <= k < |r| ==> r[k].tag == tag && r[k] in page
  {
    if |page| == 0 then []
    else (if page[0].tag == tag then [page[0]] else []) + FindAll(page[1..], tag)
  }

  /** `find_all` comes back empty exactly when no element has the tag, and otherwise starts with the first one that has it. */
  lemma {:induction false} FindAllFirst(page: Page, tag: string)
    ensures |FindAll(page, tag)| == 0 <==> forall i :: 0 <= i < |page| ==> page[i].tag != tag
    ensures |FindAll(page, tag)| > 0 ==>
      exists i :: 0 <= i < |page| && page[i] == FindAll(page, tag)[0] && page[i].tag == tag &&
        forall j :: 0 <= j < i ==> page[j].tag != tag
  {
    if |page| > 0 && page[0].tag != tag {
      FindAllFirst(page[1..], tag);
      assert FindAll(page, tag) == FindAll(page[1..], tag);
      if |FindAll(page, tag)| > 0 {
        var i :| 0 <= i < |page[1..]| && page[1..][i] == FindAll(page[1..], tag)[0] && page[1..][i].tag == tag &&
          forall j :: 0 <= j < i ==> page[1..][j].tag != tag;
        assert forall j :: 0 <= j < i + 1 ==> page[j].tag != tag by {
          forall j | 0 <= j < i + 1 ensures page[j].tag != tag {
            if j > 0 { assert page[j] == page[1..][j - 1]; }
          }
        }
      } else {
        forall i | 0 <= i < |page| ensures page[i].tag != tag {
          if i > 0 { assert page[i] == page[1..][i - 1]; }
        }
      }
    }
  }

  /** `element.get_text()`: the element's text fragments run together. */
  function GetText(e: Element): string {
    Concat(e.strings)
  }

  function StripAll(strings: seq<string>): (r: seq<string>)
    ensures |r| == |strings|
    ensures forall k :: 0 <= k < |r| ==> r[k] == Strip(strings[k])
  {
    if |strings| == 0 then [] else [Strip(strings[0])] + StripAll(strings[1..])
  }

  /**
   * `element.get_text(strip=True)`: every fragment is stripped on its own
   * before they are run together (fragments that strip to nothing add nothing).
   */
  function GetStrippedText(e: Element): (r: string)
    ensures IsTrimmed(r)
  {
    ConcatTrimmed(StripAll(e.strings));
    Concat(StripAll(e.strings))
  }

  /** `[a.get("href") for a in soup.find_all("a")]` */
  function Hrefs(page: Page): (r: seq<Option<string>>)
    ensures |r| == |FindAll(page, "a")|
    ensures forall k :: 0 <= k < |r| ==> r[k] == FindAll(page, "a")[k].href
  {
    var anchors := FindAll(page, "a");
    seq(|anchors|, k requires 0 <= k < |anchors| => anchors[k].href)
  }
}
