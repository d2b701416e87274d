/** The values the harvester works with: what a result node looks like once the
    browser has been asked about it, the rows written per keyword, and the
    fixed set of pages a search offers. */
module Records {

  /** A value that may be absent, as Selenium's `get_attribute` may return None. */
  datatype Option<+T> = None | Some(value: T)

  /** The outcome of reading one result node (app/googlesearch.py:77-86).
      `Missing`: a lookup raised NoSuchElementException.
      `Stale`: a lookup raised StaleElementReferenceException.
      `Found`: both lookups succeeded; the attributes read may still be None. */
  datatype Node = Missing | Stale | Found(title: Option<string>, url: Option<string>)

  /** One rendered results page: its result nodes in document order. The
      harvester waits for at least one node (app/googlesearch.py:64-66) and
      aborts after a timeout otherwise; the model lets an empty page
      yield no records and the run go on. */
  type Page = seq<Node>

  /** One row of a keyword's output. A `Record` is the dict
      {"TITLE": title, "URL": url}; a `Placeholder` is the dict {"": ""},
      which has neither a TITLE nor a URL key. */
  datatype Entry = Record(title: Option<string>, url: Option<string>) | Placeholder

  /** What the search engine offers for one keyword: the page shown after the
      query is submitted, and what clicking each pagination entry loads.
      `|nav|` is the number of pagination entries; entry 0 is never
      clicked, because the cursor starts at 1. */
  datatype World = World(first: Page, nav: seq<Page>)

  /** `n` placeholder rows. */
  function Placeholders(n: nat): (r: seq<Entry>)
    ensures |r| == n
    ensures forall i :: 0 <= i < n ==> r[i] == Placeholder
  {
    seq(n, _ => Placeholder)
  }
}
