# Google search result harvester — Dafny model

This project models the result-harvesting core of a Selenium script that
searches Google for a list of keywords and writes, per keyword, a table of
(TITLE, URL) rows: the extractor `get_data` and the pagination loop and
keyword loop of `main`, both in `app/googlesearch.py`. The browser is
replaced by plain inputs:

- a result node is `Missing` (a lookup raised `NoSuchElementException`),
  `Stale` (a lookup raised `StaleElementReferenceException`) or
  `Found(title, url)` with `Option` attributes, because `get_attribute` may
  return None without raising;
- a page is the sequence of its result nodes in document order;
- a keyword's `World` is the page shown after the query (`first`) and what
  clicking each pagination entry loads (`nav`); `|nav|` stands for
  `len(nav_items)`; entry 0 is never clicked, because the cursor starts
  at 1, so whatever it would load is not part of the result;
- a written row is a `Record(title, url)` or a `Placeholder`, the dict
  `{"": ""}` the loop appends once pagination is exhausted.

Modules: `Records` (data model), `Extractor` (`get_data`), `Pagination`
(the per-keyword `while` loop) and `Orchestrator` (the keyword loop).

The loop's result is characterised against a reference definition that is
independent of its control flow: `Padded(AllRecords(BatchesOf(w)), limit)`,
the first `limit` records of every page the pagination can reach,
concatenated in rank order, padded with placeholders. `BatchesOf(w)` is the
per-page extraction result of a world; the loop's bookkeeping is stated over
it, and `ReachedIsExtraction` ties it back to the nodes of the pages. The method `Pagination.Harvest` is
proved to produce exactly that. It also returns the steps it took (click
entry `count`, or pad), proved equal to `Trace(b, Stop(b, limit))`. `Stop`
is the first iteration count at which `data` reaches `limit`, and `Trace`
the click-or-pad decision of each iteration up to that point. Lemmas about
`Stop`, `Trace` and `Padded` state what the loop's behaviour amounts to.

Facts about the code that shape the model:

- the placeholder is the dict `{"": ""}` (app/googlesearch.py:121), with
  neither a TITLE nor a URL key; it has its own constructor;
- the page cursor `count` advances on every iteration, including those that
  only pad (line 122);
- an iteration need not grow `data`: a loaded page may yield no records.
  The loop terminates because the cursor runs out of pagination entries,
  after which every iteration pads; the loop's `decreases` measure is
  `max(0, |nav| - count) + max(0, limit - |data|)`;
- nothing isolates one keyword's failure from the others: an exception
  anywhere in the keyword loop ends the whole run (see below).

## Model

| member | source | states |
|---|---|---|
| Extractor.Extract | app/googlesearch.py:71-90 | The extracted list never has more entries than the page has nodes, and every entry is a TITLE/URL record, never a placeholder. |
| Extractor.ExtractCount | app/googlesearch.py:73-88 | The extracted list has exactly one entry per node whose lookups succeeded. |
| Extractor.ExtractNodes | app/googlesearch.py:71-90 | The node-by-node loop, which skips a node on either exception and appends otherwise, computes exactly the extracted list. |
| Extractor.ExtractAppend | app/googlesearch.py:73-88 | Extracting two runs of nodes one after the other gives the concatenation of their extractions: each node is handled on its own. |
| Extractor.NodeContribution | app/googlesearch.py:77-88 | A Missing or Stale node contributes nothing and does not stop the nodes after it; a Found node contributes its record even when title or URL is None. |
| Extractor.ExtractEmpty | app/googlesearch.py:71-90 | A page with at least one result node yields the empty list, and no error, exactly when none of its nodes was read successfully. |
| Extractor.ExtractKeeps | app/googlesearch.py:73-88 | Every successfully read node appears in the output, at the position equal to the number of successfully read nodes before it. |
| Extractor.ExtractOnlyFound | app/googlesearch.py:73-88 | Every output entry is the record of some successfully read node, at that node's rank. |
| Extractor.RankIncreasing | app/googlesearch.py:73-88 | A successfully read node ranks strictly before every later node. |
| Extractor.ExtractPreservesOrder | app/googlesearch.py:73-88 | Two successfully read nodes come out in the order they were rendered. |
| Pagination.TraceShape | app/googlesearch.py:108-122 | The cursor starts at 1 and grows by one per iteration whether or not a page was loaded: iteration k clicks entry k when it exists and pads otherwise, and after one pad every later iteration pads. |
| Pagination.AccumulatedGrows | app/googlesearch.py:110-122 | `data` is only appended to: its state after n iterations is its state after any earlier m iterations followed by what iterations m+1..n yielded. |
| Pagination.AccumulatedLength | app/googlesearch.py:110-122 | The length of `data` never decreases from one iteration to a later one. |
| Pagination.AccumulatedWhileLoading | app/googlesearch.py:110-119 | While pagination entries remain, `data` holds exactly the records of the first page and of the pages clicked so far, in order. |
| Pagination.AccumulatedAfterExhaustion | app/googlesearch.py:114-122 | Once no entry at the cursor exists, `data` holds every record followed by one placeholder per further iteration. |
| Pagination.LoopExitIsPadded | app/googlesearch.py:112-125 | Leaving the loop at the first iteration where `len(data) >= limit` and slicing `data[:limit]` gives the first `limit` records, padded with placeholders. |
| Pagination.ReachedRecordsOnly | app/googlesearch.py:110-119 | Every record gathered from the pages is a TITLE/URL record, never a placeholder. |
| Pagination.ReachedIsExtraction | app/googlesearch.py:110-119 | The records gathered page by page are the records of the document formed by the pages in order: rank order is kept across pages. |
| Pagination.StopIsFirst | app/googlesearch.py:112-122 | The loop stops at the first iteration count at which `len(data) >= limit`, every earlier count left `data` short, and it stops after at most one iteration per clickable entry plus one per requested row, even when loaded pages yield no records. |
| Pagination.StopUnique | app/googlesearch.py:112 | Any iteration count at which the loop condition fails for the first time is that stopping point. |
| Pagination.PaddedRows | app/googlesearch.py:119-125 | The written list has exactly `limit` rows; a row holds the record of that rank when there is one, and is a placeholder exactly when its rank lies past the last record. |
| Pagination.FirstPageSuffices | app/googlesearch.py:108-125 | When the first page already yields `limit` records, the loop runs zero times, so nothing is clicked, and the rows are that page's first `limit` records. |
| Pagination.Harvest | app/googlesearch.py:108-125 | The loop writes the first `limit` records of all reachable pages in rank order, then placeholders; its steps are exactly the reference steps up to the stopping point: entry k clicked at iteration k while it exists, a pad otherwise. |
| Orchestrator.Run | app/googlesearch.py:103-126 | One sheet per keyword, in keyword order, each holding exactly `limit` rows that depend only on that keyword's pages. |

## Left out

- Browser lifecycle (`get_driver`, Chrome options, headless/incognito flags, `driver.quit()`): process management, not logic.
- `get_keywords`: path resolution and file reading; the keyword list is an input.
- Excel output through pandas and `os.makedirs`; the model returns one sheet value per keyword. Duplicate keywords overwriting the same file are not modelled.
- `time.sleep` pauses: timing only.
- The 10-second `WebDriverWait` (app/googlesearch.py:64-66): a page with no result node at all makes the wait at line 66 raise `TimeoutException`, which aborts the run and writes no further sheet; the model lets such a page yield no records instead, so `Run` also covers worlds the code would abort on.
- Other aborting exceptions: `get_data` catches only `NoSuchElementException` and `StaleElementReferenceException` (lines 83-86), so any other Selenium error raised at lines 78-82 ends the run, and `Node` has no outcome for it. Finding the link of pagination entry `count` (line 116, which raises `NoSuchElementException` when the entry has no link) and clicking it (line 117) are outside any `try` and can likewise abort the run; the model treats every click as succeeding.
- Typing the keyword into the search box, `driver.get`, and the CSS/XPath selectors: each page is given directly as its node outcomes. `get_data` re-submits the keyword after every pagination click; a `nav` page stands for whatever the results container shows after that click and re-submission.
- `nav_items` is re-read from the live page on every iteration; the model fixes the pagination entries per keyword.
- A negative `limit` (Python slicing from the end): `limit` is a natural number.
