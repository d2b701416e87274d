/** The per-keyword pagination loop of `main` (app/googlesearch.py:108-125):
    extract the first page, then, while fewer than `limit` rows are held,
    click the pagination entry at the cursor if there is one and append the
    records of the page it loads, or append one placeholder otherwise;
    advance the cursor either way; finally keep the first `limit` rows.

    The loop's arithmetic only depends on the records each page yields, so
    most of this module reasons about `Batches`, the per-page extraction
    results of a `World`. */
module Pagination {
  import opened Records
  import opened Extractor

  /** What one loop iteration does to the browser: click pagination entry
      `entry` and extract the page it loads, or append a placeholder. */
  datatype Step = Load(entry: nat) | Pad

  /** The records each page yields: `first` for the page shown after the
      search, `nav[i]` for the page pagination entry `i` loads. */
  datatype Batches = Batches(first: seq<Entry>, nav: seq<seq<Entry>>)

  /** The per-page extraction results of a world. */
  function BatchesOf(w: World): Batches
  {
    Batches(Extract(w.first), ExtractPages(w.nav))
  }

  /** The extraction result of each page, page by page. */
  function ExtractPages(pages: seq<Page>): (r: seq<seq<Entry>>)
    ensures |r| == |pages|
  {
    if pages == [] then [] else ExtractPages(pages[..|pages| - 1]) + [Extract(pages[|pages| - 1])]
  }

  /** Batch `i` is the extraction of page `i`. */
  lemma {:induction false} ExtractPagesAt(pages: seq<Page>, i: nat)
    requires i < |pages|
    ensures ExtractPages(pages)[i] == Extract(pages[i])
    decreases |pages|
  {
    if i < |pages| - 1 {
      var init := pages[..|pages| - 1];
      ExtractPagesAt(init, i);
      assert init[i] == pages[i];
    }
  }

  /** The iteration whose cursor is `count` (lines 115-121). */
  function StepAt(b: Batches, count: nat): Step
  {
    if |b.nav| > count then Load(count) else Pad
  }

  /** The steps of the first `n` iterations; iteration `k` has cursor `k`. */
  function Trace(b: Batches, n: nat): seq<Step>
  {
    if n == 0 then [] else Trace(b, n - 1) + [StepAt(b, n)]
  }

  /** The rows the iteration whose cursor is `count` appends to `data`. */
  function Yield(b: Batches, count: nat): seq<Entry>
  {
    if |b.nav| > count then b.nav[count] else [Placeholder]
  }

  /** `data` after `n` iterations: the first page's records, then the yield
      of cursors 1, 2, ..., n. */
  function Accumulated(b: Batches, n: nat): seq<Entry>
  {
    if n == 0 then b.first else Accumulated(b, n - 1) + Yield(b, n)
  }

  /** What iterations m+1 .. n append, in order. */
  function Appended(b: Batches, m: nat, n: nat): seq<Entry>
    requires m <= n
    decreases n
  {
    if n == m then [] else Appended(b, m, n - 1) + Yield(b, n)
  }

  /** Number of pagination entries the loop can click: entries 1 .. |nav| - 1. */
  function Clickable(b: Batches): nat
  {
    if |b.nav| == 0 then 0 else |b.nav| - 1
  }

  /** The records of the first page followed by those of pagination pages
      1 .. n, in rank order. */
  function Reached(b: Batches, n: nat): seq<Entry>
    requires n <= Clickable(b)
  {
    if n == 0 then b.first else Reached(b, n - 1) + b.nav[n]
  }

  /** Every record the search offers for one keyword, in rank order. */
  function AllRecords(b: Batches): seq<Entry>
  {
    Reached(b, Clickable(b))
  }

  /** The rows written for a keyword whose results are `r`: rank position
      `i` holds the `i`-th result if there is one, and a placeholder
      otherwise. */
  function Padded(r: seq<Entry>, limit: nat): seq<Entry>
  {
    seq(limit, i => if 0 <= i < |r| then r[i] else Placeholder)
  }

  /** No entry of `s` is a placeholder. */
  predicate RecordsOnly(s: seq<Entry>)
  {
    forall i :: 0 <= i < |s| ==> s[i].Record?
  }

  /** Iteration k+1 has cursor k+1: it clicks entry k+1 when that entry
      exists and pads otherwise, and once it pads every later iteration
      pads. */
  lemma {:induction false} TraceShape(b: Batches, n: nat)
    ensures |Trace(b, n)| == n
    ensures forall k :: 0 <= k < n ==> Trace(b, n)[k] == StepAt(b, k + 1)
    ensures forall k, j :: 0 <= k <= j < n && Trace(b, n)[k] == Pad ==> Trace(b, n)[j] == Pad
  {
    if n > 0 {
      TraceShape(b, n - 1);
    }
  }

  /** `data` is only ever appended to: its state after `n` iterations is its
      state after any earlier `m` iterations followed by what the iterations
      in between yielded, so records are never reordered or dropped. */
  lemma {:induction false} AccumulatedGrows(b: Batches, m: nat, n: nat)
    requires m <= n
    ensures Accumulated(b, n) == Accumulated(b, m) + Appended(b, m, n)
    decreases n
  {
    if m < n {
      AccumulatedGrows(b, m, n - 1);
      assert Accumulated(b, n) == Accumulated(b, n - 1) + Yield(b, n);
      assert Appended(b, m, n) == Appended(b, m, n - 1) + Yield(b, n);
    }
  }

  /** While pagination entries remain, `data` holds exactly the records of
      the pages visited so far. */
  lemma {:induction false} AccumulatedWhileLoading(b: Batches, n: nat)
    requires n <= Clickable(b)
    ensures Accumulated(b, n) == Reached(b, n)
  {
    if n > 0 {
      AccumulatedWhileLoading(b, n - 1);
    }
  }

  /** Once pagination is exhausted, `data` holds every record followed by
      one placeholder per further iteration. */
  lemma {:induction false} AccumulatedAfterExhaustion(b: Batches, n: nat)
    requires Clickable(b) <= n
    ensures Accumulated(b, n) == AllRecords(b) + Placeholders(n - Clickable(b))
    decreases n
  {
    if n == Clickable(b) {
      AccumulatedWhileLoading(b, n);
      assert Placeholders(0) == [];
    } else {
      AccumulatedAfterExhaustion(b, n - 1);
      assert Placeholders(n - 1 - Clickable(b)) + [Placeholder] == Placeholders(n - Clickable(b));
    }
  }

  /** The loop's exit state, truncated to `limit`, is the padded result list:
      stopping at the first iteration count that reaches `limit` neither
      loses a record nor pads too early. */
  lemma LoopExitIsPadded(b: Batches, n: nat, limit: nat)
    requires limit <= |Accumulated(b, n)|
    requires n == 0 || |Accumulated(b, n - 1)| < limit
    ensures Accumulated(b, n)[..limit] == Padded(AllRecords(b), limit)
  {
    var all := AllRecords(b);
    var data := Accumulated(b, n);
    if n <= Clickable(b) {
      AccumulatedGrows(b, n, Clickable(b));
      AccumulatedWhileLoading(b, Clickable(b));
      assert all == data + Appended(b, n, Clickable(b));
      assert data[..limit] == all[..limit];
    } else {
      AccumulatedAfterExhaustion(b, n);
      AccumulatedAfterExhaustion(b, n - 1);
      assert |data| == limit;
    }
  }

  /** `data` never shrinks. */
  lemma {:induction false} AccumulatedLength(b: Batches, m: nat, n: nat)
    requires m <= n
    ensures |Accumulated(b, m)| <= |Accumulated(b, n)|
  {
    AccumulatedGrows(b, m, n);
  }

  /** The records of every page a world reaches are records, never
      placeholders. */
  lemma {:induction false} ReachedRecordsOnly(w: World, n: nat)
    requires n <= Clickable(BatchesOf(w))
    ensures RecordsOnly(Reached(BatchesOf(w), n))
  {
    if n > 0 {
      ReachedRecordsOnly(w, n - 1);
      ExtractPagesAt(w.nav, n);
    }
  }

  /** The nodes of the first page followed by those of pagination pages
      1 .. n. */
  function Document(w: World, n: nat): Page
    requires n < |w.nav| || n == 0
  {
    if n == 0 then w.first else Document(w, n - 1) + w.nav[n]
  }

  /** The records of all pages, batch after batch, are the records of the
      whole document formed by the pages in order: the harvest keeps global
      rank order across pages. */
  lemma {:induction false} ReachedIsExtraction(w: World, n: nat)
    requires n <= Clickable(BatchesOf(w))
    ensures Reached(BatchesOf(w), n) == Extract(Document(w, n))
  {
    if n > 0 {
      var b := BatchesOf(w);
      ReachedIsExtraction(w, n - 1);
      ExtractPagesAt(w.nav, n);
      ExtractAppend(Document(w, n - 1), w.nav[n]);
      assert Reached(b, n) == Reached(b, n - 1) + Extract(w.nav[n]);
      assert Document(w, n) == Document(w, n - 1) + w.nav[n];
    }
  }

  /** Where the loop stops when it is entered with iteration count `n`
      already done: the first count from `n` on at which `data` holds at
      least `limit` entries. The second disjunct only bounds the search;
      StopFromFirst shows it never decides the result. */
  function StopFrom(b: Batches, limit: nat, n: nat): (r: nat)
    ensures n <= r
    ensures r == n || r <= Clickable(b) + limit
    decreases Clickable(b) + limit - n
  {
    if limit <= |Accumulated(b, n)| || Clickable(b) + limit <= n then n
    else StopFrom(b, limit, n + 1)
  }

  /** The number of iterations the pagination loop performs. */
  function Stop(b: Batches, limit: nat): nat
  {
    StopFrom(b, limit, 0)
  }

  /** Entered with `data` still short, the search stops at the first count
      that reaches `limit`: the bound on the search is never what stops it,
      because past it every further iteration has appended a placeholder. */
  lemma {:induction false} StopFromFirst(b: Batches, limit: nat, n: nat)
    requires n == 0 || |Accumulated(b, n - 1)| < limit
    ensures limit <= |Accumulated(b, StopFrom(b, limit, n))|
    ensures forall k :: n <= k < StopFrom(b, limit, n) ==> |Accumulated(b, k)| < limit
    decreases Clickable(b) + limit - n
  {
    if limit <= |Accumulated(b, n)| {
    } else if Clickable(b) + limit <= n {
      AccumulatedAfterExhaustion(b, n);
      assert false;
    } else {
      StopFromFirst(b, limit, n + 1);
    }
  }

  /** The loop's stopping point is the first iteration count at which
      `data` reaches `limit`, and it comes at the latest after one
      iteration per clickable entry and one per requested row. */
  lemma StopIsFirst(b: Batches, limit: nat)
    ensures limit <= |Accumulated(b, Stop(b, limit))|
    ensures forall k :: 0 <= k < Stop(b, limit) ==> |Accumulated(b, k)| < limit
    ensures Stop(b, limit) <= Clickable(b) + limit
  {
    StopFromFirst(b, limit, 0);
  }

  /** Any count at which the loop condition first fails is the stopping
      point. */
  lemma StopUnique(b: Batches, n: nat, limit: nat)
    requires limit <= |Accumulated(b, n)|
    requires n == 0 || |Accumulated(b, n - 1)| < limit
    ensures n == Stop(b, limit)
  {
    var s := Stop(b, limit);
    StopIsFirst(b, limit);
    if s < n {
      AccumulatedLength(b, s, n - 1);
    }
  }

  /** The padded result list has `limit` rows: the records in rank order,
      then a placeholder exactly at the positions past the last record. */
  lemma PaddedRows(w: World, limit: nat)
    ensures |Padded(AllRecords(BatchesOf(w)), limit)| == limit
    ensures forall i :: 0 <= i < limit && i < |AllRecords(BatchesOf(w))| ==>
      Padded(AllRecords(BatchesOf(w)), limit)[i] == AllRecords(BatchesOf(w))[i]
    ensures forall i :: 0 <= i < limit ==>
      (Padded(AllRecords(BatchesOf(w)), limit)[i] == Placeholder <==> |AllRecords(BatchesOf(w))| <= i)
  {
    ReachedRecordsOnly(w, Clickable(BatchesOf(w)));
  }

  /** When the first results page already holds `limit` records the loop
      never runs and the rows are that page's first `limit` records. */
  lemma FirstPageSuffices(w: World, limit: nat)
    requires limit <= |Extract(w.first)|
    ensures Stop(BatchesOf(w), limit) == 0
    ensures Padded(AllRecords(BatchesOf(w)), limit) == Extract(w.first)[..limit]
  {
    var b := BatchesOf(w);
    assert Accumulated(b, 0) == Extract(w.first);
    StopUnique(b, 0, limit);
    LoopExitIsPadded(b, 0, limit);
  }

  /** The harvest for one keyword. `rows` is what is written to the
      keyword's sheet; `steps` records, per loop iteration, whether a
      pagination entry was clicked or a placeholder appended. */
  method Harvest(w: World, limit: nat) returns (rows: seq<Entry>, steps: seq<Step>)
    ensures rows == Padded(AllRecords(BatchesOf(w)), limit)
    ensures steps == Trace(BatchesOf(w), Stop(BatchesOf(w), limit))
  {
    var b := BatchesOf(w);
    var count := 1;
    var data := ExtractNodes(w.first);
    steps := [];
    while |data| < limit
      invariant 1 <= count
      invariant |steps| == count - 1
      invariant steps == Trace(b, count - 1)
      invariant data == Accumulated(b, count - 1)
      invariant count == 1 || |Accumulated(b, count - 2)| < limit
      decreases (if |w.nav| > count then |w.nav| - count else 0) + (if limit > |data| then limit - |data| else 0)
    {
      var added;
      if |w.nav| > count {
        added := ExtractNodes(w.nav[count]);
        ExtractPagesAt(w.nav, count);
        steps := steps + [Load(count)];
      } else {
        added := [Placeholder];
        steps := steps + [Pad];
      }
      assert added == Yield(b, count);
      assert steps == Trace(b, count);
      data := data + added;
      count := count + 1;
    }
    var n := |steps|;
    StopUnique(b, n, limit);
    LoopExitIsPadded(b, n, limit);
    assert steps == Trace(b, Stop(b, limit));
    rows := data[..limit];
  }
}
