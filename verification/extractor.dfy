/** The result extractor, `get_data` (app/googlesearch.py:71-90): every node
    whose title and parent-link lookups succeed becomes a record, in document
    order; a node whose lookup raised is skipped. */
module Extractor {
  import opened Records

  /** The row a successfully read node turns into. */
  function RecordOf(n: Node): Entry
    requires n.Found?
  {
    Record(n.title, n.url)
  }

  /** Number of nodes of `p` whose lookups succeeded. */
  function FoundCount(p: Page): nat
  {
    if p == [] then 0
    else FoundCount(p[..|p| - 1]) + (if p[|p| - 1].Found? then 1 else 0)
  }

  /** Position in the extracted list that node `i` of `p` would take:
      the number of successfully read nodes before it. */
  function Rank(p: Page, i: nat): nat
    requires i <= |p|
  {
    FoundCount(p[..i])
  }

  /** The extracted records of a page. */
  function Extract(p: Page): (r: seq<Entry>)
    ensures |r| <= |p|
    ensures forall k :: 0 <= k < |r| ==> r[k].Record?
  {
    if p == [] then []
    else
      var last := p[|p| - 1];
      Extract(p[..|p| - 1]) + (if last.Found? then [RecordOf(last)] else [])
  }

  /** One record per successfully read node. */
  lemma {:induction false} ExtractCount(p: Page)
    ensures |Extract(p)| == FoundCount(p)
  {
    if p != [] {
      ExtractCount(p[..|p| - 1]);
    }
  }

  /** The loop of lines 73-88, one node at a time; a raised lookup is a
      `continue`, a successful one appends. */
  method ExtractNodes(page: Page) returns (ret: seq<Entry>)
    ensures ret == Extract(page)
  {
    ret := [];
    for i := 0 to |page|
      invariant ret == Extract(page[..i])
    {
      var node := page[i];
      assert page[..i + 1][..i] == page[..i];
      match node {
        case Missing =>
        case Stale =>
        case Found(title, url) =>
          ret := ret + [Record(title, url)];
      }
    }
    assert page[..|page|] == page;
  }

  /** Extraction distributes over concatenation of node lists. */
  lemma {:induction false} ExtractAppend(a: Page, b: Page)
    ensures Extract(a + b) == Extract(a) + Extract(b)
    decreases |b|
  {
    if b == [] {
      assert a + b == a;
    } else {
      var b' := b[..|b| - 1];
      assert (a + b)[..|a + b| - 1] == a + b';
      ExtractAppend(a, b');
    }
  }

  /** A node is dropped exactly when its lookup raised, and a dropped node
      does not stop the nodes after it from being extracted; a node whose
      lookups succeeded is kept whatever attribute values it carries. */
  lemma NodeContribution(a: Page, n: Node, b: Page)
    ensures !n.Found? ==> Extract(a + [n] + b) == Extract(a) + Extract(b)
    ensures n.Found? ==> Extract(a + [n] + b) == Extract(a) + [RecordOf(n)] + Extract(b)
  {
    var an := a + [n];
    ExtractAppend(an, b);
    assert an[..|an| - 1] == a;
    assert Extract(an) == Extract(a) + (if n.Found? then [RecordOf(n)] else []);
  }

  /** A page yields no records exactly when none of its nodes was read
      successfully; when the page has at least one node, this is not an
      error. */
  lemma {:induction false} ExtractEmpty(p: Page)
    ensures Extract(p) == [] <==> forall i :: 0 <= i < |p| ==> !p[i].Found?
  {
    if p != [] {
      var p' := p[..|p| - 1];
      ExtractEmpty(p');
      assert forall i :: 0 <= i < |p'| ==> p'[i] == p[i];
    }
  }

  /** Every successfully read node appears in the extracted list, at the
      position given by its rank. */
  lemma {:induction false} ExtractKeeps(p: Page, i: nat)
    requires i < |p| && p[i].Found?
    ensures Rank(p, i) < |Extract(p)|
    ensures Extract(p)[Rank(p, i)] == RecordOf(p[i])
    decreases |p|
  {
    var p' := p[..|p| - 1];
    if i == |p| - 1 {
      assert p[..i] == p';
      ExtractCount(p');
    } else {
      assert p'[..i] == p[..i];
      ExtractKeeps(p', i);
    }
  }

  /** Every extracted record comes from a successfully read node of rank `k`. */
  lemma {:induction false} ExtractOnlyFound(p: Page, k: nat)
    requires k < |Extract(p)|
    ensures exists i :: 0 <= i < |p| && p[i].Found? && Rank(p, i) == k && Extract(p)[k] == RecordOf(p[i])
    decreases |p|
  {
    var p' := p[..|p| - 1];
    if k < |Extract(p')| {
      ExtractOnlyFound(p', k);
      var i :| 0 <= i < |p'| && p'[i].Found? && Rank(p', i) == k && Extract(p')[k] == RecordOf(p'[i]);
      assert p'[..i] == p[..i];
      assert p[i] == p'[i];
    } else {
      var i := |p| - 1;
      assert p[..i] == p';
      ExtractCount(p');
      assert p[i].Found? && Rank(p, i) == k;
    }
  }

  /** Ranks strictly increase along the successfully read nodes, so records
      keep document order. */
  lemma RankIncreasing(p: Page, i: nat, j: nat)
    requires i < j <= |p| && p[i].Found?
    ensures Rank(p, i) < Rank(p, j)
  {
    ExtractAppend(p[..i + 1], p[i + 1..j]);
    assert p[..i + 1] + p[i + 1..j] == p[..j];
    ExtractAppend(p[..i], [p[i]]);
    assert p[..i] + [p[i]] == p[..i + 1];
    assert [p[i]][..0] == [];
    ExtractCount(p[..i]);
    ExtractCount(p[..i + 1]);
    ExtractCount(p[..j]);
  }

  /** Two successfully read nodes come out in the order they were rendered. */
  lemma ExtractPreservesOrder(p: Page, i: nat, j: nat)
    requires i < j < |p| && p[i].Found? && p[j].Found?
    ensures Rank(p, i) < Rank(p, j) < |Extract(p)|
    ensures Extract(p)[Rank(p, i)] == RecordOf(p[i])
    ensures Extract(p)[Rank(p, j)] == RecordOf(p[j])
  {
    RankIncreasing(p, i, j);
    ExtractKeeps(p, i);
    ExtractKeeps(p, j);
  }
}
