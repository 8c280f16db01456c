/**
 * The integer pre-processing of the link matrix before the PageRank
 * iterations. The matrix is read in compressed sparse row form with 1-based
 * indices: `columns` holds the page each of the links_count links points
 * from, `rows` the pages_count + 1 row boundaries. The pre-processing makes
 * both 0-based, counts the out-links of every page, and lists the pages
 * without out-links in increasing order.
 */
module PageRankPrep {
  import opened Sums

  // ---------------------------------------------------------------------------
  // Specification functions

  /** The number of entries of s equal to v. */
  function CountOf(s: seq<int>, v: int): (k: nat)
    ensures k <= |s|
  {
    if s == [] then 0 else CountOf(s[..|s| - 1], v) + (if s[|s| - 1] == v then 1 else 0)
  }

  /** The positions of the zero entries of s, in increasing order. */
  function ZeroPositions(s: seq<int>): seq<int>
  {
    if s == [] then []
    else ZeroPositions(s[..|s| - 1]) + (if s[|s| - 1] == 0 then [|s| - 1] else [])
  }

  /** The number of entries of s that lie in [0, k), counted value by value. */
  function SumOfCounts(s: seq<int>, k: nat): int
  {
    if k == 0 then 0 else SumOfCounts(s, k - 1) + CountOf(s, k - 1)
  }

  // ---------------------------------------------------------------------------
  // Properties of the specification

  /** Looking one entry further adds one to the count of that entry's value only. */
  lemma CountOfNext(s: seq<int>, i: nat, v: int)
    requires i < |s|
    ensures CountOf(s[..i + 1], v) == CountOf(s[..i], v) + (if s[i] == v then 1 else 0)
  {
    assert s[..i + 1][..i] == s[..i];
  }

  /** A prefix has no more occurrences of a value than the whole sequence. */
  lemma {:induction false} CountOfPrefix(s: seq<int>, i: nat, v: int)
    requires i <= |s|
    ensures CountOf(s[..i], v) <= CountOf(s, v)
    decreases |s| - i
  {
    if i < |s| {
      CountOfNext(s, i, v);
      CountOfPrefix(s, i + 1, v);
    } else {
      assert s[..i] == s;
    }
  }

  /** Appending x adds one to the in-range count exactly when x lies in [0, k). */
  lemma {:induction false} SumOfCountsAppend(s: seq<int>, x: int, k: nat)
    ensures SumOfCounts(s + [x], k) == SumOfCounts(s, k) + (if 0 <= x < k then 1 else 0)
  {
    if k > 0 {
      SumOfCountsAppend(s, x, k - 1);
      assert (s + [x])[..|s + [x]| - 1] == s;
    }
  }

  /** When every entry lies in [0, k), the counts of the k values add up to the length. */
  lemma {:induction false} SumOfCountsIsLength(s: seq<int>, k: nat)
    requires forall i :: 0 <= i < |s| ==> 0 <= s[i] < k
    ensures SumOfCounts(s, k) == |s|
  {
    if s == [] {
      SumOfCountsEmpty(k);
    } else {
      var t := s[..|s| - 1];
      SumOfCountsIsLength(t, k);
      SumOfCountsAppend(t, s[|s| - 1], k);
      assert t + [s[|s| - 1]] == s;
    }
  }

  /** No value occurs in the empty sequence. */
  lemma {:induction false} SumOfCountsEmpty(k: nat)
    ensures SumOfCounts([], k) == 0
  {
    if k > 0 {
      SumOfCountsEmpty(k - 1);
    }
  }

  /** A table holding the count of every value in [0, k) sums to SumOfCounts. */
  lemma {:induction false} HistogramPrefixSum(counts: seq<int>, s: seq<int>, k: nat)
    requires k <= |counts| && forall c :: 0 <= c < |counts| ==> counts[c] == CountOf(s, c)
    ensures Sum(counts[..k]) == SumOfCounts(s, k)
  {
    if k > 0 {
      HistogramPrefixSum(counts, s, k - 1);
      assert counts[..k][..k - 1] == counts[..k - 1];
    }
  }

  /**
   * The out-link counts of all pages add up to the number of links, provided
   * every link's column names a page.
   */
  lemma HistogramSum(counts: seq<int>, columns: seq<int>)
    requires forall c :: 0 <= c < |counts| ==> counts[c] == CountOf(columns, c)
    requires forall l :: 0 <= l < |columns| ==> 0 <= columns[l] < |counts|
    ensures Sum(counts) == |columns|
  {
    HistogramPrefixSum(counts, columns, |counts|);
    SumOfCountsIsLength(columns, |counts|);
    assert counts[..|counts|] == counts;
  }

  /**
   * The zero positions are exactly the positions holding 0, listed in
   * strictly increasing order, and there are as many as there are zeros.
   */
  lemma {:induction false} ZeroPositionsSpec(s: seq<int>)
    ensures |ZeroPositions(s)| == CountOf(s, 0)
    ensures forall i, j :: 0 <= i < j < |ZeroPositions(s)| ==> ZeroPositions(s)[i] < ZeroPositions(s)[j]
    ensures forall i :: 0 <= i < |ZeroPositions(s)| ==> 0 <= ZeroPositions(s)[i] < |s|
    ensures forall p :: 0 <= p < |s| ==> (p in ZeroPositions(s) <==> s[p] == 0)
  {
    if s != [] {
      var t := s[..|s| - 1];
      ZeroPositionsSpec(t);
      forall p | 0 <= p < |t|
        ensures s[p] == t[p]
      {
      }
    }
  }

  /** Looking one entry further appends its position if it holds 0. */
  lemma ZeroPositionsNext(s: seq<int>, i: nat)
    requires i < |s|
    ensures ZeroPositions(s[..i + 1]) == ZeroPositions(s[..i]) + (if s[i] == 0 then [i] else [])
  {
    assert s[..i + 1][..i] == s[..i];
  }

  // ---------------------------------------------------------------------------
  // The pre-processing loops

  /** Subtracts 1 from each of the first `count` entries of `a`, in place. */
  method DecrementAll(a: array<int>, count: nat)
    requires count <= a.Length
    modifies a
    ensures forall i :: 0 <= i < count ==> a[i] == old(a[i]) - 1
    ensures a[count..] == old(a[count..])
  {
    for i := 0 to count
      invariant forall i' :: 0 <= i' < i ==> a[i'] == old(a[i']) - 1
      invariant a[i..] == old(a[i..])
    {
      a[i] := a[i] - 1;
    }
  }

  /**
   * Converts the 1-based indices of the compressed sparse row form to
   * 0-based ones: each of the links_count column indices and each of the
   * pages_count + 1 row boundaries goes down by exactly 1.
   */
  method Rebase(columns: array<int>, rows: array<int>, linksCount: nat, pagesCount: nat)
    requires columns != rows && linksCount <= columns.Length && pagesCount + 1 <= rows.Length
    modifies columns, rows
    ensures forall l :: 0 <= l < linksCount ==> columns[l] == old(columns[l]) - 1
    ensures forall p :: 0 <= p <= pagesCount ==> rows[p] == old(rows[p]) - 1
    ensures columns[linksCount..] == old(columns[linksCount..]) && rows[pagesCount + 1..] == old(rows[pagesCount + 1..])
  {
    DecrementAll(columns, linksCount);
    DecrementAll(rows, pagesCount + 1);
  }

  /**
   * Allocates the zeroed out-link table of pages_count pages and counts, for
   * every page, the links whose (0-based) column is that page. Every column
   * index must name a page, or the increment writes out of bounds.
   */
  method CountOutLinks(columns: array<int>, linksCount: nat, pagesCount: nat) returns (pageLinksCount: array<int>)
    requires linksCount <= columns.Length
    requires forall l :: 0 <= l < linksCount ==> 0 <= columns[l] < pagesCount
    ensures fresh(pageLinksCount) && pageLinksCount.Length == pagesCount
    ensures forall c :: 0 <= c < pagesCount ==> pageLinksCount[c] == CountOf(columns[..linksCount], c)
  {
    pageLinksCount := new int[pagesCount](_ => 0);
    for link := 0 to linksCount
      invariant forall c :: 0 <= c < pagesCount ==> pageLinksCount[c] == CountOf(columns[..link], c)
    {
      var columnIndex := columns[link];
      pageLinksCount[columnIndex] := pageLinksCount[columnIndex] + 1;
      forall c | 0 <= c < pagesCount
        ensures pageLinksCount[c] == CountOf(columns[..link + 1], c)
      {
        CountOfNext(columns[..], link, c);
        assert columns[..][..link + 1] == columns[..link + 1] && columns[..][..link] == columns[..link];
      }
    }
    assert columns[..linksCount] == columns[..][..linksCount];
  }

  /** Counts the pages among the first pages_count that have no out-links. */
  method CountLinkFreePages(pageLinksCount: array<int>, pagesCount: nat) returns (linkFreePagesCount: nat)
    requires pagesCount <= pageLinksCount.Length
    ensures linkFreePagesCount == CountOf(pageLinksCount[..pagesCount], 0)
  {
    ghost var s := pageLinksCount[..pagesCount];
    linkFreePagesCount := 0;
    for page := 0 to pagesCount
      invariant linkFreePagesCount == CountOf(s[..page], 0)
    {
      CountOfNext(s, page, 0);
      if pageLinksCount[page] == 0 {
        linkFreePagesCount := linkFreePagesCount + 1;
      }
    }
    assert s[..pagesCount] == s;
  }

  /**
   * Writes the pages without out-links, in increasing order, into a table
   * sized to hold exactly them. The write index never passes the table's end.
   */
  method FillLinkFreePages(pageLinksCount: array<int>, pagesCount: nat, linkFreePages: array<int>)
    requires pagesCount <= pageLinksCount.Length && pageLinksCount != linkFreePages
    requires linkFreePages.Length == CountOf(pageLinksCount[..pagesCount], 0)
    modifies linkFreePages
    ensures linkFreePages[..] == ZeroPositions(pageLinksCount[..pagesCount])
  {
    ghost var s := pageLinksCount[..pagesCount];
    var linkFreePageIndex := 0;
    for page := 0 to pagesCount
      invariant linkFreePageIndex == CountOf(s[..page], 0) <= linkFreePages.Length
      invariant linkFreePages[..linkFreePageIndex] == ZeroPositions(s[..page])
    {
      CountOfNext(s, page, 0);
      CountOfPrefix(s, page + 1, 0);
      ZeroPositionsNext(s, page);
      ZeroPositionsSpec(s[..page]);
      if pageLinksCount[page] == 0 {
        linkFreePages[linkFreePageIndex] := page;
        linkFreePageIndex := linkFreePageIndex + 1;
      }
    }
    assert s[..pagesCount] == s;
    assert linkFreePages[..] == linkFreePages[..linkFreePageIndex];
  }

  /**
   * Counts the pages without out-links, allocates a table of that size and
   * fills it with those pages, in increasing order.
   */
  method LinkFreePages(pageLinksCount: array<int>, pagesCount: nat)
    returns (linkFreePagesCount: nat, linkFreePages: array<int>)
    requires pagesCount <= pageLinksCount.Length
    ensures linkFreePagesCount == CountOf(pageLinksCount[..pagesCount], 0)
    ensures fresh(linkFreePages) && linkFreePages.Length == linkFreePagesCount
    ensures linkFreePages[..] == ZeroPositions(pageLinksCount[..pagesCount])
  {
    linkFreePagesCount := CountLinkFreePages(pageLinksCount, pagesCount);
    linkFreePages := new int[linkFreePagesCount];
    FillLinkFreePages(pageLinksCount, pagesCount, linkFreePages);
  }

  /**
   * The pre-processing as the test driver runs it on a matrix whose 1-based
   * column indices all name one of the pages_count pages: afterwards the
   * indices are 0-based, every page's out-links are counted (the counts add
   * up to links_count), and the pages without out-links are listed in
   * increasing order.
   */
  method Preprocess(columns: array<int>, rows: array<int>, linksCount: nat, pagesCount: nat)
    returns (pageLinksCount: array<int>, linkFreePagesCount: nat, linkFreePages: array<int>)
    requires columns != rows && linksCount <= columns.Length && pagesCount + 1 <= rows.Length
    requires forall l :: 0 <= l < linksCount ==> 1 <= columns[l] <= pagesCount
    modifies columns, rows
    ensures forall l :: 0 <= l < linksCount ==> columns[l] == old(columns[l]) - 1
    ensures forall p :: 0 <= p <= pagesCount ==> rows[p] == old(rows[p]) - 1
    ensures fresh(pageLinksCount) && pageLinksCount.Length == pagesCount
    ensures forall c :: 0 <= c < pagesCount ==> pageLinksCount[c] == CountOf(columns[..linksCount], c)
    ensures Sum(pageLinksCount[..]) == linksCount
    ensures linkFreePagesCount == CountOf(pageLinksCount[..], 0)
    ensures fresh(linkFreePages) && linkFreePages[..] == ZeroPositions(pageLinksCount[..])
  {
    Rebase(columns, rows, linksCount, pagesCount);
    pageLinksCount := CountOutLinks(columns, linksCount, pagesCount);
    HistogramSum(pageLinksCount[..], columns[..linksCount]);
    linkFreePagesCount, linkFreePages := LinkFreePages(pageLinksCount, pagesCount);
    assert pageLinksCount[..pagesCount] == pageLinksCount[..];
  }
}
