/** Cutting a list into pages, and the text of one page. */
module Pages {
  import opened Decimal

  const INT_MAX := 0x7FFF_FFFF

  datatype Solution = Solution(title: string, content: string, status: string, voteCount: int, id: int, creationDate: int)

  /** A list whose size survives the cast to `int`. */
  type SolutionList = s: seq<Solution> | |s| <= 0x7FFF_FFFF

  function Min(a: int, b: int): int {
    if a < b then a else b
  }

  function PageStart(page: nat, k: nat): nat {
    page * k
  }

  function PageEnd(n: nat, page: nat, k: nat): nat {
    Min(n, page * k + k)
  }

  function PageCount(n: nat, k: nat): nat
    requires k > 0
  {
    (n + k - 1) / k
  }

  /** `std::to_string` of a signed number. */
  function IntText(n: int): string {
    if n < 0 then "-" + ToString(-n) else ToString(n)
  }

  function Entry(i: nat, s: Solution): string {
    IntText(i + 1) + ". Title: " + s.title + ", id: " + IntText(s.id) + ", status: " + s.status
    + ", created at: " + IntText(s.creationDate) + ", vote count: " + IntText(s.voteCount)
    + ", solution: " + s.content + "\n"
  }

  /** Entries `lo` up to but not including `hi`. */
  function Entries(solutions: seq<Solution>, lo: nat, hi: nat): string
    requires lo < hi ==> hi <= |solutions|
  {
    if lo >= hi then "" else Entries(solutions, lo, hi - 1) + Entry(hi - 1, solutions[hi - 1])
  }

  function Footer(n: nat, page: nat): string {
    "\nPage " + IntText(page + 1) + " / " + IntText(n)
  }

  /** The code's page size is 1. */
  function PageContent(solutions: seq<Solution>, page: nat): string {
    Entries(solutions, PageStart(page, 1), PageEnd(|solutions|, page, 1)) + Footer(PageCount(|solutions|, 1), page)
  }

  lemma PageParts(solutions: seq<Solution>, page: nat)
    ensures PageContent(solutions, page) == Entries(solutions, page, Min(|solutions|, page + 1)) + Footer(|solutions|, page)
    ensures PageCount(|solutions|, 1) == |solutions|
  {
    assert PageStart(page, 1) == page && PageEnd(|solutions|, page, 1) == Min(|solutions|, page + 1);
  }

  lemma EntriesStep(solutions: seq<Solution>, lo: nat, i: nat)
    requires lo <= i < |solutions|
    ensures Entries(solutions, lo, i + 1) == Entries(solutions, lo, i) + Entry(i, solutions[i])
  {
  }

  lemma EntriesDone(solutions: seq<Solution>, start: nat, end: nat, i: nat)
    requires end <= |solutions| && if start < end then i == end else i == start
    ensures Entries(solutions, start, i) == Entries(solutions, start, end)
  {
  }

  method BuildSolutionsPage(solutions: SolutionList, currentPage: int) returns (content: string)
    requires 0 <= currentPage < INT_MAX
    ensures content == PageContent(solutions, currentPage)
  {
    var perPage := 1;
    content := "";
    var start := currentPage * perPage;
    var end := Min(|solutions|, start + perPage);
    var i := start;
    while i < end
      invariant start <= i && (if start < end then i <= end else i == start)
      invariant content == Entries(solutions, start, i)
    {
      EntriesStep(solutions, start, i);
      content := content + Entry(i, solutions[i]);
      i := i + 1;
    }
    EntriesDone(solutions, start, end, i);
    PageParts(solutions, currentPage);
    var totalPages := (|solutions| + perPage - 1) / perPage;
    content := content + Footer(totalPages, currentPage);
  }

  lemma OneEntry(solutions: seq<Solution>, page: nat)
    requires page < |solutions|
    ensures Entries(solutions, page, page + 1) == Entry(page, solutions[page])
  {
    var e := Entry(page, solutions[page]);
    assert Entries(solutions, page, page) == "";
    assert Entries(solutions, page, page + 1) == "" + e == e;
  }

  /** A page inside the list shows exactly its entry; a page outside shows none. */
  lemma PageShowsOneEntry(solutions: seq<Solution>, page: nat)
    ensures PageContent(solutions, page)
         == (if page < |solutions| then Entry(page, solutions[page]) else "") + Footer(|solutions|, page)
  {
    PageParts(solutions, page);
    if page < |solutions| {
      OneEntry(solutions, page);
    }
  }

  lemma SignedText(n: int)
    ensures n >= 0 ==> IntText(n) == ToString(n)
    ensures n < 0 ==> IntText(n) == "-" + ToString(-n)
  {
  }

  lemma EntryText(i: nat, s: Solution, line: string)
    requires line == ToString(i + 1) + ". Title: " + s.title + ", id: " + IntText(s.id) + ", status: " + s.status
                     + ", created at: " + IntText(s.creationDate) + ", vote count: " + IntText(s.voteCount)
                     + ", solution: " + s.content + "\n"
    ensures Entry(i, s) == line
  {
    SignedText(i + 1);
  }

  lemma FooterText(n: nat, page: nat, footer: string)
    requires footer == "\nPage " + ToString(page + 1) + " / " + ToString(n)
    ensures Footer(n, page) == footer
  {
    SignedText(page + 1);
    SignedText(n);
  }

  /** The whole text of a page, written out: `line` is the entry of the page and `footer` the last line. */
  lemma PageText(solutions: seq<Solution>, page: nat, line: string, footer: string)
    requires footer == "\nPage " + ToString(page + 1) + " / " + ToString(|solutions|)
    requires page < |solutions| ==>
               var s := solutions[page];
               line == ToString(page + 1) + ". Title: " + s.title + ", id: " + IntText(s.id) + ", status: " + s.status
                       + ", created at: " + IntText(s.creationDate) + ", vote count: " + IntText(s.voteCount)
                       + ", solution: " + s.content + "\n"
    ensures PageContent(solutions, page) == if page < |solutions| then line + footer else footer
  {
    PageShowsOneEntry(solutions, page);
    FooterText(|solutions|, page, footer);
    if page < |solutions| {
      EntryText(page, solutions[page], line);
    } else {
      assert "" + footer == footer;
    }
  }

  // ----- windows for any page size -----

  lemma MulMonotone(a: nat, b: nat, k: nat)
    requires a <= b
    ensures a * k <= b * k
  {
    assert b * k == a * k + (b - a) * k;
  }

  lemma CountBounds(n: nat, k: nat)
    requires k > 0
    ensures var q := PageCount(n, k); n <= q * k < n + k
  {
    var q, r := (n + k - 1) / k, (n + k - 1) % k;
    assert n + k - 1 == q * k + r;
  }

  /** Windows below the page count are non-empty and in range, each starts where the one before ends,
      and the last ends with the list. */
  lemma WindowsInOrder(n: nat, k: nat, p: nat)
    requires k > 0 && p < PageCount(n, k)
    ensures PageStart(p, k) < PageEnd(n, p, k) <= n
    ensures p + 1 < PageCount(n, k) ==> PageEnd(n, p, k) == PageStart(p + 1, k) == PageStart(p, k) + k
    ensures p + 1 == PageCount(n, k) ==> PageEnd(n, p, k) == n
  {
    var q := PageCount(n, k);
    CountBounds(n, k);
    MulMonotone(p + 1, q, k);
    assert (p + 1) * k == p * k + k;
    if p + 1 < q {
      MulMonotone(p + 2, q, k);
      assert (p + 2) * k == p * k + k + k;
    }
  }

  lemma EarlierWindowEnds(n: nat, k: nat, p: nat, q: nat)
    requires p < q
    ensures PageEnd(n, p, k) <= q * k
  {
    MulMonotone(p + 1, q, k);
    assert (p + 1) * k == p * k + k;
  }

  lemma LaterWindowStarts(k: nat, p: nat, q: nat)
    requires q < p
    ensures q * k + k <= PageStart(p, k)
  {
    MulMonotone(q + 1, p, k);
    assert (q + 1) * k == q * k + k;
  }

  lemma OwnWindow(n: nat, k: nat, i: nat, q: nat)
    requires k > 0 && i < n && q == i / k
    ensures PageStart(q, k) == q * k <= i < q * k + k
    ensures i < PageEnd(n, q, k) && q < PageCount(n, k)
  {
    assert i == q * k + i % k;
    CountBounds(n, k);
    if PageCount(n, k) <= q {
      MulMonotone(PageCount(n, k), q, k);
    }
  }

  /** Every index lies in exactly one window. */
  lemma WindowsPartition(n: nat, k: nat, i: nat, p: nat)
    requires k > 0 && i < n
    ensures i / k < PageCount(n, k)
    ensures PageStart(p, k) <= i < PageEnd(n, p, k) <==> p == i / k
  {
    var q := i / k;
    OwnWindow(n, k, i, q);
    if p < q {
      EarlierWindowEnds(n, k, p, q);
    } else if p > q {
      LaterWindowStarts(k, p, q);
    }
  }

  /** The first `p` windows, joined. */
  function Join<T>(xs: seq<T>, k: nat, p: nat): seq<T>
    requires k > 0 && p <= PageCount(|xs|, k)
  {
    if p == 0 then []
    else
      WindowsInOrder(|xs|, k, p - 1);
      Join(xs, k, p - 1) + xs[PageStart(p - 1, k)..PageEnd(|xs|, p - 1, k)]
  }

  lemma {:induction false} JoinPrefix<T>(xs: seq<T>, k: nat, p: nat)
    requires k > 0 && p <= PageCount(|xs|, k)
    ensures Join(xs, k, p) == xs[..Min(|xs|, p * k)]
    decreases p
  {
    if p > 0 {
      WindowsInOrder(|xs|, k, p - 1);
      JoinPrefix(xs, k, p - 1);
      assert p * k == (p - 1) * k + k;
    }
  }

  /** The pages of any list, at any page size, join to the whole list. */
  lemma PagesJoinToList<T>(xs: seq<T>, k: nat)
    requires k > 0
    ensures Join(xs, k, PageCount(|xs|, k)) == xs
  {
    JoinPrefix(xs, k, PageCount(|xs|, k));
    CountBounds(|xs|, k);
  }
}
