/**
  The table pager of the application shell: a zero-based page index over the loaded
  records, a fixed page size, the window of records the map and table show, the
  Previous / Next transitions and the "Page p of c" label.
 */
module Pager {
  import opened Decimal

  type PageSize = s: nat | s > 0 witness 1

  /** The page size the shell starts with; nothing ever changes it. */
  const DefaultPageSize: PageSize := 10000

  datatype PagerState = PagerState(pageNumber: nat, pageSize: PageSize)

  /** The state before any click: first page, default size. */
  const Initial: PagerState := PagerState(0, DefaultPageSize)

  function Min(a: int, b: int): int {
    if a <= b then a else b
  }

  function Max(a: int, b: int): int {
    if a >= b then a else b
  }

  /** `Math.ceil(n / s)`: the least page count whose pages cover `n` records. */
  function PageCount(n: nat, s: PageSize): (c: nat)
    ensures c * s >= n
    ensures c > 0 ==> (c - 1) * s < n
    ensures c == 0 <==> n == 0
  {
    var c := (n + s - 1) / s;
    assert c * s + (n + s - 1) % s == n + s - 1;
    assert c > 0 ==> (c - 1) * s == c * s - s;
    c
  }

  /** `xs.slice(start, end)` for non-negative bounds: both bounds are clamped to the
      length, and the result is empty when the clamped end is not past the start. */
  function JsSlice<T>(xs: seq<T>, start: nat, end: nat): (r: seq<T>)
    ensures |r| == Max(0, Min(end, |xs|) - Min(start, |xs|))
    ensures forall i :: 0 <= i < |r| ==> start + i < |xs| && r[i] == xs[start + i]
  {
    var lo := Min(start, |xs|);
    var hi := Min(end, |xs|);
    if hi <= lo then [] else xs[lo..hi]
  }

  /** The records shown on page `p`: `records.slice(p * s, p * s + s)`. */
  function VisibleSlice<T>(records: seq<T>, p: nat, s: PageSize): (r: seq<T>)
    ensures r == records[Min(p * s, |records|)..Min(p * s + s, |records|)]
    ensures |r| == if p * s < |records| then Min(s, |records| - p * s) else 0
    ensures forall i :: 0 <= i < |r| ==> r[i] == records[p * s + i]
  {
    JsSlice(records, p * s, p * s + s)
  }

  /** The Previous button: one page back, never below the first page. */
  function Previous(st: PagerState): (r: PagerState)
    ensures r.pageSize == st.pageSize
    ensures r.pageNumber <= st.pageNumber
    ensures st.pageNumber == 0 ==> r.pageNumber == 0
    ensures st.pageNumber > 0 ==> r.pageNumber + 1 == st.pageNumber
  {
    PagerState(Max(0, st.pageNumber - 1), st.pageSize)
  }

  /** The Next button: one page forward, clamped at `PageCount(n, s)` (the count, not
      the last index, so the page one past the last one is reachable). */
  function Next(st: PagerState, n: nat): (r: PagerState)
    ensures r.pageSize == st.pageSize
    ensures r.pageNumber <= PageCount(n, st.pageSize)
    ensures st.pageNumber < PageCount(n, st.pageSize) ==> r.pageNumber == st.pageNumber + 1
    ensures st.pageNumber >= PageCount(n, st.pageSize) ==> r.pageNumber == PageCount(n, st.pageSize)
  {
    PagerState(Min(PageCount(n, st.pageSize), st.pageNumber + 1), st.pageSize)
  }

  /** The text between the two buttons. */
  function Label(st: PagerState, n: nat): string {
    "Page " + NatToString(st.pageNumber + 1) + " of " + NatToString(PageCount(n, st.pageSize))
  }

  /** The label names the displayed page number and the page count, and both can be read back. */
  lemma LabelReadsBack(st: PagerState, n: nat)
    ensures var l := Label(st, n);
      var a := NatToString(st.pageNumber + 1);
      && l[..5] == "Page "
      && l[5..5 + |a|] == a
      && ParseNat(l[5..5 + |a|]) == st.pageNumber + 1
      && l[5 + |a|..9 + |a|] == " of "
      && ParseNat(l[9 + |a|..]) == PageCount(n, st.pageSize)
  {
    var a := NatToString(st.pageNumber + 1);
    var b := NatToString(PageCount(n, st.pageSize));
    var l := Label(st, n);
    assert l == "Page " + a + " of " + b;
    assert l[5..5 + |a|] == a;
    assert l[9 + |a|..] == b;
    ParseNatOfNatToString(st.pageNumber + 1);
    ParseNatOfNatToString(PageCount(n, st.pageSize));
  }

  datatype Click = PreviousClick | NextClick

  function Step(st: PagerState, c: Click, n: nat): PagerState {
    match c
    case PreviousClick => Previous(st)
    case NextClick => Next(st, n)
  }

  /** The state after a sequence of clicks, with `n` records loaded throughout. */
  function Run(st: PagerState, clicks: seq<Click>, n: nat): PagerState
    decreases |clicks|
  {
    if clicks == [] then st else Run(Step(st, clicks[0], n), clicks[1..], n)
  }

  /** Clicks keep the page size, and keep the index within `0 .. PageCount(n, s)`. */
  lemma {:induction false} RunStaysInRange(st: PagerState, clicks: seq<Click>, n: nat)
    requires st.pageNumber <= PageCount(n, st.pageSize)
    ensures Run(st, clicks, n).pageSize == st.pageSize
    ensures Run(st, clicks, n).pageNumber <= PageCount(n, st.pageSize)
    decreases |clicks|
  {
    if clicks != [] {
      RunStaysInRange(Step(st, clicks[0], n), clicks[1..], n);
    }
  }

  function NextClicks(k: nat): (r: seq<Click>)
    ensures |r| == k
    ensures forall i :: 0 <= i < k ==> r[i] == NextClick
  {
    seq(k, _ => NextClick)
  }

  /** From page `p`, `k` Next clicks reach `min(p + k, PageCount)` (for `p` in range). */
  lemma {:induction false} RunNextClicks(st: PagerState, k: nat, n: nat)
    requires st.pageNumber <= PageCount(n, st.pageSize)
    ensures Run(st, NextClicks(k), n) == PagerState(Min(st.pageNumber + k, PageCount(n, st.pageSize)), st.pageSize)
    decreases k
  {
    if k > 0 {
      assert NextClicks(k)[1..] == NextClicks(k - 1);
      RunNextClicks(Next(st, n), k - 1, n);
    }
  }

  /** Once at `PageCount`, Next changes nothing. */
  lemma NextIdempotentAtBound(st: PagerState, n: nat)
    requires st.pageNumber == PageCount(n, st.pageSize)
    ensures Next(st, n) == st
    ensures Next(Next(st, n), n) == Next(st, n)
  {
  }

  /** The index `PageCount(n, s)` is reachable from the initial state with Next alone;
      there the window is empty and the label reads "Page c+1 of c". */
  lemma OvershootPage<T>(records: seq<T>)
    ensures var c := PageCount(|records|, DefaultPageSize);
      var st := Run(Initial, NextClicks(c), |records|);
      && st.pageNumber == c
      && VisibleSlice(records, st.pageNumber, st.pageSize) == []
      && Label(st, |records|) == "Page " + NatToString(c + 1) + " of " + NatToString(c)
  {
    var c := PageCount(|records|, DefaultPageSize);
    RunNextClicks(Initial, c, |records|);
  }

  /** Pages `0 .. k-1` laid end to end. */
  function Pages<T>(records: seq<T>, s: PageSize, k: nat): seq<T>
    decreases k
  {
    if k == 0 then [] else Pages(records, s, k - 1) + VisibleSlice(records, k - 1, s)
  }

  /** The first `k` pages are the first `min(k * s, n)` records, in order. */
  lemma {:induction false} PagesArePrefix<T>(records: seq<T>, s: PageSize, k: nat)
    ensures Pages(records, s, k) == records[..Min(k * s, |records|)]
    decreases k
  {
    if k > 0 {
      PagesArePrefix(records, s, k - 1);
      assert (k - 1) * s + s == k * s;
      assert (k - 1) * s <= k * s;
      var a := Min((k - 1) * s, |records|);
      var b := Min(k * s, |records|);
      assert records[..a] + records[a..b] == records[..b];
    }
  }

  /** The pages `0 .. PageCount(n, s) - 1` concatenate back to the whole record sequence. */
  lemma PagesCoverRecords<T>(records: seq<T>, s: PageSize)
    ensures Pages(records, s, PageCount(|records|, s)) == records
  {
    PagesArePrefix(records, s, PageCount(|records|, s));
    assert records[..|records|] == records;
  }

  /** The shell starts on the first page with 10000 records per page; with nothing loaded
      (before the fetch settles, or after it fails) the label is "Page 1 of 0". */
  lemma EmptyLabel()
    ensures Initial.pageNumber == 0 && Initial.pageSize == 10000
    ensures Label(Initial, 0) == "Page 1 of 0"
  {
  }

  /** 25 records, 10 per page: "Page 1 of 3" with 10 rows; two Next clicks give
      "Page 3 of 3" with 5 rows; a third gives "Page 4 of 3" with none. */
  lemma TwentyFiveRecordsScenario<T>(records: seq<T>)
    requires |records| == 25
    ensures var st := PagerState(0, 10);
      && Label(st, 25) == "Page 1 of 3" && |VisibleSlice(records, 0, 10)| == 10
      && Run(st, [NextClick, NextClick], 25) == PagerState(2, 10)
      && Label(PagerState(2, 10), 25) == "Page 3 of 3" && |VisibleSlice(records, 2, 10)| == 5
      && Run(st, [NextClick, NextClick, NextClick], 25) == PagerState(3, 10)
      && Label(PagerState(3, 10), 25) == "Page 4 of 3" && |VisibleSlice(records, 3, 10)| == 0
      && Run(st, [NextClick, NextClick, NextClick, NextClick], 25) == PagerState(3, 10)
  {
    assert PageCount(25, 10) == 3;
  }
}
