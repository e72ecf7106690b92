/** One sync cycle: fetch page 1, work out the page count, fetch the other pages, and write every
    record of every fetched page to the table. The concurrent fan-out runs here as loops in launch
    order (pages 2..N, then page 1), and the `sync.WaitGroup` is kept as its counter. */
module SyncJob {
  import opened Wrappers
  import opened QFlowTypes
  import opened QFlow

  const PageSize: int := 50

  // ---------------------------------------------------------------------------
  // The page count
  // ---------------------------------------------------------------------------

  /** `int(math.Ceil(float64(total) / 50))`: the least page count whose pages hold `total`
      submissions. */
  function PageCount(total: int): (n: int)
    ensures (n - 1) * PageSize < total <= n * PageSize
  {
    -((-total) / PageSize)
  }

  /** For a real total the page count is the usual rounded-up integer division. */
  lemma PageCountOfCount(total: int)
    requires total >= 0
    ensures PageCount(total) == (total + PageSize - 1) / PageSize
  {
    var n := PageCount(total);
    var q := (total + PageSize - 1) / PageSize;
    assert q * PageSize <= total + PageSize - 1 < (q + 1) * PageSize;
    assert (n - 1) * PageSize < total <= n * PageSize;
  }

  /** There is at least one page exactly when there is at least one submission. */
  lemma PageCountPositive(total: int)
    ensures PageCount(total) >= 1 <==> total >= 1
  {
  }

  // ---------------------------------------------------------------------------
  // What a cycle fetches and writes
  // ---------------------------------------------------------------------------

  /** A page fetch (one GetValue call): page number and page size. */
  datatype Fetch = Fetch(page: int, size: int)

  /** One page fetch of the job. `waited` says, page by page, whether the fetch limiter's wait
      succeeded; `send` is the HTTP round trip. */
  function FetchPage(c: Client, waited: int -> bool, send: Request -> HttpOutcome, page: int)
    : Result<FilterResponse, FetchError>
  {
    GetValue(c, page, PageSize, waited(page), send)
  }

  /** The fetches for pages `lo..hi`, in order. */
  function PageFetches(lo: int, hi: int): (fs: seq<Fetch>)
    decreases hi - lo
    ensures |fs| == if hi < lo then 0 else hi - lo + 1
    ensures forall k :: 0 <= k < |fs| ==> fs[k] == Fetch(lo + k, PageSize)
  {
    if hi < lo then [] else PageFetches(lo, hi - 1) + [Fetch(hi, PageSize)]
  }

  /** The records a page contributes: the mapped page, or nothing when its fetch failed. */
  function PageRecords(c: Client, waited: int -> bool, send: Request -> HttpOutcome, page: int): seq<Record>
  {
    match FetchPage(c, waited, send, page)
    case Ok(r) => MapResponse(c, r)
    case Err(_) => []
  }

  /** The records of pages `lo..hi`, in order. */
  function PagesRecords(c: Client, waited: int -> bool, send: Request -> HttpOutcome, lo: int, hi: int)
    : seq<Record>
    decreases hi - lo
  {
    if hi < lo then [] else PagesRecords(c, waited, send, lo, hi - 1) + PageRecords(c, waited, send, hi)
  }

  /** The records whose write fails, in order. */
  function Failing(records: seq<Record>, writeFails: Record -> bool): seq<Record>
  {
    if |records| == 0 then []
    else
      var init := records[..|records| - 1];
      var last := records[|records| - 1];
      assert records == init + [last];
      Failing(init, writeFails) + if writeFails(last) then [last] else []
  }

  /** The failed writes are exactly the written records whose write fails, and no more of them. */
  lemma {:induction false} FailingMembers(records: seq<Record>, writeFails: Record -> bool)
    ensures |Failing(records, writeFails)| <= |records|
    ensures forall r :: r in Failing(records, writeFails) <==> r in records && writeFails(r)
  {
    if |records| > 0 {
      var init := records[..|records| - 1];
      assert records == init + [records[|records| - 1]];
      FailingMembers(init, writeFails);
    }
  }

  lemma {:induction false} FailingAppend(xs: seq<Record>, ys: seq<Record>, writeFails: Record -> bool)
    ensures Failing(xs + ys, writeFails) == Failing(xs, writeFails) + Failing(ys, writeFails)
  {
    if |ys| > 0 {
      var init := ys[..|ys| - 1];
      assert (xs + ys)[..|xs + ys| - 1] == xs + init;
      FailingAppend(xs, init, writeFails);
    } else {
      assert xs + ys == xs;
    }
  }

  /** The goroutines a cycle starts, each calling `Done` once: one per page 2..N, and one for
      page 1. */
  function Launched(pages: int): (n: int)
    ensures n >= 1
  {
    (if pages > 1 then pages - 1 else 0) + 1
  }

  /** The pages a cycle fetches once page 1 has been fetched, in launch order. */
  function FetchPlan(pages: int): seq<Fetch>
  {
    [Fetch(1, PageSize)] + PageFetches(2, pages)
  }

  /** The records a cycle writes once page 1 has been fetched, in launch order. */
  function WritePlan(c: Client, waited: int -> bool, send: Request -> HttpOutcome, first: FilterResponse)
    : seq<Record>
  {
    var pages := PageCount(first.data.total);
    if pages < 0 then [] else PagesRecords(c, waited, send, 2, pages) + MapResponse(c, first)
  }

  // ---------------------------------------------------------------------------
  // The cycle
  // ---------------------------------------------------------------------------

  /** `jobForResp`: every record of a page goes to the table once, in order; a failed write is
      only logged, so its siblings are still written. `pending` is the page's own WaitGroup,
      which every write drains by one. */
  method WritePage(records: seq<Record>, writeFails: Record -> bool)
    returns (written: seq<Record>, failed: seq<Record>, pending: int)
    ensures written == records
    ensures failed == Failing(records, writeFails)
    ensures pending == 0
  {
    pending := |records|;
    written := [];
    failed := [];
    for k := 0 to |records|
      invariant written == records[..k]
      invariant failed == Failing(records[..k], writeFails)
      invariant pending == |records| - k
    {
      assert records[..k + 1] == records[..k] + [records[k]];
      assert records[..k + 1][..k] == records[..k];
      written := written + [records[k]];
      if writeFails(records[k]) {
        failed := failed + [records[k]];
      }
      pending := pending - 1;
    }
    assert records[..|records|] == records;
  }

  /** The goroutines for pages 2..N, run one after another: each fetches its page, writes the
      records of a page that arrived, and calls `Done` once, whether or not its fetch failed. */
  method FetchLaterPages(c: Client, waited: int -> bool, send: Request -> HttpOutcome,
                         writeFails: Record -> bool, pages: int)
    returns (fetches: seq<Fetch>, writes: seq<Record>, failed: seq<Record>, dones: int)
    ensures fetches == PageFetches(2, pages)
    ensures writes == PagesRecords(c, waited, send, 2, pages)
    ensures failed == Failing(writes, writeFails)
    ensures dones == if pages > 1 then pages - 1 else 0
  {
    fetches, writes, failed, dones := [], [], [], 0;
    var i := 2;
    while i <= pages
      invariant 2 <= i <= if pages < 2 then 2 else pages + 1
      invariant fetches == PageFetches(2, i - 1)
      invariant writes == PagesRecords(c, waited, send, 2, i - 1)
      invariant failed == Failing(writes, writeFails)
      invariant dones == i - 2
    {
      assert PageFetches(2, i) == fetches + [Fetch(i, PageSize)];
      fetches := fetches + [Fetch(i, PageSize)];
      assert PagesRecords(c, waited, send, 2, i) == writes + PageRecords(c, waited, send, i);
      var r := FetchPage(c, waited, send, i);
      if r.Ok? {
        var w, f, _ := WritePage(MapResponse(c, r.value), writeFails);
        FailingAppend(writes, w, writeFails);
        writes := writes + w;
        failed := failed + f;
      } else {
        assert writes + PageRecords(c, waited, send, i) == writes;
      }
      dones := dones + 1;
      i := i + 1;
    }
  }

  /** The `job` closure. It returns the page fetches started (GetValue calls,
      including one whose limiter wait failed and so sent nothing), the records handed to the table,
      those whose write failed, the WaitGroup counter at the end, and whether the WaitGroup
      panicked (a negative counter). */
  method Job(c: Client, waited: int -> bool, send: Request -> HttpOutcome, writeFails: Record -> bool)
    returns (fetches: seq<Fetch>, writes: seq<Record>, failed: seq<Record>, counter: int, panicked: bool)
    ensures FetchPage(c, waited, send, 1).Err? ==>
      fetches == [Fetch(1, PageSize)] && writes == [] && counter == 0 && !panicked
    ensures FetchPage(c, waited, send, 1).Ok? ==>
      var first := FetchPage(c, waited, send, 1).value;
      var pages := PageCount(first.data.total);
      && fetches == (if pages < 0 then [Fetch(1, PageSize)] else FetchPlan(pages))
      && writes == WritePlan(c, waited, send, first)
      && counter == (if pages < 0 then pages else pages - Launched(pages))
      && (panicked <==> counter < 0)
    ensures failed == Failing(writes, writeFails)
  {
    fetches := [Fetch(1, PageSize)];
    writes := [];
    failed := [];
    counter := 0;
    panicked := false;
    var first := FetchPage(c, waited, send, 1);
    if first.Err? {
      return;
    }
    var pages := PageCount(first.value.data.total);
    counter := counter + pages;
    if counter < 0 {
      panicked := true;
      return;
    }
    var later, dones;
    later, writes, failed, dones := FetchLaterPages(c, waited, send, writeFails, pages);
    fetches := fetches + later;
    counter := counter - dones;
    var w, f, _ := WritePage(MapResponse(c, first.value), writeFails);
    FailingAppend(writes, w, writeFails);
    writes := writes + w;
    failed := failed + f;
    counter := counter - 1;
    panicked := counter < 0;
  }

  // ---------------------------------------------------------------------------
  // Properties of a cycle
  // ---------------------------------------------------------------------------

  /** Pages 1..N are each fetched once (one GetValue call each), in order, with page size 50:
      one fetch per goroutine the cycle starts. */
  lemma FetchPlanIsEachPageOnce(pages: int)
    ensures |FetchPlan(pages)| == Launched(pages)
    ensures forall k :: 0 <= k < |FetchPlan(pages)| ==> FetchPlan(pages)[k] == Fetch(k + 1, PageSize)
  {
    var plan := FetchPlan(pages);
    forall k | 1 <= k < |plan|
      ensures plan[k] == Fetch(k + 1, PageSize)
    {
      assert plan[k] == PageFetches(2, pages)[k - 1];
    }
  }

  /** 120 submissions are fetched in three GetValue calls. */
  lemma HundredTwentyInThreeFetches()
    ensures PageCount(120) == 3 && |FetchPlan(PageCount(120))| == 3
  {
    FetchPlanIsEachPageOnce(3);
  }

  /** The records of pages `lo..hi` are those before page `j`, then page `j`'s, then those after. */
  lemma {:induction false} PagesSplit(c: Client, waited: int -> bool, send: Request -> HttpOutcome, lo: int, j: int, hi: int)
    requires lo <= j <= hi
    decreases hi - j
    ensures PagesRecords(c, waited, send, lo, hi)
      == PagesRecords(c, waited, send, lo, j - 1) + PageRecords(c, waited, send, j) + PagesRecords(c, waited, send, j + 1, hi)
  {
    if j < hi {
      PagesSplit(c, waited, send, lo, j, hi - 1);
    }
  }

  /** Each later page's records sit in the cycle's writes as one block between the pages before
      and after it, and that block is empty exactly when the page's records are (a failed fetch
      loses that page only). */
  lemma PageIsolation(c: Client, waited: int -> bool, send: Request -> HttpOutcome, first: FilterResponse, j: int)
    requires 2 <= j <= PageCount(first.data.total)
    ensures WritePlan(c, waited, send, first)
      == PagesRecords(c, waited, send, 2, j - 1) + PageRecords(c, waited, send, j)
         + PagesRecords(c, waited, send, j + 1, PageCount(first.data.total)) + MapResponse(c, first)
    ensures FetchPage(c, waited, send, j).Err? ==> PageRecords(c, waited, send, j) == []
    ensures FetchPage(c, waited, send, j).Ok? ==>
      PageRecords(c, waited, send, j) == MapResponse(c, FetchPage(c, waited, send, j).value)
  {
    PagesSplit(c, waited, send, 2, j, PageCount(first.data.total));
  }

  /** The counter ends at zero exactly when there is at least one submission. */
  lemma CounterBalancedIff(total: int)
    requires PageCount(total) >= 0
    ensures PageCount(total) - Launched(PageCount(total)) == 0 <==> total >= 1
  {
  }

  /** An empty form: `Add(0)`, then page 1's goroutine calls `Done`, and the counter is -1. */
  lemma EmptyFormUnbalancesCounter()
    ensures PageCount(0) == 0 && PageCount(0) - Launched(PageCount(0)) == -1
  {
  }

  /** The values the counter takes: after `Add(add)`, then after each of `dones` calls to `Done`. */
  function CounterTrace(add: int, dones: nat): (t: seq<int>)
    ensures |t| == dones + 1
    ensures forall k :: 0 <= k < |t| ==> t[k] == add - k
  {
    if dones == 0 then [add] else CounterTrace(add, dones - 1) + [add - dones]
  }

  /** The counter `Job` ends with is the last value of the trace of `Add(pages)` followed by one
      `Done` per goroutine started; it is negative, and `Job` panics, exactly when some value of
      that trace is. */
  lemma {:induction false} JobCounterIsTraceEnd(total: int)
    requires PageCount(total) >= 0
    ensures var pages := PageCount(total);
      var t := CounterTrace(pages, Launched(pages));
      && t[|t| - 1] == pages - Launched(pages)
      && (pages - Launched(pages) < 0 <==> exists k :: 0 <= k < |t| && t[k] < 0)
  {
    var pages := PageCount(total);
    var t := CounterTrace(pages, Launched(pages));
    forall k | 0 <= k < |t| && t[k] < 0
      ensures t[|t| - 1] < 0
    {
    }
  }

  /** With the corrected `Add`, one per goroutine started (`Launched`), the counter is never
      negative and ends at zero, for every total. */
  lemma CorrectedCounterDrains(total: int)
    ensures var t := CounterTrace(Launched(PageCount(total)), Launched(PageCount(total)));
      (forall k :: 0 <= k < |t| ==> t[k] >= 0) && t[|t| - 1] == 0
  {
  }

  /** As written, an empty form drives the counter below zero. */
  lemma AsWrittenCounterGoesNegative()
    ensures var t := CounterTrace(PageCount(0), Launched(PageCount(0)));
      t[|t| - 1] == -1
  {
  }

  // ---------------------------------------------------------------------------
  // Dry run
  // ---------------------------------------------------------------------------

  /** How a dry run ends: fatal on a fetch error, an index-out-of-range panic on an empty page,
      or the first record shown. */
  datatype DryRunOutcome = FetchFatal(err: FetchError) | IndexPanic | Shown(record: Record)

  /** The dry run: fetch page 1 with page size 1 and show the first mapped record. */
  function DryRun(c: Client, waited: bool, send: Request -> HttpOutcome): (o: DryRunOutcome)
    ensures var r := GetValue(c, 1, 1, waited, send);
      && (o.FetchFatal? <==> r.Err?)
      && (o.IndexPanic? <==> r.Ok? && |r.value.data.list| == 0)
      && (o.Shown? ==> r.Ok? && o.record == ItemRecord(c, r.value.data.list[0]))
  {
    match GetValue(c, 1, 1, waited, send)
    case Err(e) => FetchFatal(e)
    case Ok(resp) =>
      var m := MapResponse(c, resp);
      if |m| == 0 then IndexPanic else Shown(m[0])
  }
}
