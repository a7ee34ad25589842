/** The transactions route: validate the request, walk the provider's pages
    backwards from the newest, keep the whitelisted records of today (UTC+8),
    and answer with the two buckets or an error status. */
module Collector {
  import opened Transactions
  import opened DayWindow

  /** What one fetch of a page yields: the decoded records, newest first, or a
      failure (a non-ok status or a transport error). A body that is not an
      array of records is not modelled and is taken as a failure too. */
  datatype Response = Page(records: seq<Record>) | Failed

  /** The provider is the finite list of its answers to the route's successive
      fetches; once that list is used up the history is exhausted and every
      further fetch yields an empty page. */
  function Fetch(provider: seq<Response>, n: nat): Response {
    if n < |provider| then provider[n] else Page([])
  }

  function Last(page: seq<Record>): Record
    requires page != []
  {
    page[|page| - 1]
  }

  /** The `before` query parameter of a fetch: the last signature seen, unless
      there is none or it is the empty string (both falsy in JavaScript). */
  function BeforeParam(lastSignature: Option<string>): (before: Option<string>)
    ensures before.Some? ==> before == lastSignature && before.value != ""
    ensures lastSignature.Some? && lastSignature.value != "" ==> before == lastSignature
  {
    if lastSignature.Some? && lastSignature.value != "" then lastSignature else None
  }

  /** Fetch `n` returned a non-empty page, and `before` is the cursor taken
      from its last record. */
  predicate CursorFromPage(provider: seq<Response>, n: nat, before: Option<string>) {
    var r := Fetch(provider, n);
    r.Page? && r.records != [] && before == BeforeParam(Some(Last(r.records).signature))
  }

  /** The cursor rule: the first fetch has no `before`, and every later fetch
      passes the signature of the last record of the page fetched just before. */
  predicate CursorsFollowPages(provider: seq<Response>, requests: seq<Option<string>>) {
    && (|requests| > 0 ==> requests[0] == None)
    && forall i :: 0 < i < |requests| ==> CursorFromPage(provider, i - 1, requests[i])
  }

  /** `before` is the cursor the rule prescribes for the fetch that follows
      the fetches already listed in `requests`. */
  predicate IsNextCursor(provider: seq<Response>, requests: seq<Option<string>>, before: Option<string>) {
    if requests == [] then before == None else CursorFromPage(provider, |requests| - 1, before)
  }

  lemma CursorsExtend(provider: seq<Response>, requests: seq<Option<string>>, before: Option<string>)
    requires CursorsFollowPages(provider, requests)
    requires IsNextCursor(provider, requests, before)
    ensures CursorsFollowPages(provider, requests + [before])
  {
  }

  /** How many records at the head of `page` are inside the window: the scan
      stops at the first record older than `cutoff`. */
  function WindowLength(page: seq<Record>, cutoff: int): (n: nat)
    ensures n <= |page|
    ensures forall j :: 0 <= j < n ==> page[j].timestamp >= cutoff
    ensures n < |page| ==> page[n].timestamp < cutoff
  {
    if page == [] || page[0].timestamp < cutoff then 0
    else 1 + WindowLength(page[1..], cutoff)
  }

  /** The outcome of the fetch loop: the accumulated records, or None when a
      fetch failed, and how many fetches were issued. */
  datatype Run = Run(collected: Option<seq<Record>>, fetches: nat)

  /** `run` after `acc` was accumulated over `n` earlier fetches. */
  function After(acc: seq<Record>, n: nat, run: Run): Run {
    Run(if run.collected.Some? then Some(acc + run.collected.value) else None, n + run.fetches)
  }

  lemma AfterAfter(acc: seq<Record>, n: nat, more: seq<Record>, run: Run)
    ensures After(acc, n, After(more, 1, run)) == After(acc + more, n + 1, run)
  {
    if run.collected.Some? {
      assert acc + (more + run.collected.value) == (acc + more) + run.collected.value;
    }
  }

  /** The fetch loop from fetch number `n` on. A failed fetch discards
      everything; an empty page ends the loop; a page is scanned up to its first
      record older than `cutoff`, and that record ends the loop; a page wholly
      inside the window is followed by the next fetch. */
  function Collect(provider: seq<Response>, cutoff: int, n: nat): (run: Run)
    ensures run.fetches >= 1
    decreases |provider| - n
  {
    match Fetch(provider, n)
    case Failed => Run(None, 1)
    case Page(txs) =>
      if txs == [] then Run(Some([]), 1)
      else
        var w := WindowLength(txs, cutoff);
        var kept := AdmitAll(txs[..w]);
        if w < |txs| then Run(Some(kept), 1)
        else After(kept, 1, Collect(provider, cutoff, n + 1))
  }

  const MissingAddressMessage := "请提供 Solana 钱包地址"
  const MissingKeyMessage := "API Key 未配置，请开发者自行创建 .env.local 并填入密钥"
  const FetchFailedMessage := "获取链上数据失败"

  /** The route's JSON answer: the data on success, else a status and message. */
  datatype Reply = Success(data: Bundle) | Error(status: nat, message: string)

  /** A reply together with the number of fetches issued to produce it. */
  datatype Served = Served(reply: Reply, fetches: nat)

  /** A query parameter or setting that is present and not the empty string. */
  predicate Present(param: Option<string>) {
    param.Some? && param.value != ""
  }

  /** The whole request: the address check (400), the API key check (500),
      then the fetch loop from the start of today, whose failure is a 500 and
      whose records are split into the two buckets. */
  function Serve(address: Option<string>, apiKey: Option<string>, nowSec: nat, provider: seq<Response>): (s: Served)
    ensures !Present(address) ==> s == Served(Error(400, MissingAddressMessage), 0)
    ensures Present(address) && !Present(apiKey) ==> s == Served(Error(500, MissingKeyMessage), 0)
    ensures s.reply.Success? ==> s.reply.data.total == |s.reply.data.swaps| + |s.reply.data.stakes|
  {
    if !Present(address) then Served(Error(400, MissingAddressMessage), 0)
    else if !Present(apiKey) then Served(Error(500, MissingKeyMessage), 0)
    else
      var run := Collect(provider, StartOfDayUtc8(nowSec), 0);
      if run.collected.Some? then Served(Success(Assemble(run.collected.value)), run.fetches)
      else Served(Error(500, FetchFailedMessage), run.fetches)
  }

  /** The scan of one fetched page, newest record first: every record at or
      after the cutoff goes through the whitelist, and the first record before
      it stops the scan and reports that the boundary was crossed. */
  method ScanPage(txs: seq<Record>, startOfDay: int) returns (kept: seq<Record>, crossed: bool)
    ensures crossed <==> exists j :: 0 <= j < |txs| && txs[j].timestamp < startOfDay
    ensures crossed <==> WindowLength(txs, startOfDay) < |txs|
    ensures kept == AdmitAll(txs[..WindowLength(txs, startOfDay)])
  {
    kept := [];
    crossed := false;
    for i := 0 to |txs|
      invariant forall j :: 0 <= j < i ==> txs[j].timestamp >= startOfDay
      invariant kept == AdmitAll(txs[..i])
    {
      var tx := txs[i];
      if tx.timestamp >= startOfDay {
        if tx.kind == Swap {
          kept := kept + [tx];
        } else if tx.kind == Unknown {
          tx := tx.(kind := Stake, description := SeekerStakeNote);
          kept := kept + [tx];
        } else if tx.kind == Stake || tx.kind == Unstake {
          kept := kept + [tx];
        }
        assert txs[..i + 1] == txs[..i] + [txs[i]];
        AdmitAllSnoc(txs[..i], txs[i]);
      } else {
        assert WindowLength(txs, startOfDay) == i;
        crossed := true;
        break;
      }
    }
    if !crossed {
      assert txs[..|txs|] == txs;
    }
  }

  /** The GET handler. `requests` lists the `before` parameter of each fetch in
      the order issued (None: no `before`). */
  method Get(address: Option<string>, apiKey: Option<string>, nowSec: nat, provider: seq<Response>)
    returns (reply: Reply, requests: seq<Option<string>>)
    ensures Served(reply, |requests|) == Serve(address, apiKey, nowSec, provider)
    ensures CursorsFollowPages(provider, requests)
  {
    requests := [];
    if !Present(address) {
      reply := Error(400, MissingAddressMessage);
      return;
    }
    if !Present(apiKey) {
      reply := Error(500, MissingKeyMessage);
      return;
    }
    var allTodayTxs: seq<Record> := [];
    var lastSignature: Option<string> := None;
    var keepFetching := true;
    var startOfDay := StartOfDayUtc8(nowSec);
    ghost var whole := Collect(provider, startOfDay, 0);
    assert whole.collected.Some? ==> [] + whole.collected.value == whole.collected.value;

    while keepFetching
      invariant |requests| <= |provider|
      invariant keepFetching ==> whole == After(allTodayTxs, |requests|, Collect(provider, startOfDay, |requests|))
      invariant !keepFetching ==> whole == Run(Some(allTodayTxs), |requests|)
      invariant CursorsFollowPages(provider, requests)
      invariant keepFetching ==> IsNextCursor(provider, requests, BeforeParam(lastSignature))
      decreases |provider| - |requests|
    {
      var n := |requests|;
      CursorsExtend(provider, requests, BeforeParam(lastSignature));
      requests := requests + [BeforeParam(lastSignature)];
      var response := Fetch(provider, n);
      if response.Failed? {
        reply := Error(500, FetchFailedMessage);
        return;
      }
      var txs := response.records;
      if |txs| == 0 {
        assert allTodayTxs + [] == allTodayTxs;
        break;
      }
      var kept, crossed := ScanPage(txs, startOfDay);
      AfterAfter(allTodayTxs, n, kept, Collect(provider, startOfDay, n + 1));
      allTodayTxs := allTodayTxs + kept;
      keepFetching := !crossed;
      if keepFetching {
        lastSignature := Some(txs[|txs| - 1].signature);
      }
    }
    reply := Success(Assemble(allTodayTxs));
  }
}
