/** What the transactions route promises, proved about the fetch loop
    `Collector.Collect` and the whole request `Collector.Serve`. */
module CollectorProperties {
  import opened Transactions
  import opened DayWindow
  import opened Collector

  /** A fetched page that the loop reads to the end and then follows with the
      next fetch: non-empty, every record at or after the cutoff. */
  predicate WholePageInWindow(r: Response, cutoff: int) {
    r.Page? && r.records != [] && forall k :: 0 <= k < |r.records| ==> r.records[k].timestamp >= cutoff
  }

  /** The loop, started at fetch `n`, goes on to issue fetch `m`: every
      page fetched in between was non-empty and wholly inside the window. */
  predicate Reaches(provider: seq<Response>, cutoff: int, n: nat, m: nat) {
    forall k :: n <= k < m ==> WholePageInWindow(Fetch(provider, k), cutoff)
  }

  /** No fetch that the loop started at `n` actually issues fails; answers
      it never asks for (after an empty page or a page crossing the cutoff)
      may be anything. */
  predicate NoReachedFailure(provider: seq<Response>, cutoff: int, n: nat) {
    forall m :: n <= m < |provider| && Reaches(provider, cutoff, n, m) ==> provider[m].Page?
  }

  /** The provider's history as one newest-first list: its pages in fetch
      order, up to the first empty page (or failure). */
  function History(provider: seq<Response>, n: nat): (h: seq<Record>)
    decreases |provider| - n
  {
    match Fetch(provider, n)
    case Failed => []
    case Page(txs) => if txs == [] then [] else txs + History(provider, n + 1)
  }

  /** The newest records of `rs` down to, and excluding, the first one older than `cutoff`. */
  function Recent(rs: seq<Record>, cutoff: int): (r: seq<Record>)
    ensures forall y :: y in r ==> y.timestamp >= cutoff
  {
    rs[..WindowLength(rs, cutoff)]
  }

  /** The window of a concatenation: it ends inside the first part if that part
      holds an old record, and otherwise runs on into the second part. */
  lemma {:induction false} WindowLengthAppend(s: seq<Record>, t: seq<Record>, cutoff: int)
    ensures WindowLength(s + t, cutoff) ==
              if WindowLength(s, cutoff) < |s| then WindowLength(s, cutoff)
              else |s| + WindowLength(t, cutoff)
  {
    if s == [] {
      assert s + t == t;
    } else {
      assert (s + t)[1..] == s[1..] + t;
      WindowLengthAppend(s[1..], t, cutoff);
    }
  }

  lemma WholePageLength(r: Response, cutoff: int)
    requires WholePageInWindow(r, cutoff)
    ensures WindowLength(r.records, cutoff) == |r.records|
  {
  }

  /** The boundary is inclusive: a record stamped exactly at the cutoff goes
      through the whitelist, the next one, stamped one second earlier, is not
      classified and ends the loop after this single fetch, whatever follows it. */
  lemma BoundaryIsInclusive(provider: seq<Response>, cutoff: int, n: nat, a: Record, b: Record, rest: seq<Record>)
    requires Fetch(provider, n) == Page([a, b] + rest)
    requires a.timestamp == cutoff && b.timestamp == cutoff - 1
    ensures Collect(provider, cutoff, n) == Run(Some(if IsTracked(a) then [Admit(a).value] else []), 1)
  {
    var page := [a, b] + rest;
    assert page[1..] == [b] + rest;
    assert WindowLength(page, cutoff) == 1;
    assert page[..1] == [a];
    assert [a][1..] == [];
    assert AdmitAll([a]) == (if Admit(a).Some? then [Admit(a).value] else []) + AdmitAll([]);
    assert AdmitAll([a]) == if IsTracked(a) then [Admit(a).value] else [];
  }

  /** Early termination: once fetch `i` returns a page whose record `j` is older
      than the cutoff, fetch `i` is the last one, and the records after `j`
      and all later pages are never read: cutting them away changes nothing. */
  lemma {:induction false} NothingReadPastBoundary(provider: seq<Response>, cutoff: int, n: nat, i: nat, j: nat)
    requires n <= i < |provider|
    requires forall m :: n <= m < i ==> WholePageInWindow(provider[m], cutoff)
    requires provider[i].Page? && j < |provider[i].records| && provider[i].records[j].timestamp < cutoff
    ensures Collect(provider, cutoff, n).fetches == i - n + 1
    ensures Collect(provider, cutoff, n) == Collect(provider[..i] + [Page(provider[i].records[..j + 1])], cutoff, n)
    decreases i - n
  {
    var cut := provider[..i] + [Page(provider[i].records[..j + 1])];
    if n == i {
      var page := provider[i].records;
      var head := page[..j + 1];
      assert page == head + page[j + 1..];
      WindowLengthAppend(head, page[j + 1..], cutoff);
      var w := WindowLength(page, cutoff);
      assert head[..w] == page[..w];
      assert Fetch(cut, n) == Page(head);
    } else {
      WholePageLength(provider[n], cutoff);
      assert Fetch(cut, n) == provider[n];
      NothingReadPastBoundary(provider, cutoff, n + 1, i, j);
    }
  }

  /** A failed fetch is fatal: after any number of pages that did contribute
      records, the loop yields no records at all. */
  lemma {:induction false} FailureDiscardsEarlierPages(provider: seq<Response>, cutoff: int, n: nat, i: nat)
    requires n <= i < |provider|
    requires forall m :: n <= m < i ==> WholePageInWindow(provider[m], cutoff)
    requires provider[i] == Failed
    ensures Collect(provider, cutoff, n) == Run(None, i - n + 1)
    decreases i - n
  {
    if n < i {
      WholePageLength(provider[n], cutoff);
      FailureDiscardsEarlierPages(provider, cutoff, n + 1, i);
    }
  }

  /** The request answers 500 with no data when fetch `i` fails, even though
      the `i` pages before it were all inside today's window. */
  lemma FetchFailureIsServerError(address: Option<string>, apiKey: Option<string>, nowSec: nat, provider: seq<Response>, i: nat)
    requires Present(address) && Present(apiKey)
    requires i < |provider|
    requires forall m :: 0 <= m < i ==> WholePageInWindow(provider[m], StartOfDayUtc8(nowSec))
    requires provider[i] == Failed
    ensures Serve(address, apiKey, nowSec, provider) == Served(Error(500, FetchFailedMessage), i + 1)
  {
    FailureDiscardsEarlierPages(provider, StartOfDayUtc8(nowSec), 0, i);
  }

  /** An empty first page is an exhausted history, not an error. */
  lemma EmptyFirstPage(address: Option<string>, apiKey: Option<string>, nowSec: nat, provider: seq<Response>)
    requires Present(address) && Present(apiKey)
    requires Fetch(provider, 0) == Page([])
    ensures Serve(address, apiKey, nowSec, provider) == Served(Success(Bundle(0, [], [])), 1)
  {
  }

  /** Whatever the loop accumulates lies inside the window and is a swap or a stake. */
  lemma {:induction false} CollectedIsInWindow(provider: seq<Response>, cutoff: int, n: nat)
    ensures Collect(provider, cutoff, n).collected.Some? ==>
              forall y :: y in Collect(provider, cutoff, n).collected.value ==>
                y.timestamp >= cutoff && (IsSwap(y) || IsStake(y))
    decreases |provider| - n
  {
    match Fetch(provider, n)
    case Failed =>
    case Page(txs) =>
      if txs != [] {
        var w := WindowLength(txs, cutoff);
        AdmitAllMembers(txs[..w]);
        if w == |txs| {
          CollectedIsInWindow(provider, cutoff, n + 1);
        }
      }
  }

  /** Only today's records are ever reported: every record in either bucket
      was stamped at or after 00:00 UTC+8 of the day of `nowSec`. */
  lemma ReportsOnlyToday(address: Option<string>, apiKey: Option<string>, nowSec: nat, provider: seq<Response>)
    ensures var reply := Serve(address, apiKey, nowSec, provider).reply;
            reply.Success? ==>
              forall y :: y in reply.data.swaps + reply.data.stakes ==> y.timestamp >= StartOfDayUtc8(nowSec)
  {
    CollectedIsInWindow(provider, StartOfDayUtc8(nowSec), 0);
  }

  /** When none of the fetches it issues fails, the loop accumulates the
      whitelist's image of exactly the newest run of the history that lies
      inside the window. */
  lemma {:induction false} CollectReadsRecentHistory(provider: seq<Response>, cutoff: int, n: nat)
    requires NoReachedFailure(provider, cutoff, n)
    ensures Collect(provider, cutoff, n).collected == Some(AdmitAll(Recent(History(provider, n), cutoff)))
    decreases |provider| - n
  {
    var r := Fetch(provider, n);
    assert Reaches(provider, cutoff, n, n);
    if r.Page? && r.records != [] {
      var txs := r.records;
      var rest := History(provider, n + 1);
      assert History(provider, n) == txs + rest;
      var w := WindowLength(txs, cutoff);
      WindowLengthAppend(txs, rest, cutoff);
      if w < |txs| {
        assert Recent(History(provider, n), cutoff) == txs[..w];
        assert Collect(provider, cutoff, n) == Run(Some(AdmitAll(txs[..w])), 1);
      } else {
        forall m | n + 1 <= m < |provider| && Reaches(provider, cutoff, n + 1, m)
          ensures provider[m].Page?
        {
          assert Reaches(provider, cutoff, n, m);
        }
        CollectReadsRecentHistory(provider, cutoff, n + 1);
        var v := WindowLength(rest, cutoff);
        assert Recent(History(provider, n), cutoff) == txs + rest[..v];
        AdmitAllAppend(txs, rest[..v]);
        assert txs[..w] == txs;
        assert Collect(provider, cutoff, n) == After(AdmitAll(txs), 1, Collect(provider, cutoff, n + 1));
      }
    }
  }

  /** A failure queued after an empty page is never fetched: the hypothesis of
      `CollectReadsRecentHistory` holds, and the loop stops at the empty page
      with the in-window record. */
  lemma UnfetchedFailureIsHarmless(r: Record, cutoff: int)
    requires r.timestamp >= cutoff
    ensures NoReachedFailure([Page([r]), Page([]), Failed], cutoff, 0)
    ensures Collect([Page([r]), Page([]), Failed], cutoff, 0) == Run(Some(AdmitAll([r])), 2)
  {
    var provider := [Page([r]), Page([]), Failed];
    assert !WholePageInWindow(Fetch(provider, 1), cutoff);
    assert !Reaches(provider, cutoff, 0, 2);
    assert [r][..1] == [r];
    assert AdmitAll([r]) + [] == AdmitAll([r]);
  }

  /** The answer when no fetch the route issues fails: the buckets are the swaps
      and the stakes among the whitelist's images of today's part of the
      history, in newest-first order, and `total` counts exactly today's
      records of a whitelisted type. */
  lemma ReplyOnHealthyProvider(address: Option<string>, apiKey: Option<string>, nowSec: nat, provider: seq<Response>)
    requires Present(address) && Present(apiKey)
    requires NoReachedFailure(provider, StartOfDayUtc8(nowSec), 0)
    ensures var today := Recent(History(provider, 0), StartOfDayUtc8(nowSec));
            var reply := Serve(address, apiKey, nowSec, provider).reply;
            && reply == Success(Assemble(AdmitAll(today)))
            && reply.data.swaps == Filter(IsSwap, AdmitAll(today))
            && reply.data.stakes == Filter(IsStake, AdmitAll(today))
            && reply.data.total == |Filter(IsTracked, today)|
  {
    var today := Recent(History(provider, 0), StartOfDayUtc8(nowSec));
    CollectReadsRecentHistory(provider, StartOfDayUtc8(nowSec), 0);
    AssemblePartitions(AdmitAll(today));
    AdmitAllCountsTracked(today);
  }

  /** Record by record: of a newest-first list of records, SWAP records
      appear unchanged among the swaps, STAKE and UNSTAKE records unchanged
      among the stakes, UNKNOWN records among the stakes rewritten to STAKE
      with the fixed note; a record of any other type appears in neither
      bucket, and every bucketed record is the whitelist's image of one of them. */
  lemma {:induction false} BucketedRecords(rs: seq<Record>)
    ensures var b := Assemble(AdmitAll(rs));
            && (forall r :: r in rs && r.kind == Swap ==> r in b.swaps)
            && (forall r :: r in rs && (r.kind == Stake || r.kind == Unstake) ==> r in b.stakes)
            && (forall r :: r in rs && r.kind == Unknown ==> r.(kind := Stake, description := SeekerStakeNote) in b.stakes)
            && (forall r :: r in rs && !IsTracked(r) ==> r !in b.swaps && r !in b.stakes)
            && (forall y :: y in b.swaps + b.stakes ==> exists r :: r in rs && Admit(r) == Some(y))
  {
    var acc := AdmitAll(rs);
    var b := Assemble(acc);
    AdmitAllMembers(rs);
    forall r | r in rs && IsTracked(r) ensures Admit(r).value in acc {
    }
    forall y | y in b.swaps + b.stakes ensures exists r :: r in rs && Admit(r) == Some(y) {
      assert y in acc;
    }
  }
}
