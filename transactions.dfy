/** Transaction records as the provider returns them, the route's whitelist
    with its UNKNOWN-to-STAKE rewrite, and the two result buckets. */
module Transactions {

  datatype Option<T> = None | Some(value: T)

  /** One entry of the provider's transaction list: the fields the route reads
      or writes. `kind` is the provider's `type` tag. */
  datatype Record = Record(signature: string, timestamp: int, kind: string, description: string)

  const Swap := "SWAP"
  const Unknown := "UNKNOWN"
  const Stake := "STAKE"
  const Unstake := "UNSTAKE"

  /** The description given to every UNKNOWN record when it is rewritten as a stake. */
  const SeekerStakeNote := "质押SKR (Seeker专属底层交互)"

  /** The types the whitelist lets through, before any rewrite. */
  predicate IsTrackedKind(kind: string) {
    kind == Swap || kind == Unknown || kind == Stake || kind == Unstake
  }

  predicate IsTracked(r: Record) {
    IsTrackedKind(r.kind)
  }

  /** Membership of the `swaps` bucket. */
  predicate IsSwap(r: Record) {
    r.kind == Swap
  }

  /** Membership of the `stakes` bucket. */
  predicate IsStake(r: Record) {
    r.kind == Stake || r.kind == Unstake
  }

  /** The branch chain applied to a record inside the window: SWAP is kept,
      UNKNOWN becomes a STAKE with the fixed note, STAKE and UNSTAKE are kept,
      anything else is dropped without trace. */
  function Admit(tx: Record): (r: Option<Record>)
    ensures r.Some? <==> IsTracked(tx)
    ensures r.Some? ==> r.value.signature == tx.signature && r.value.timestamp == tx.timestamp
    ensures r.Some? ==> IsSwap(r.value) != IsStake(r.value)
    ensures r.Some? ==> (IsSwap(r.value) <==> IsSwap(tx))
    ensures tx.kind == Unknown ==> r == Some(tx.(kind := Stake, description := SeekerStakeNote))
    ensures r.Some? && tx.kind != Unknown ==> r.value == tx
  {
    if tx.kind == Swap then Some(tx)
    else if tx.kind == Unknown then Some(tx.(kind := Stake, description := SeekerStakeNote))
    else if tx.kind == Stake || tx.kind == Unstake then Some(tx)
    else None
  }

  /** The records the whitelist emits for `rs`, in the order of `rs`. */
  function AdmitAll(rs: seq<Record>): (out: seq<Record>)
    ensures |out| <= |rs|
    ensures forall y :: y in out ==> IsSwap(y) || IsStake(y)
  {
    if rs == [] then []
    else
      var head := Admit(rs[0]);
      (if head.Some? then [head.value] else []) + AdmitAll(rs[1..])
  }

  /** Every whitelisted record of `rs` is emitted, and nothing is emitted
      that is not the whitelist's image of a record of `rs`. */
  lemma {:induction false} AdmitAllMembers(rs: seq<Record>)
    ensures forall x :: x in rs && IsTracked(x) ==> Admit(x).value in AdmitAll(rs)
    ensures forall y :: y in AdmitAll(rs) ==> exists x :: x in rs && Admit(x) == Some(y)
  {
    if rs != [] {
      AdmitAllMembers(rs[1..]);
      assert forall x :: x in rs ==> x == rs[0] || x in rs[1..];
    }
  }

  /** Accumulating one more record appends its whitelist image, if any. */
  lemma AdmitAllSnoc(rs: seq<Record>, x: Record)
    ensures AdmitAll(rs + [x]) == AdmitAll(rs) + (if Admit(x).Some? then [Admit(x).value] else [])
  {
    AdmitAllAppend(rs, [x]);
    assert AdmitAll([x]) == (if Admit(x).Some? then [Admit(x).value] else []) + AdmitAll([]);
  }

  lemma {:induction false} AdmitAllAppend(a: seq<Record>, b: seq<Record>)
    ensures AdmitAll(a + b) == AdmitAll(a) + AdmitAll(b)
  {
    if a == [] {
      assert a + b == b;
    } else {
      assert (a + b)[1..] == a[1..] + b;
      AdmitAllAppend(a[1..], b);
    }
  }

  /** Exactly the whitelisted records are emitted: the count is that of the
      tracked records, so a TRANSFER or any other type adds nothing. */
  lemma {:induction false} AdmitAllCountsTracked(rs: seq<Record>)
    ensures |AdmitAll(rs)| == |Filter(IsTracked, rs)|
  {
    if rs != [] {
      AdmitAllCountsTracked(rs[1..]);
    }
  }

  /** The order-preserving `Array.prototype.filter`. */
  function Filter(p: Record -> bool, s: seq<Record>): (r: seq<Record>)
    ensures |r| <= |s|
    ensures forall x :: x in r <==> x in s && p(x)
  {
    if s == [] then []
    else (if p(s[0]) then [s[0]] else []) + Filter(p, s[1..])
  }

  /** Filtering keeps relative order: it distributes over concatenation. */
  lemma {:induction false} FilterAppend(p: Record -> bool, a: seq<Record>, b: seq<Record>)
    ensures Filter(p, a + b) == Filter(p, a) + Filter(p, b)
  {
    if a == [] {
      assert a + b == b;
    } else {
      assert (a + b)[1..] == a[1..] + b;
      FilterAppend(p, a[1..], b);
    }
  }

  /** The payload sent to the page: `total`, `swaps`, `stakes`. */
  datatype Bundle = Bundle(total: nat, swaps: seq<Record>, stakes: seq<Record>)

  /** Two filters over the accumulated records and the sum of their lengths. */
  function Assemble(acc: seq<Record>): (b: Bundle)
    ensures forall r :: r in b.swaps <==> r in acc && IsSwap(r)
    ensures forall r :: r in b.stakes <==> r in acc && IsStake(r)
  {
    var swaps := Filter(IsSwap, acc);
    var stakes := Filter(IsStake, acc);
    Bundle(|swaps| + |stakes|, swaps, stakes)
  }

  /** When every accumulated record is a swap or a stake, as the whitelist
      guarantees, the buckets split the accumulator: together they hold each
      record exactly as often as it was accumulated, and `total` is its size. */
  lemma {:induction false} AssemblePartitions(acc: seq<Record>)
    requires forall r :: r in acc ==> IsSwap(r) || IsStake(r)
    ensures multiset(Assemble(acc).swaps) + multiset(Assemble(acc).stakes) == multiset(acc)
    ensures Assemble(acc).total == |acc|
  {
    if acc != [] {
      AssemblePartitions(acc[1..]);
      assert acc == [acc[0]] + acc[1..];
    }
  }

  /** Each bucket is built in accumulation order: assembling two runs of
      records one after the other gives each bucket of the first run
      followed by the same bucket of the second. */
  lemma AssembleKeepsOrder(a: seq<Record>, b: seq<Record>)
    ensures Assemble(a + b).swaps == Assemble(a).swaps + Assemble(b).swaps
    ensures Assemble(a + b).stakes == Assemble(a).stakes + Assemble(b).stakes
  {
    FilterAppend(IsSwap, a, b);
    FilterAppend(IsStake, a, b);
  }
}
