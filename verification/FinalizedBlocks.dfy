/** The finalized-head tracker: a cached block, one backward jump and a binary search. */
module FinalizedBlocks {
  import opened Wrappers
  import opened StarknetNode

  const INIT_BINARY_JUMP: nat := 1000

  /** Block 0, or a block accepted on L1 that lies at or below the frontier. */
  ghost predicate Plausible(b: Header, frontier: int) {
    b.number == 0 || (b.status.AcceptedOnL1? && b.number <= frontier)
  }

  /** The cache is unset or plausible. */
  ghost predicate PlausibleCache(cache: Option<Header>, frontier: int) {
    cache.Some? ==> Plausible(cache.value, frontier)
  }

  /** The number of binary digits: how often n can be halved before it is 0. */
  ghost function BitLength(n: nat): nat {
    if n == 0 then 0 else 1 + BitLength(n / 2)
  }

  ghost function Pow2(n: nat): nat {
    if n == 0 then 1 else 2 * Pow2(n - 1)
  }

  /** BitLength is one more than the logarithm, rounded down. */
  lemma {:induction false} BitLengthIsLog2(n: nat)
    requires n > 0
    ensures BitLength(n) >= 1
    ensures Pow2(BitLength(n) - 1) <= n < Pow2(BitLength(n))
  {
    if n > 1 {
      BitLengthIsLog2(n / 2);
    }
  }

  lemma {:induction false} BitLengthMonotone(m: nat, n: nat)
    requires m <= n
    ensures BitLength(m) <= BitLength(n)
  {
    if m > 0 {
      BitLengthMonotone(m / 2, n / 2);
    }
  }

  /** What one completed call of `getFinalizedBlock` did to the cache and what it gave back. */
  datatype CallRecord = CallRecord(
    cacheBefore: Option<Header>, cacheAfter: Option<Header>,
    frontierBefore: int, frontierAfter: int,
    result: Option<Header>)

  /** The promise of one call, whether it returned or threw. */
  ghost predicate Honest(c: CallRecord) {
    && c.frontierBefore <= c.frontierAfter
    && PlausibleCache(c.cacheAfter, c.frontierAfter)
    && (c.cacheBefore.Some? ==>
          c.cacheAfter == c.cacheBefore
          || (c.cacheAfter.Some? && c.cacheBefore.value.number < c.cacheAfter.value.number))
    && (c.result.Some? ==>
          && c.cacheAfter == c.result
          && Finalized(c.frontierBefore) <= c.result.value.number <= Finalized(c.frontierAfter))
    && (c.result.None? && c.cacheBefore.Some? ==> c.cacheAfter == c.cacheBefore)
  }

  /** A block the backward jump stops at. */
  predicate Settles(b: Header) { b.status.AcceptedOnL1? || b.number == 0 }

  /** The backward jump's requests and answer: latest, and block 0 only if latest does not settle it. */
  ghost predicate JumpsBack(probes: seq<Probe>, r: Result<Option<Header>, Failure>) {
    && 1 <= |probes| <= 2 && probes[0].tag == Latest
    && (|probes| == 2 <==> probes[0].reply.Ok? && !Settles(probes[0].reply.value))
    && (|probes| == 2 ==> probes[1].tag == Height(0))
    && var last := probes[|probes| - 1].reply;
       r == if last.Ok? then Ok(Some(last.value)) else Err(last.error)
  }

  /** A failed cold call: the cache is what the jump found, or empty if the jump itself failed. */
  ghost predicate JumpedBack(probes: seq<Probe>, cache: Option<Header>, e: Failure) {
    if cache.None? then JumpsBack(probes, Err(e))
    else exists k :: 1 <= k < |probes| && JumpsBack(probes[..k], Ok(cache))
  }

  lemma FoundThenFailed(start: seq<Probe>, made: seq<Probe>, after: seq<Probe>, cache: Option<Header>, e: Failure)
    requires start <= made < after && cache.Some? && JumpsBack(made[|start|..], Ok(cache))
    ensures JumpedBack(after[|start|..], cache, e)
  {
    assert after[|start|..][..|made| - |start|] == made[|start|..];
  }

  /** Requests were made, and the last of them failed with this error. */
  predicate LastFailed(before: seq<Probe>, after: seq<Probe>, e: Failure) {
    |before| < |after| && after[|after| - 1].reply == Err(e)
  }

  class FinalizedBlockService {
    const node: Node
    var latestAcceptedBlock: Option<Header>

    constructor (node: Node)
      ensures this.node == node && latestAcceptedBlock == None
    {
      this.node := node;
      latestAcceptedBlock := None;
    }

    ghost predicate Valid()
      reads this, node
    {
      node.Valid() && PlausibleCache(latestAcceptedBlock, node.frontier)
    }

    /** Latest first, then straight to block 0: the first jump leaves from -1. */
    method FindFirstAcceptedOnL1() returns (r: Result<Option<Header>, Failure>)
      requires node.Valid()
      modifies node
      ensures node.Valid() && old(node.height) <= node.height && old(node.frontier) <= node.frontier
      ensures old(node.probes) < node.probes
      ensures JumpsBack(node.probes[|old(node.probes)|..], r)
      ensures r.Err? ==> RequestFailure(r.error)
      ensures r.Ok? ==> r.value.Some? && Plausible(r.value.value, node.frontier)
    {
      var currentBlockNumber := -1;
      while true
        invariant node.Valid() && old(node.height) <= node.height && old(node.frontier) <= node.frontier
        invariant currentBlockNumber == -1 || currentBlockNumber == 0
        invariant old(node.probes) <= node.probes
        invariant |node.probes| == |old(node.probes)| + (currentBlockNumber + 1)
        invariant currentBlockNumber == 0 ==>
          && var first := node.probes[|old(node.probes)|];
          first.tag == Latest && first.reply.Ok? && !Settles(first.reply.value)
        decreases -currentBlockNumber
      {
        var tag := if currentBlockNumber < 0 then Latest else Height(currentBlockNumber);
        var reply := node.GetBlock(tag);
        if reply.Err? {
          return Err(reply.error);
        }
        var blockInfo := reply.value;
        if blockInfo.status == AcceptedOnL1 {
          return Ok(Some(blockInfo));
        }
        if blockInfo.number == 0 {
          return Ok(Some(blockInfo));
        }
        currentBlockNumber := Max(0, currentBlockNumber - INIT_BINARY_JUMP);
        if !(currentBlockNumber >= 0) {
          break;
        }
      }
      return Ok(None);
    }

    /** None stands for `undefined`: the range was empty, or held no accepted block at the start. */
    method BinarySearchAcceptedOnL1(low0: nat, high0: nat) returns (r: Result<Option<Header>, Failure>)
      requires node.Valid()
      modifies node
      ensures node.Valid() && old(node.height) <= node.height && old(node.frontier) <= node.frontier
      ensures old(node.probes) <= node.probes
      ensures |node.probes| <= |old(node.probes)| + BitLength(Max(0, high0 - low0 + 1))
      ensures r.Err? ==> RequestFailure(r.error) && LastFailed(old(node.probes), node.probes, r.error)
      ensures r == Ok(None) ==> high0 < low0 || old(node.frontier) < low0
      ensures r.Ok? && r.value.Some? ==>
        && var b := r.value.value;
        && b.status.AcceptedOnL1? && low0 <= b.number <= high0
        && b.number <= node.frontier
        && (b.number == high0 || old(node.frontier) <= b.number)
    {
      var low: int, high: int := low0, high0;
      var latestAccepted: Option<Header> := None;
      while low <= high
        invariant node.Valid() && old(node.height) <= node.height && old(node.frontier) <= node.frontier
        invariant low0 <= low <= high + 1 || (low == low0 && high == high0)
        invariant high == high0 || (high < high0 && old(node.frontier) <= high)
        invariant latestAccepted.None? ==> low == low0
        invariant latestAccepted.Some? ==>
          && latestAccepted.value.status.AcceptedOnL1?
          && low0 <= latestAccepted.value.number == low - 1 <= node.frontier
          && latestAccepted.value.number <= high
        invariant old(node.probes) <= node.probes
        invariant |node.probes| + BitLength(Max(0, high - low + 1))
               <= |old(node.probes)| + BitLength(Max(0, high0 - low0 + 1))
        decreases high - low
      {
        var mid := (low + high) / 2;
        BitLengthMonotone(mid - low, (high - low + 1) / 2);
        BitLengthMonotone(high - mid, (high - low + 1) / 2);
        var reply := node.GetBlock(Height(mid));
        if reply.Err? {
          return Err(reply.error);
        }
        if reply.value.status == AcceptedOnL1 {
          latestAccepted := Some(reply.value);
          low := mid + 1;
        } else {
          high := mid - 1;
        }
      }
      return Ok(latestAccepted);
    }

    /** The block after the cached one is accepted: look for the last accepted one up to latest. */
    method SearchFrom(nextBlockNumber: nat) returns (r: Result<Option<Header>, Failure>)
      requires node.Valid() && nextBlockNumber <= node.frontier
      modifies node
      ensures node.Valid() && old(node.height) <= node.height && old(node.frontier) <= node.frontier
      ensures old(node.probes) <= node.probes
      ensures |node.probes| <= |old(node.probes)| + 1 + BitLength(node.height - nextBlockNumber + 1)
      ensures r.Err? ==> RequestFailure(r.error) && LastFailed(old(node.probes), node.probes, r.error)
      ensures r.Ok? ==>
        && r.value.Some? && r.value.value.status.AcceptedOnL1?
        && nextBlockNumber <= r.value.value.number <= node.frontier
        && old(node.frontier) <= r.value.value.number
    {
      var latest := node.GetBlock(Latest);
      if latest.Err? {
        return Err(latest.error);
      }
      r := BinarySearchAcceptedOnL1(nextBlockNumber, latest.value.number);
      BitLengthMonotone(latest.value.number - nextBlockNumber + 1, node.height - nextBlockNumber + 1);
    }

    /** A cold call caches what the jump finds; on a warm one nothing happens. */
    method FillCache() returns (failure: Option<Failure>)
      requires Valid()
      modifies this`latestAcceptedBlock, node
      ensures Valid() && old(node.height) <= node.height && old(node.frontier) <= node.frontier
      ensures failure.None? <==> latestAcceptedBlock.Some?
      ensures old(node.probes) <= node.probes && |node.probes| <= |old(node.probes)| + 2
      ensures failure.Some? ==>
        RequestFailure(failure.value) && LastFailed(old(node.probes), node.probes, failure.value)
      ensures old(latestAcceptedBlock).Some? ==>
        latestAcceptedBlock == old(latestAcceptedBlock) && node.probes == old(node.probes)
      ensures old(latestAcceptedBlock).None? ==>
        && old(node.probes) < node.probes
        && JumpsBack(node.probes[|old(node.probes)|..],
                     if failure.Some? then Err(failure.value) else Ok(latestAcceptedBlock))
    {
      if latestAcceptedBlock.None? {
        var found := FindFirstAcceptedOnL1();
        if found.Err? {
          return Some(found.error);
        }
        latestAcceptedBlock := found.value;
      }
      if latestAcceptedBlock.None? {
        return Some(NoAcceptedBlock);
      }
      return None;
    }

    /** The rest of a call, once a block is cached. */
    method Follow() returns (r: Result<Header, Failure>)
      requires Valid() && latestAcceptedBlock.Some?
      modifies this`latestAcceptedBlock, node
      ensures Valid() && old(node.height) <= node.height && old(node.frontier) <= node.frontier
      ensures old(node.probes) < node.probes
      ensures r.Err? ==> latestAcceptedBlock == old(latestAcceptedBlock)
      ensures r.Err? ==> RequestFailure(r.error) && LastFailed(old(node.probes), node.probes, r.error)
      ensures r.Ok? ==>
        && latestAcceptedBlock == Some(r.value)
        && Finalized(old(node.frontier)) <= r.value.number <= Finalized(node.frontier)
      ensures r.Ok? && latestAcceptedBlock != old(latestAcceptedBlock) ==>
        old(latestAcceptedBlock).value.number < r.value.number
      ensures r.Ok? && latestAcceptedBlock == old(latestAcceptedBlock) ==>
        && |node.probes| == |old(node.probes)| + 1
        && node.probes[|old(node.probes)|].tag == Height(r.value.number + 1)
        && r.value.number == Finalized(node.probes[|old(node.probes)|].frontier)
      ensures |node.probes| <= |old(node.probes)| + 2
        + BitLength(Max(0, node.height - old(latestAcceptedBlock).value.number))
    {
      var nextBlockNumber := latestAcceptedBlock.value.number + 1;
      var nextBlockInfo := node.GetBlock(Height(nextBlockNumber));
      if nextBlockInfo.Err? {
        return Err(nextBlockInfo.error);
      }
      if nextBlockInfo.value.status == AcceptedOnL2 {
        return Ok(latestAcceptedBlock.value);
      }
      if nextBlockInfo.value.status == AcceptedOnL1 {
        var best := SearchFrom(nextBlockNumber);
        if best.Err? {
          return Err(best.error);
        }
        latestAcceptedBlock := best.value;
        if latestAcceptedBlock.None? {
          return Err(UndefinedBlock);
        }
      }
      return Ok(latestAcceptedBlock.value);
    }

    /** One sequential call; the chain may advance before each of its requests, and each may throw. */
    method GetFinalizedBlock() returns (r: Result<Header, Failure>)
      requires Valid()
      modifies this`latestAcceptedBlock, node
      ensures Valid() && old(node.height) <= node.height
      ensures Honest(CallRecord(old(latestAcceptedBlock), latestAcceptedBlock,
                                old(node.frontier), node.frontier,
                                if r.Ok? then Some(r.value) else None))
      // it fails only with the failure of its last request; the two `undefined` outcomes never happen
      ensures r.Err? ==> RequestFailure(r.error) && LastFailed(old(node.probes), node.probes, r.error)
      // what a cold call has found stays cached even if a later request fails
      ensures old(node.probes) <= node.probes
      ensures old(latestAcceptedBlock).None? && r.Err? ==>
        JumpedBack(node.probes[|old(node.probes)|..], latestAcceptedBlock, r.error)
      // an unchanged cache was exact at the instant its successor was looked up
      ensures r.Ok? && old(latestAcceptedBlock) == Some(r.value) ==>
        && |node.probes| == |old(node.probes)| + 1
        && node.probes[|old(node.probes)|].tag == Height(r.value.number + 1)
        && r.value.number == Finalized(node.probes[|old(node.probes)|].frontier)
      // how many requests it makes
      ensures old(latestAcceptedBlock).None? ==>
        |node.probes| <= |old(node.probes)| + 4 + BitLength(node.height)
      ensures old(latestAcceptedBlock).Some? ==>
        |node.probes| <= |old(node.probes)| + 2
          + BitLength(Max(0, node.height - old(latestAcceptedBlock).value.number))
    {
      var failure := FillCache();
      if failure.Some? {
        return Err(failure.value);
      }
      ghost var start, made, cached := old(node.probes), node.probes, latestAcceptedBlock;
      r := Follow();
      BitLengthMonotone(Max(0, node.height - cached.value.number), node.height);
      if r.Err? && old(latestAcceptedBlock).None? {
        FoundThenFailed(start, made, node.probes, cached, r.error);
      }
    }
  }

  /** Calls made one after the other: each starts from the cache its predecessor left. */
  ghost predicate Sequential(calls: seq<CallRecord>) {
    forall i :: 0 < i < |calls| ==>
      && calls[i].cacheBefore == calls[i - 1].cacheAfter
      && calls[i - 1].frontierAfter <= calls[i].frontierBefore
  }

  /** Over a whole run a cached block is never lost and its height never drops, failures included. */
  lemma {:induction false} CacheNeverDropsOverRun(calls: seq<CallRecord>, i: nat, j: nat)
    requires Sequential(calls) && forall c :: c in calls ==> Honest(c)
    requires i <= j < |calls|
    requires calls[i].cacheAfter.Some?
    ensures calls[j].cacheAfter.Some?
    ensures calls[i].cacheAfter.value.number <= calls[j].cacheAfter.value.number
    ensures calls[i].cacheAfter != calls[j].cacheAfter ==>
      calls[i].cacheAfter.value.number < calls[j].cacheAfter.value.number
    decreases j - i
  {
    if i < j {
      CacheNeverDropsOverRun(calls, i, j - 1);
      assert Honest(calls[j]);
    }
  }

  lemma {:induction false} FrontierGrowsOverRun(calls: seq<CallRecord>, i: nat, j: nat)
    requires Sequential(calls) && forall c :: c in calls ==> Honest(c)
    requires i < j < |calls|
    ensures calls[i].frontierAfter <= calls[j].frontierBefore
    decreases j - i
  {
    if i + 1 < j {
      FrontierGrowsOverRun(calls, i, j - 1);
      assert Honest(calls[j - 1]);
    }
  }

  /** Returned heights never decrease over a run, whatever failed in between. */
  lemma {:induction false} ReturnedHeightsNeverDecrease(calls: seq<CallRecord>, i: nat, j: nat)
    requires Sequential(calls) && forall c :: c in calls ==> Honest(c)
    requires i < j < |calls| && calls[i].result.Some? && calls[j].result.Some?
    ensures calls[i].result.value.number <= calls[j].result.value.number
  {
    FrontierGrowsOverRun(calls, i, j);
    assert Honest(calls[i]) && Honest(calls[j]);
  }

  /**
   * A caller that polls n times, whatever each call ends in, and whatever the chain does before
   * each call: the records it collects make a sequential run, so heights never go down.
   */
  method Poll(service: FinalizedBlockService, n: nat) returns (calls: seq<CallRecord>)
    requires service.Valid()
    modifies service`latestAcceptedBlock, service.node
    ensures service.Valid()
    ensures |calls| == n && Sequential(calls) && forall c :: c in calls ==> Honest(c)
    ensures forall i, j :: 0 <= i < j < n && calls[i].result.Some? && calls[j].result.Some? ==>
      calls[i].result.value.number <= calls[j].result.value.number
  {
    calls := [];
    while |calls| < n
      invariant service.Valid() && |calls| <= n
      invariant Sequential(calls) && forall c :: c in calls ==> Honest(c)
      invariant calls != [] ==>
        && calls[|calls| - 1].cacheAfter == service.latestAcceptedBlock
        && calls[|calls| - 1].frontierAfter <= service.node.frontier
    {
      service.node.Advance();
      var cache, frontier := service.latestAcceptedBlock, service.node.frontier;
      var r := service.GetFinalizedBlock();
      calls := calls + [CallRecord(cache, service.latestAcceptedBlock, frontier, service.node.frontier,
                                   if r.Ok? then Some(r.value) else None)];
    }
    forall i, j | 0 <= i < j < n && calls[i].result.Some? && calls[j].result.Some?
      ensures calls[i].result.value.number <= calls[j].result.value.number
    {
      ReturnedHeightsNeverDecrease(calls, i, j);
    }
  }
}
