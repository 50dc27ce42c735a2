/** What the trace of an indexed block looks like. */
module DispatchLaws {
  import opened Texts
  import opened DataSources
  import opened Filters
  import opened Dispatch

  // ---- the order of visits ----

  /**
   * The place of a visit in a block: the block first, then each transaction (its own visits
   * before those of its logs), then the log, then the datasource.
   */
  function Key(v: Visit): (nat, nat, nat) {
    match v
    case BlockVisit(d) => (0, 0, d)
    case CallVisit(i, d) => (i + 1, 0, d)
    case EventVisit(log, d) => (log.transactionIndex + 1, log.logIndex + 1, d)
  }

  predicate KeyLess(a: (nat, nat, nat), b: (nat, nat, nat)) {
    a.0 < b.0 || (a.0 == b.0 && (a.1 < b.1 || (a.1 == b.1 && a.2 < b.2)))
  }

  predicate Before(v: Visit, w: Visit) { KeyLess(Key(v), Key(w)) }

  ghost predicate Ascending(visits: seq<Visit>) {
    forall a, b :: 0 <= a < b < |visits| ==> Before(visits[a], visits[b])
  }

  ghost predicate AllBefore(xs: seq<Visit>, ys: seq<Visit>) {
    forall a, b :: 0 <= a < |xs| && 0 <= b < |ys| ==> Before(xs[a], ys[b])
  }

  lemma AscendingJoin(xs: seq<Visit>, ys: seq<Visit>)
    requires Ascending(xs) && Ascending(ys) && AllBefore(xs, ys)
    ensures Ascending(xs + ys)
  {
  }

  /** A transaction's logs carry its index and their own. */
  ghost predicate Numbered(logs: seq<Log>, tx: nat) {
    forall j :: 0 <= j < |logs| ==> logs[j].transactionIndex == tx && logs[j].logIndex == j
  }

  ghost predicate WellShaped(shape: seq<seq<Log>>) {
    forall i :: 0 <= i < |shape| ==> Numbered(shape[i], i)
  }

  lemma FetchedShape(raws: seq<RawTx>)
    ensures WellShaped(ShapeOf(raws)) && |ShapeOf(raws)| == |raws|
    ensures forall i :: 0 <= i < |raws| ==> |ShapeOf(raws)[i]| == |raws[i].events|
  {
  }

  /** A visit that a block with this shape asks for, at one of n datasources. */
  ghost predicate Asked(shape: seq<seq<Log>>, n: nat, v: Visit) {
    match v
    case BlockVisit(d) => d < n
    case CallVisit(i, d) => i < |shape| && d < n
    case EventVisit(log, d) =>
      && log.transactionIndex < |shape| && log.logIndex < |shape[log.transactionIndex]|
      && log == shape[log.transactionIndex][log.logIndex] && d < n
  }

  lemma {:induction false} LogVisitsAre(logs: seq<Log>, tx: nat, n: nat)
    requires Numbered(logs, tx)
    ensures Ascending(LogVisits(logs, n))
    ensures forall v ::
      v in LogVisits(logs, n) <==>
        v.EventVisit? && v.log.transactionIndex == tx && v.log.logIndex < |logs|
        && v.log == logs[v.log.logIndex] && v.ds < n
  {
    if logs != [] {
      var last := |logs| - 1;
      LogVisitsAre(logs[..last], tx, n);
      var front, here := LogVisits(logs[..last], n), EventVisits(logs[last], n);
      EventVisitsAre(logs[last], n);
      forall a, b | 0 <= a < |front| && 0 <= b < |here|
        ensures Before(front[a], here[b])
      {
        assert front[a] in front && here[b] in here;
      }
      AscendingJoin(front, here);
    }
  }

  lemma EventVisitsAre(log: Log, n: nat)
    ensures Ascending(EventVisits(log, n))
    ensures forall v :: v in EventVisits(log, n) <==> v.EventVisit? && v.log == log && v.ds < n
  {
    forall v: Visit | v.EventVisit? && v.log == log && v.ds < n
      ensures v in EventVisits(log, n)
    {
      assert EventVisits(log, n)[v.ds] == v;
    }
  }

  lemma CallVisitsAre(tx: nat, n: nat)
    ensures Ascending(CallVisits(tx, n))
    ensures forall v :: v in CallVisits(tx, n) <==> v.CallVisit? && v.tx == tx && v.ds < n
  {
    forall v: Visit | v.CallVisit? && v.tx == tx && v.ds < n
      ensures v in CallVisits(tx, n)
    {
      assert CallVisits(tx, n)[v.ds] == v;
    }
  }

  lemma BlockVisitsAre(n: nat)
    ensures Ascending(BlockVisits(n))
    ensures forall v :: v in BlockVisits(n) <==> v.BlockVisit? && v.ds < n
  {
    forall v: Visit | v.BlockVisit? && v.ds < n
      ensures v in BlockVisits(n)
    {
      assert BlockVisits(n)[v.ds] == v;
    }
  }

  lemma OwnVisitsAre(tx: nat, logs: seq<Log>, n: nat)
    requires Numbered(logs, tx)
    ensures Ascending(OwnVisits(tx, logs, n))
    ensures forall v ::
      v in OwnVisits(tx, logs, n) <==>
        (v.CallVisit? && v.tx == tx && v.ds < n)
        || (v.EventVisit? && v.log.transactionIndex == tx && v.log.logIndex < |logs|
            && v.log == logs[v.log.logIndex] && v.ds < n)
  {
    CallVisitsAre(tx, n);
    LogVisitsAre(logs, tx, n);
    var xs, ys := CallVisits(tx, n), LogVisits(logs, n);
    forall a, b | 0 <= a < |xs| && 0 <= b < |ys|
      ensures Before(xs[a], ys[b])
    {
      assert xs[a] in xs && ys[b] in ys;
    }
    AscendingJoin(xs, ys);
  }

  lemma {:induction false} TxVisitsAre(shape: seq<seq<Log>>, n: nat)
    requires WellShaped(shape)
    ensures Ascending(TxVisits(shape, n))
    ensures forall v :: v in TxVisits(shape, n) <==> !v.BlockVisit? && Asked(shape, n, v)
  {
    if shape != [] {
      var last := |shape| - 1;
      TxVisitsAre(shape[..last], n);
      OwnVisitsAre(last, shape[last], n);
      var front, own := TxVisits(shape[..last], n), OwnVisits(last, shape[last], n);
      forall a, b | 0 <= a < |front| && 0 <= b < |own|
        ensures Before(front[a], own[b])
      {
        assert front[a] in front && own[b] in own;
      }
      AscendingJoin(front, own);
    }
  }

  /**
   * The visits of a fetched block with transactions are exactly those it asks for, in strictly
   * ascending order: each once, every transaction before its own logs, logs by position.
   */
  lemma BlockTraceIsComplete(raws: seq<RawTx>, n: nat)
    requires raws != []
    ensures var trace := BlockTrace(ShapeOf(raws), FlatLogs(raws), n);
      && Ascending(trace)
      && (forall v :: v in trace <==> Asked(ShapeOf(raws), n, v))
  {
    var shape := ShapeOf(raws);
    FetchedShape(raws);
    BlockVisitsAre(n);
    TxVisitsAre(shape, n);
    var xs, ys := BlockVisits(n), TxVisits(shape, n);
    forall a, b | 0 <= a < |xs| && 0 <= b < |ys|
      ensures Before(xs[a], ys[b])
    {
      assert xs[a] in xs && ys[b] in ys;
    }
    AscendingJoin(xs, ys);
  }

  /** In an ascending trace no visit happens twice, and earlier keys come first. */
  lemma AscendingMeansOnceAndInOrder(trace: seq<Visit>, a: nat, b: nat)
    requires Ascending(trace) && a < |trace| && b < |trace|
    ensures trace[a] == trace[b] <==> a == b
    ensures Before(trace[a], trace[b]) <==> a < b
  {
  }

  /** A fetched block without transactions is visited by nobody, not even by block handlers. */
  lemma EmptyBlockIsSkipped(n: nat)
    ensures BlockTrace(ShapeOf([]), FlatLogs([]), n) == []
  {
  }

  // ---- the logs one datasource sees ----

  /** The logs in the visits of one datasource. */
  function LogsSeen(trace: seq<Visit>, ds: nat): seq<Log> {
    if trace == [] then []
    else
      var last := trace[|trace| - 1];
      LogsSeen(trace[..|trace| - 1], ds) + if last.EventVisit? && last.ds == ds then [last.log] else []
  }

  lemma {:induction false} LogsSeenJoin(xs: seq<Visit>, ys: seq<Visit>, ds: nat)
    ensures LogsSeen(xs + ys, ds) == LogsSeen(xs, ds) + LogsSeen(ys, ds)
    decreases |ys|
  {
    if ys == [] {
      assert xs + ys == xs;
    } else {
      var last := |ys| - 1;
      LogsSeenJoin(xs, ys[..last], ds);
      assert (xs + ys)[..|xs + ys| - 1] == xs + ys[..last];
    }
  }

  lemma {:induction false} NoLogsSeen(xs: seq<Visit>, ds: nat)
    requires forall a :: 0 <= a < |xs| ==> !xs[a].EventVisit?
    ensures LogsSeen(xs, ds) == []
  {
    if xs != [] {
      NoLogsSeen(xs[..|xs| - 1], ds);
    }
  }

  lemma {:induction false} OneLogSeen(log: Log, n: nat, ds: nat)
    ensures LogsSeen(EventVisits(log, n), ds) == if ds < n then [log] else []
  {
    if n > 0 {
      OneLogSeen(log, n - 1, ds);
      assert EventVisits(log, n)[..n - 1] == EventVisits(log, n - 1);
    }
  }

  lemma {:induction false} AllLogsSeen(logs: seq<Log>, n: nat, ds: nat)
    requires ds < n
    ensures LogsSeen(LogVisits(logs, n), ds) == logs
  {
    if logs != [] {
      var last := |logs| - 1;
      var front, here := LogVisits(logs[..last], n), EventVisits(logs[last], n);
      AllLogsSeen(logs[..last], n, ds);
      OneLogSeen(logs[last], n, ds);
      calc {
        LogsSeen(LogVisits(logs, n), ds);
        LogsSeen(front + here, ds);
        { LogsSeenJoin(front, here, ds); }
        LogsSeen(front, ds) + LogsSeen(here, ds);
        logs[..last] + [logs[last]];
        logs;
      }
    }
  }

  lemma OwnLogsSeen(tx: nat, logs: seq<Log>, n: nat, ds: nat)
    requires ds < n
    ensures LogsSeen(OwnVisits(tx, logs, n), ds) == logs
  {
    NoLogsSeen(CallVisits(tx, n), ds);
    AllLogsSeen(logs, n, ds);
    LogsSeenJoin(CallVisits(tx, n), LogVisits(logs, n), ds);
  }

  lemma {:induction false} ShapeLogsSeen(shape: seq<seq<Log>>, n: nat, ds: nat)
    requires ds < n
    ensures LogsSeen(TxVisits(shape, n), ds) == Joined(shape)
  {
    if shape != [] {
      var last := |shape| - 1;
      var front, own := TxVisits(shape[..last], n), OwnVisits(last, shape[last], n);
      ShapeLogsSeen(shape[..last], n, ds);
      OwnLogsSeen(last, shape[last], n, ds);
      calc {
        LogsSeen(TxVisits(shape, n), ds);
        LogsSeen(front + own, ds);
        { LogsSeenJoin(front, own, ds); }
        LogsSeen(front, ds) + LogsSeen(own, ds);
        Joined(shape[..last]) + shape[last];
        Joined(shape);
      }
    }
  }

  function Joined(shape: seq<seq<Log>>): seq<Log> {
    if shape == [] then [] else Joined(shape[..|shape| - 1]) + shape[|shape| - 1]
  }

  lemma {:induction false} JoinedIsFlat(raws: seq<RawTx>)
    ensures Joined(ShapeOf(raws)) == FlatLogs(raws)
  {
    if raws != [] {
      var last := |raws| - 1;
      JoinedIsFlat(raws[..last]);
      assert ShapeOf(raws)[..last] == ShapeOf(raws[..last]);
    }
  }

  /** Every datasource is shown exactly the block's flattened logs, contents and order. */
  lemma EveryDataSourceSeesAllLogs(raws: seq<RawTx>, n: nat, ds: nat)
    requires raws != [] && ds < n
    ensures LogsSeen(BlockTrace(ShapeOf(raws), FlatLogs(raws), n), ds) == FlatLogs(raws)
  {
    NoLogsSeen(BlockVisits(n), ds);
    ShapeLogsSeen(ShapeOf(raws), n, ds);
    JoinedIsFlat(raws);
    LogsSeenJoin(BlockVisits(n), TxVisits(ShapeOf(raws), n), ds);
  }

  /** Without transactions the log list alone is walked, past every datasource. */
  lemma LightBlockShowsItsLogs(logs: seq<Log>, n: nat, ds: nat)
    requires ds < n
    ensures LogsSeen(BlockTrace([], logs, n), ds) == logs
  {
    AllLogsSeen(logs, n, ds);
  }

  // ---- who is given a transaction ----

  predicate RunBefore(a: HandlerRun, b: HandlerRun) {
    KeyLess((a.tx, a.ds, a.handler), (b.tx, b.ds, b.handler))
  }

  ghost predicate RunsAscend(runs: seq<HandlerRun>) {
    forall i, j :: 0 <= i < j < |runs| ==> RunBefore(runs[i], runs[j])
  }

  /** The handler exists among the first k datasources and wants this transaction. */
  ghost predicate CalledWith(keccak: Keccak, tx: TxData, dataSources: seq<DataSource>, k: nat, r: HandlerRun)
    requires k <= |dataSources|
  {
    r.ds < k && r.handler < |dataSources[r.ds].handlers| && Wants(keccak, tx, dataSources[r.ds], r.handler)
  }

  /** The transaction and the handler exist, and the handler wants it. */
  ghost predicate Called(keccak: Keccak, txs: seq<TxData>, dataSources: seq<DataSource>, r: HandlerRun) {
    r.tx < |txs| && CalledWith(keccak, txs[r.tx], dataSources, |dataSources|, r)
  }

  lemma {:induction false} SourceRunsAre(keccak: Keccak, tx: TxData, i: nat, dataSource: DataSource, d: nat, k: nat)
    requires k <= |dataSource.handlers|
    ensures var runs := SourceRuns(keccak, tx, i, dataSource, d, k);
      && RunsAscend(runs)
      && forall r :: r in runs <==> r.tx == i && r.ds == d && r.handler < k && Wants(keccak, tx, dataSource, r.handler)
  {
    if k > 0 {
      SourceRunsAre(keccak, tx, i, dataSource, d, k - 1);
    }
  }

  lemma RunsJoin(xs: seq<HandlerRun>, ys: seq<HandlerRun>)
    requires RunsAscend(xs) && RunsAscend(ys) && forall x, y :: x in xs && y in ys ==> RunBefore(x, y)
    ensures RunsAscend(xs + ys)
  {
  }

  lemma {:induction false} TxRunsAre(keccak: Keccak, tx: TxData, i: nat, dataSources: seq<DataSource>, k: nat)
    requires k <= |dataSources|
    ensures var runs := TxRuns(keccak, tx, i, dataSources, k);
      && RunsAscend(runs)
      && forall r :: r in runs <==> r.tx == i && CalledWith(keccak, tx, dataSources, k, r)
  {
    if k > 0 {
      var front := TxRuns(keccak, tx, i, dataSources, k - 1);
      var last := SourceRuns(keccak, tx, i, dataSources[k - 1], k - 1, |dataSources[k - 1].handlers|);
      TxRunsAre(keccak, tx, i, dataSources, k - 1);
      SourceRunsAre(keccak, tx, i, dataSources[k - 1], k - 1, |dataSources[k - 1].handlers|);
      RunsJoin(front, last);
      forall r
        ensures r in front + last <==> r in front || r in last
      {
      }
    }
  }

  lemma {:induction false} BlockRunsAre(keccak: Keccak, txs: seq<TxData>, dataSources: seq<DataSource>, k: nat)
    requires k <= |txs|
    ensures var runs := BlockRuns(keccak, txs, dataSources, k);
      && RunsAscend(runs)
      && forall r :: r in runs <==> r.tx < k && Called(keccak, txs, dataSources, r)
  {
    if k > 0 {
      var front := BlockRuns(keccak, txs, dataSources, k - 1);
      var last := TxRuns(keccak, txs[k - 1], k - 1, dataSources, |dataSources|);
      BlockRunsAre(keccak, txs, dataSources, k - 1);
      TxRunsAre(keccak, txs[k - 1], k - 1, dataSources, |dataSources|);
      RunsJoin(front, last);
      forall r: HandlerRun
        ensures r in front + last <==> r.tx < k && Called(keccak, txs, dataSources, r)
      {
        assert r in front + last <==> r in front || r in last;
        assert r in last <==> r.tx == k - 1 && CalledWith(keccak, txs[k - 1], dataSources, |dataSources|, r);
      }
    }
  }

  function DatasOf(raws: seq<RawTx>): seq<TxData> {
    seq(|raws|, i requires 0 <= i < |raws| => raws[i].data)
  }

  /** A fetched block that is indexed without interruption: all of the above about what really ran. */
  method FetchAndIndex(manager: IndexerManager, raws: seq<RawTx>, dataSources: seq<DataSource>) returns (ok: bool)
    modifies manager
    ensures old(manager.trace) <= manager.trace
    ensures manager.trace <= old(manager.trace) + BlockTrace(ShapeOf(raws), FlatLogs(raws), |dataSources|)
    ensures if ok then manager.thrown == old(manager.thrown)
            else |old(manager.trace)| < |manager.trace|
                 && manager.thrown == old(manager.thrown) + [manager.trace[|manager.trace| - 1]]
    ensures ok && raws == [] ==> manager.trace == old(manager.trace)
    ensures ok && raws != [] ==>
      && var visits := manager.trace[|old(manager.trace)|..];
      && Ascending(visits)
      && (forall v :: v in visits <==> Asked(ShapeOf(raws), |dataSources|, v))
      && (forall ds: nat :: ds < |dataSources| ==> LogsSeen(visits, ds) == FlatLogs(raws))
    // every handler is given exactly the transactions that its filter accepts untouched, once, in order
    ensures ok ==>
      && old(manager.runs) <= manager.runs
      && var runs := manager.runs[|old(manager.runs)|..];
      && RunsAscend(runs)
      && forall r :: r in runs <==> Called(manager.keccak, DatasOf(raws), dataSources, r)
  {
    var transactions, logs := FetchBlock(raws);
    assert DataOf(transactions) == DatasOf(raws);
    BlockRunsAre(manager.keccak, DatasOf(raws), dataSources, |raws|);
    ok := manager.IndexBlockData(transactions, logs, dataSources);
    if raws == [] {
      EmptyBlockIsSkipped(|dataSources|);
    } else {
      BlockTraceIsComplete(raws, |dataSources|);
      forall ds: nat | ds < |dataSources|
        ensures LogsSeen(BlockTrace(ShapeOf(raws), FlatLogs(raws), |dataSources|), ds) == FlatLogs(raws)
      {
        EveryDataSourceSeesAllLogs(raws, |dataSources|, ds);
      }
    }
  }
}
