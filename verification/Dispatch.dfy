/** Fetching a block and walking its transactions and logs past every datasource. */
module Dispatch {
  import opened Wrappers
  import opened Texts
  import opened Filters
  import opened DataSources
  import opened Transactions

  datatype RawEvent = RawEvent(fromAddress: Text, keys: seq<Text>, data: seq<Text>)

  datatype RawTx = RawTx(data: TxData, events: seq<RawEvent>)

  // ---- fetching ----

  function FormatLog(e: RawEvent, transactionIndex: nat, logIndex: nat): Log {
    Log(e.fromAddress, e.keys, e.data, transactionIndex, logIndex, None)
  }

  function FormatLogs(events: seq<RawEvent>, transactionIndex: nat): seq<Log> {
    seq(|events|, j requires 0 <= j < |events| => FormatLog(events[j], transactionIndex, j))
  }

  /** `block.logs`: the logs of all transactions, one after the other. */
  function FlatLogs(raws: seq<RawTx>): seq<Log> {
    if raws == [] then []
    else FlatLogs(raws[..|raws| - 1]) + FormatLogs(raws[|raws| - 1].events, |raws| - 1)
  }

  /** The number of events in the first i transactions. */
  ghost function EventsBefore(raws: seq<RawTx>, i: nat): nat
    requires i <= |raws|
  {
    if i == 0 then 0 else EventsBefore(raws, i - 1) + |raws[i - 1].events|
  }

  lemma {:induction false} EventsBeforeIgnoresRest(raws: seq<RawTx>, n: nat, i: nat)
    requires i <= n <= |raws|
    ensures EventsBefore(raws[..n], i) == EventsBefore(raws, i)
  {
    if i > 0 {
      EventsBeforeIgnoresRest(raws, n, i - 1);
    }
  }

  lemma {:induction false} FlatLogsLength(raws: seq<RawTx>)
    ensures |FlatLogs(raws)| == EventsBefore(raws, |raws|)
  {
    if raws != [] {
      FlatLogsLength(raws[..|raws| - 1]);
      EventsBeforeIgnoresRest(raws, |raws| - 1, |raws| - 1);
    }
  }

  /** The flattened log list has log j of transaction i after all logs of the transactions before it. */
  lemma {:induction false} FlatLogsAt(raws: seq<RawTx>, i: nat, j: nat)
    requires i < |raws| && j < |raws[i].events|
    ensures EventsBefore(raws, i) + j < |FlatLogs(raws)|
    ensures FlatLogs(raws)[EventsBefore(raws, i) + j] == FormatLog(raws[i].events[j], i, j)
    decreases |raws|
  {
    var last := |raws| - 1;
    FlatLogsLength(raws[..last]);
    EventsBeforeIgnoresRest(raws, last, last);
    if i < last {
      FlatLogsAt(raws[..last], i, j);
      EventsBeforeIgnoresRest(raws, last, i);
    }
  }

  lemma FormattedLogsAreBare(events: seq<RawEvent>, transactionIndex: nat)
    ensures BareLogs(FormatLogs(events, transactionIndex)) == FormatLogs(events, transactionIndex)
  {
  }

  lemma {:induction false} FlatLogsAreBare(raws: seq<RawTx>)
    ensures BareLogs(FlatLogs(raws)) == FlatLogs(raws)
  {
    if raws != [] {
      var last := |raws| - 1;
      FlatLogsAreBare(raws[..last]);
      FormattedLogsAreBare(raws[last].events, last);
      BareLogsJoin(FlatLogs(raws[..last]), FormatLogs(raws[last].events, last));
    }
  }

  lemma BareLogsJoin(xs: seq<Log>, ys: seq<Log>)
    ensures BareLogs(xs + ys) == BareLogs(xs) + BareLogs(ys)
  {
  }

  /** One log per event, with the event's address, keys and data. */
  ghost predicate CarryEvents(logs: seq<Log>, events: seq<RawEvent>, transactionIndex: nat) {
    && |logs| == |events|
    && forall j :: 0 <= j < |logs| ==> Carries(logs[j], events[j], transactionIndex, j)
  }

  ghost predicate Carries(log: Log, e: RawEvent, transactionIndex: nat, logIndex: nat) {
    && log.address == e.fromAddress && log.topics == e.keys && log.data == e.data
    && log.transactionIndex == transactionIndex && log.logIndex == logIndex && log.args == None
  }

  /** The block's logs are those of its events, the events of earlier transactions first, and no others. */
  ghost predicate AllStandIn(logs: seq<Log>, raws: seq<RawTx>) {
    && |logs| == EventsBefore(raws, |raws|)
    && forall i, j :: 0 <= i < |raws| && 0 <= j < |raws[i].events| ==> StandsIn(logs, raws, i, j)
  }

  ghost predicate StandsIn(logs: seq<Log>, raws: seq<RawTx>, i: nat, j: nat)
    requires i < |raws| && j < |raws[i].events|
  {
    EventsBefore(raws, i) + j < |logs| && Carries(logs[EventsBefore(raws, i) + j], raws[i].events[j], i, j)
  }

  lemma FlatLogsStandIn(raws: seq<RawTx>)
    ensures AllStandIn(FlatLogs(raws), raws)
  {
    FlatLogsLength(raws);
    forall i, j | 0 <= i < |raws| && 0 <= j < |raws[i].events|
      ensures StandsIn(FlatLogs(raws), raws, i, j)
    {
      FlatLogsAt(raws, i, j);
    }
  }

  lemma FetchedLogs(raws: seq<RawTx>, transactions: seq<Transaction>)
    requires |transactions| == |raws|
    requires forall i :: 0 <= i < |raws| ==> transactions[i].logs == FormatLogs(raws[i].events, i)
    ensures Shape(transactions) == ShapeOf(raws)
    ensures forall i :: 0 <= i < |raws| ==> CarryEvents(transactions[i].logs, raws[i].events, i)
  {
    forall i | 0 <= i < |raws|
      ensures Shape(transactions)[i] == ShapeOf(raws)[i]
    {
      FormattedLogsAreBare(raws[i].events, i);
    }
  }

  method FetchBlock(raws: seq<RawTx>) returns (transactions: seq<Transaction>, logs: seq<Log>)
    ensures |transactions| == |raws| && Distinct(transactions)
    ensures forall i :: 0 <= i < |raws| ==>
      && fresh(transactions[i]) && transactions[i].Valid()
      && transactions[i].data == raws[i].data && transactions[i].logs == FormatLogs(raws[i].events, i)
    ensures Shape(transactions) == ShapeOf(raws)
    ensures logs == FlatLogs(raws) == BareLogs(logs)
    // every log carries its event, under its transaction and at its place in the block
    ensures forall i :: 0 <= i < |raws| ==> CarryEvents(transactions[i].logs, raws[i].events, i)
    ensures AllStandIn(logs, raws)
  {
    transactions, logs := [], [];
    for i := 0 to |raws|
      invariant |transactions| == i && Distinct(transactions)
      invariant forall k :: 0 <= k < i ==>
        && fresh(transactions[k]) && transactions[k].Valid()
        && transactions[k].data == raws[k].data && transactions[k].logs == FormatLogs(raws[k].events, k)
      invariant logs == FlatLogs(raws[..i])
    {
      var tx := new Transaction(raws[i].data, FormatLogs(raws[i].events, i));
      transactions := transactions + [tx];
      assert raws[..i + 1][..i] == raws[..i];
      logs := logs + FormatLogs(raws[i].events, i);
    }
    assert raws[..|raws|] == raws;
    FlatLogsAreBare(raws);
    FlatLogsStandIn(raws);
    FetchedLogs(raws, transactions);
  }

  // ---- the visits a block calls for ----

  /** One call of `indexData`: the bare log it is given, and the place of its datasource in the list. */
  datatype Visit =
    | BlockVisit(ds: nat)
    | CallVisit(tx: nat, ds: nat)
    | EventVisit(log: Log, ds: nat)

  function BlockVisits(n: nat): seq<Visit> { seq(n, (d: nat) => BlockVisit(d)) }

  function CallVisits(tx: nat, n: nat): seq<Visit> { seq(n, (d: nat) => CallVisit(tx, d)) }

  function EventVisits(log: Log, n: nat): seq<Visit> { seq(n, (d: nat) => EventVisit(log, d)) }

  function LogVisits(logs: seq<Log>, n: nat): seq<Visit> {
    if logs == [] then [] else LogVisits(logs[..|logs| - 1], n) + EventVisits(logs[|logs| - 1], n)
  }

  /** A transaction's own visits, then those of its logs. */
  function OwnVisits(tx: nat, logs: seq<Log>, n: nat): seq<Visit> { CallVisits(tx, n) + LogVisits(logs, n) }

  function TxVisits(shape: seq<seq<Log>>, n: nat): seq<Visit> {
    if shape == [] then []
    else
      var last := |shape| - 1;
      TxVisits(shape[..last], n) + OwnVisits(last, shape[last], n)
  }

  /** The bare logs of each transaction. */
  function ShapeOf(raws: seq<RawTx>): seq<seq<Log>> {
    seq(|raws|, i requires 0 <= i < |raws| => FormatLogs(raws[i].events, i))
  }

  /** A block without transactions is not a full block: only its log list is walked. */
  function BlockTrace(shape: seq<seq<Log>>, logs: seq<Log>, n: nat): seq<Visit> {
    if shape == [] then LogVisits(logs, n) else BlockVisits(n) + TxVisits(shape, n)
  }

  // ---- the handlers a block calls for ----

  /** A Call handler that was given a transaction: its place in the list of its datasource. */
  datatype HandlerRun = HandlerRun(tx: nat, ds: nat, handler: nat)

  /** The handler's filter accepts a copy of the transaction that nobody has touched. */
  predicate Wants(keccak: Keccak, tx: TxData, dataSource: DataSource, h: nat)
    requires h < |dataSource.handlers|
  {
    var spec := dataSource.handlers[h].spec;
    spec.CallSpec? && Verdict(keccak, tx, spec.call, dataSource.address) == Ok(true)
  }

  /** The handler's filter throws on the transaction. */
  predicate Balks(keccak: Keccak, tx: TxData, dataSource: DataSource, h: nat)
    requires h < |dataSource.handlers|
  {
    var spec := dataSource.handlers[h].spec;
    spec.CallSpec? && Verdict(keccak, tx, spec.call, dataSource.address).Err?
  }

  /** What one handler makes of the remembered calls: its filter looks at them, and the parser if it wants them. */
  function CacheAfterHandler(keccak: Keccak, tx: TxData, cache: Cache, dataSource: DataSource, h: nat,
                             assetsLoad: bool, args: ArgsOf): Cache
    requires h < |dataSource.handlers|
  {
    var spec := dataSource.handlers[h].spec;
    if !spec.CallSpec? then cache
    else
      var filtered := CacheAfter(keccak, tx, cache, Evaluate(spec.call, dataSource.address));
      if Wants(keccak, tx, dataSource, h) then CacheAfter(keccak, tx, filtered, Parse(assetsLoad, args)) else filtered
  }

  predicate NoneBalks(keccak: Keccak, tx: TxData, dataSource: DataSource, k: nat)
    requires k <= |dataSource.handlers|
  {
    forall h :: 0 <= h < k ==> !Balks(keccak, tx, dataSource, h)
  }

  predicate NoSourceBalks(keccak: Keccak, tx: TxData, dataSources: seq<DataSource>, k: nat)
    requires k <= |dataSources|
  {
    forall d :: 0 <= d < k ==> NoneBalks(keccak, tx, dataSources[d], |dataSources[d].handlers|)
  }

  /** The runs among the first k handlers of datasource d. */
  function SourceRuns(keccak: Keccak, tx: TxData, i: nat, dataSource: DataSource, d: nat, k: nat): seq<HandlerRun>
    requires k <= |dataSource.handlers|
  {
    if k == 0 then []
    else
      SourceRuns(keccak, tx, i, dataSource, d, k - 1)
      + if Wants(keccak, tx, dataSource, k - 1) then [HandlerRun(i, d, k - 1)] else []
  }

  /** The runs on transaction i for the first k datasources. */
  function TxRuns(keccak: Keccak, tx: TxData, i: nat, dataSources: seq<DataSource>, k: nat): seq<HandlerRun>
    requires k <= |dataSources|
  {
    if k == 0 then []
    else
      TxRuns(keccak, tx, i, dataSources, k - 1)
      + SourceRuns(keccak, tx, i, dataSources[k - 1], k - 1, |dataSources[k - 1].handlers|)
  }

  /** The runs on the first k transactions. */
  function BlockRuns(keccak: Keccak, txs: seq<TxData>, dataSources: seq<DataSource>, k: nat): seq<HandlerRun>
    requires k <= |txs|
  {
    if k == 0 then []
    else
      BlockRuns(keccak, txs, dataSources, k - 1) + TxRuns(keccak, txs[k - 1], k - 1, dataSources, |dataSources|)
  }

  function DataOf(transactions: seq<Transaction>): seq<TxData> {
    seq(|transactions|, i requires 0 <= i < |transactions| => transactions[i].data)
  }

  // ---- the indexer ----

  ghost function Shape(transactions: seq<Transaction>): seq<seq<Log>>
    reads transactions
  {
    seq(|transactions|, i requires 0 <= i < |transactions| reads transactions => BareLogs(transactions[i].logs))
  }

  /** The visits made so far, and those that ended in an error. */
  datatype Progress = Progress(trace: seq<Visit>, thrown: seq<Visit>)

  /** All the visits were made, or a prefix of them whose last visit, and no other, threw. */
  ghost predicate Made(before: Progress, after: Progress, visits: seq<Visit>, ok: bool) {
    && before.trace <= after.trace <= before.trace + visits
    && if ok then
         after == Progress(before.trace + visits, before.thrown)
       else
         && |before.trace| < |after.trace|
         && after.thrown == before.thrown + [after.trace[|after.trace| - 1]]
  }

  /** A part of the visits that is made after an earlier part. */
  lemma MadeMore(before: Progress, done: seq<Visit>, mid: Progress, part: seq<Visit>, after: Progress, ok: bool,
                 all: seq<Visit>)
    requires mid == Progress(before.trace + done, before.thrown) && Made(mid, after, part, ok)
    requires if ok then done + part == all else done + part <= all
    ensures Made(before, after, all, ok)
  {
    assert before.trace + done + part == before.trace + (done + part);
    assert before.trace + (done + part) <= before.trace + all;
  }

  lemma {:induction false} LogVisitsGrow(logs: seq<Log>, j: nat, n: nat)
    requires j < |logs|
    ensures LogVisits(logs[..j + 1], n) == LogVisits(logs[..j], n) + EventVisits(logs[j], n)
    ensures LogVisits(logs[..j + 1], n) <= LogVisits(logs, n)
    decreases |logs|
  {
    assert logs[..j + 1][..j] == logs[..j];
    var last := |logs| - 1;
    if j < last {
      LogVisitsGrow(logs[..last], j, n);
      assert logs[..last][..j + 1] == logs[..j + 1];
    } else {
      assert logs[..j + 1] == logs;
    }
  }

  lemma {:induction false} TxVisitsGrow(shape: seq<seq<Log>>, i: nat, n: nat)
    requires i < |shape|
    ensures TxVisits(shape[..i + 1], n) == TxVisits(shape[..i], n) + OwnVisits(i, shape[i], n)
    ensures TxVisits(shape[..i + 1], n) <= TxVisits(shape, n)
    decreases |shape|
  {
    assert shape[..i + 1][..i] == shape[..i];
    var last := |shape| - 1;
    if i < last {
      TxVisitsGrow(shape[..last], i, n);
      assert shape[..last][..i + 1] == shape[..i + 1];
    } else {
      assert shape[..i + 1] == shape;
    }
  }

  /** The visits up to and including number d; the run may end there. */
  lemma OneVisitMore(start: Progress, visits: seq<Visit>, d: nat)
    requires d < |visits|
    ensures start.trace + visits[..d] + [visits[d]] == start.trace + visits[..d + 1]
    ensures Made(start, Progress(start.trace + visits[..d + 1], start.thrown + [visits[d]]), visits, false)
  {
    assert visits[..d + 1] == visits[..d] + [visits[d]];
    assert start.trace + visits[..d + 1] <= start.trace + visits;
  }

  /** The first k handlers that want the transaction have run, and no filter of the k threw. */
  ghost predicate HandlersDone(keccak: Keccak, tx: TxData, i: nat, dataSource: DataSource, d: nat,
                               before: seq<HandlerRun>, runs: seq<HandlerRun>, k: nat)
    requires k <= |dataSource.handlers|
  {
    runs == before + SourceRuns(keccak, tx, i, dataSource, d, k) && NoneBalks(keccak, tx, dataSource, k)
  }

  lemma HandlerDone(keccak: Keccak, tx: TxData, i: nat, dataSource: DataSource, d: nat, before: seq<HandlerRun>,
                    mid: seq<HandlerRun>, runs: seq<HandlerRun>, h: nat)
    requires h < |dataSource.handlers| && HandlersDone(keccak, tx, i, dataSource, d, before, mid, h)
    requires runs == mid + if Wants(keccak, tx, dataSource, h) then [HandlerRun(i, d, h)] else []
    requires !Balks(keccak, tx, dataSource, h)
    ensures HandlersDone(keccak, tx, i, dataSource, d, before, runs, h + 1)
  {
  }

  /** A handler that ends the run: its filter threw, or it is the last that ran. */
  lemma EndsAt(keccak: Keccak, tx: TxData, i: nat, dataSource: DataSource, d: nat, before: seq<HandlerRun>,
               mid: seq<HandlerRun>, runs: seq<HandlerRun>, h: nat)
    requires h < |dataSource.handlers| && HandlersDone(keccak, tx, i, dataSource, d, before, mid, h)
    requires runs == mid + if Wants(keccak, tx, dataSource, h) then [HandlerRun(i, d, h)] else []
    ensures before <= runs
    ensures Balks(keccak, tx, dataSource, h) ==> !NoneBalks(keccak, tx, dataSource, |dataSource.handlers|)
    ensures Wants(keccak, tx, dataSource, h) ==>
      |before| < |runs| && runs[|runs| - 1] == HandlerRun(i, d, h)
  {
  }

  /** The first d datasources have run their handlers, and no filter of theirs threw. */
  ghost predicate SourcesDone(keccak: Keccak, tx: TxData, i: nat, dataSources: seq<DataSource>,
                              before: seq<HandlerRun>, runs: seq<HandlerRun>, d: nat)
    requires d <= |dataSources|
  {
    runs == before + TxRuns(keccak, tx, i, dataSources, d) && NoSourceBalks(keccak, tx, dataSources, d)
  }

  lemma SourceDone(keccak: Keccak, tx: TxData, i: nat, dataSources: seq<DataSource>, before: seq<HandlerRun>,
                   mid: seq<HandlerRun>, runs: seq<HandlerRun>, d: nat)
    requires d < |dataSources| && SourcesDone(keccak, tx, i, dataSources, before, mid, d)
    requires runs == mid + SourceRuns(keccak, tx, i, dataSources[d], d, |dataSources[d].handlers|)
    requires NoneBalks(keccak, tx, dataSources[d], |dataSources[d].handlers|)
    ensures SourcesDone(keccak, tx, i, dataSources, before, runs, d + 1)
  {
  }

  /** One log more, or a run that ends within its visits. */
  lemma LogsMadeMore(start: Progress, logs: seq<Log>, j: nat, n: nat, mid: Progress, after: Progress, ok: bool)
    requires j < |logs| && Made(start, mid, LogVisits(logs[..j], n), true)
    requires Made(mid, after, EventVisits(logs[j], n), ok)
    ensures Made(start, after, LogVisits(if ok then logs[..j + 1] else logs, n), ok)
  {
    LogVisitsGrow(logs, j, n);
    MadeMore(start, LogVisits(logs[..j], n), mid, EventVisits(logs[j], n), after, ok,
             LogVisits(if ok then logs[..j + 1] else logs, n));
  }

  lemma TxsMadeMore(start: Progress, shape: seq<seq<Log>>, i: nat, n: nat, mid: Progress, after: Progress, ok: bool)
    requires i < |shape| && Made(start, mid, TxVisits(shape[..i], n), true)
    requires Made(mid, after, OwnVisits(i, shape[i], n), ok)
    ensures Made(start, after, TxVisits(if ok then shape[..i + 1] else shape, n), ok)
  {
    TxVisitsGrow(shape, i, n);
    MadeMore(start, TxVisits(shape[..i], n), mid, OwnVisits(i, shape[i], n), after, ok,
             TxVisits(if ok then shape[..i + 1] else shape, n));
  }

  lemma BlockRunsGrow(keccak: Keccak, before: seq<HandlerRun>, txs: seq<TxData>, dataSources: seq<DataSource>, i: nat)
    requires i < |txs|
    ensures before + BlockRuns(keccak, txs, dataSources, i) + TxRuns(keccak, txs[i], i, dataSources, |dataSources|)
         == before + BlockRuns(keccak, txs, dataSources, i + 1)
  {
  }

  /** The first i transactions are done. */
  ghost predicate Reached(keccak: Keccak, start: Progress, before: seq<HandlerRun>, now: Progress,
                          runs: seq<HandlerRun>, shape: seq<seq<Log>>, txs: seq<TxData>,
                          dataSources: seq<DataSource>, i: nat)
  {
    && i <= |shape| == |txs|
    && Made(start, now, TxVisits(shape[..i], |dataSources|), true)
    && runs == before + BlockRuns(keccak, txs, dataSources, i)
  }

  /** One transaction more, or a run that ends within its visits. */
  lemma ReachMore(keccak: Keccak, start: Progress, before: seq<HandlerRun>, mid: Progress, midRuns: seq<HandlerRun>,
                  now: Progress, runs: seq<HandlerRun>, shape: seq<seq<Log>>, txs: seq<TxData>,
                  dataSources: seq<DataSource>, i: nat, ok: bool)
    requires i < |shape| && Reached(keccak, start, before, mid, midRuns, shape, txs, dataSources, i)
    requires Made(mid, now, OwnVisits(i, shape[i], |dataSources|), ok)
    requires ok ==> runs == midRuns + TxRuns(keccak, txs[i], i, dataSources, |dataSources|)
    ensures if ok then Reached(keccak, start, before, now, runs, shape, txs, dataSources, i + 1)
            else Made(start, now, TxVisits(shape, |dataSources|), false)
  {
    TxsMadeMore(start, shape, i, |dataSources|, mid, now, ok);
    if ok {
      BlockRunsGrow(keccak, before, txs, dataSources, i);
    }
  }

  class IndexerManager {
    const keccak: Keccak
    const args: ArgsOf
    const logArgs: Log -> Option<string>
    const assetsLoad: DataSource -> bool
    var trace: seq<Visit>
    var thrown: seq<Visit>
    var runs: seq<HandlerRun>
    var crashes: seq<HandlerRun>

    ghost function Now(): Progress
      reads this
    {
      Progress(trace, thrown)
    }

    constructor (keccak: Keccak, args: ArgsOf, logArgs: Log -> Option<string>, assetsLoad: DataSource -> bool)
      ensures Now() == Progress([], []) && runs == crashes == [] && this.keccak == keccak
    {
      this.keccak, this.args, this.logArgs, this.assetsLoad := keccak, args, logArgs, assetsLoad;
      trace, thrown, runs, crashes := [], [], [], [];
    }

    /** Filters a transaction for one handler, and parses it if the handler wants it and then is run. */
    method Offer(tx: Transaction, i: nat, dataSource: DataSource, d: nat, h: nat) returns (ok: bool)
      requires tx.Valid() && h < |dataSource.handlers|
      modifies this`runs, this`crashes, tx
      ensures tx.Valid() && BareLogs(tx.logs) == BareLogs(old(tx.logs))
      ensures runs == old(runs) + if Wants(keccak, tx.data, dataSource, h) then [HandlerRun(i, d, h)] else []
      ensures ok ==> crashes == old(crashes) && !Balks(keccak, tx.data, dataSource, h)
      ensures !ok ==> if Balks(keccak, tx.data, dataSource, h) then crashes == old(crashes)
                      else Wants(keccak, tx.data, dataSource, h) && crashes == old(crashes) + [HandlerRun(i, d, h)]
      ensures tx.decodedCalls
        == CacheAfterHandler(keccak, tx.data, old(tx.decodedCalls), dataSource, h, assetsLoad(dataSource), args)
      ensures tx.logs == if Wants(keccak, tx.data, dataSource, h) && assetsLoad(dataSource) && Decode(tx.data).Ok?
                         then FillLogArgs(old(tx.logs), logArgs) else old(tx.logs)
    {
      ok := true;
      if dataSource.handlers[h].spec.CallSpec? {
        var accepted := tx.FilterTransactionsProcessor(keccak, dataSource.handlers[h].spec.call, dataSource.address);
        if accepted.Err? {
          return false;
        }
        if accepted.value {
          tx.ParseTransaction(assetsLoad(dataSource), args, logArgs);
          runs := runs + [HandlerRun(i, d, h)];
          ok := *;
          if !ok {
            crashes := crashes + [HandlerRun(i, d, h)];
          }
        }
      }
    }

    /**
     * Filters a transaction for one datasource, and parses it for the handlers that want it; filters
     * or handlers may throw. Who wants it does not depend on what happened to it before.
     */
    method IndexData(tx: Transaction, i: nat, dataSource: DataSource, d: nat) returns (ok: bool)
      requires tx.Valid()
      modifies this`runs, this`crashes, tx
      ensures tx.Valid() && BareLogs(tx.logs) == BareLogs(old(tx.logs))
      ensures old(runs) <= runs
      ensures ok ==>
        && runs == old(runs) + SourceRuns(keccak, tx.data, i, dataSource, d, |dataSource.handlers|)
        && NoneBalks(keccak, tx.data, dataSource, |dataSource.handlers|)
      // it fails only because the last handler it ran crashed, or because a filter threw
      ensures ok ==> crashes == old(crashes)
      ensures !ok ==>
        || (|old(runs)| < |runs| && crashes == old(crashes) + [runs[|runs| - 1]])
        || (crashes == old(crashes) && !NoneBalks(keccak, tx.data, dataSource, |dataSource.handlers|))
    {
      ghost var before := runs;
      for h := 0 to |dataSource.handlers|
        invariant tx.Valid() && BareLogs(tx.logs) == BareLogs(old(tx.logs))
        invariant crashes == old(crashes)
        invariant HandlersDone(keccak, tx.data, i, dataSource, d, before, runs, h)
      {
        ghost var midRuns := runs;
        ok := Offer(tx, i, dataSource, d, h);
        if !ok {
          EndsAt(keccak, tx.data, i, dataSource, d, before, midRuns, runs, h);
          return;
        }
        HandlerDone(keccak, tx.data, i, dataSource, d, before, midRuns, runs, h);
      }
      ok := true;
    }

    method IndexBlockContent(dataSources: seq<DataSource>) returns (ok: bool)
      modifies this`trace, this`thrown
      ensures Made(old(Now()), Now(), BlockVisits(|dataSources|), ok)
    {
      for d := 0 to |dataSources|
        invariant Now() == Progress(old(trace) + BlockVisits(|dataSources|)[..d], old(thrown))
      {
        trace := trace + [BlockVisit(d)];
        ok := *;
        if !ok {
          thrown := thrown + [BlockVisit(d)];
          return;
        }
      }
      ok := true;
    }

    method IndexTransaction(tx: Transaction, index: nat, dataSources: seq<DataSource>) returns (ok: bool)
      requires tx.Valid()
      modifies this, tx
      ensures tx.Valid() && BareLogs(tx.logs) == BareLogs(old(tx.logs))
      ensures Made(old(Now()), Now(), CallVisits(index, |dataSources|), ok)
      ensures ok ==> runs == old(runs) + TxRuns(keccak, tx.data, index, dataSources, |dataSources|)
      ensures ok ==> NoSourceBalks(keccak, tx.data, dataSources, |dataSources|)
    {
      ghost var start, before, visits := Now(), runs, CallVisits(index, |dataSources|);
      for d := 0 to |dataSources|
        invariant tx.Valid() && BareLogs(tx.logs) == BareLogs(old(tx.logs))
        invariant Now() == Progress(start.trace + visits[..d], start.thrown)
        invariant SourcesDone(keccak, tx.data, index, dataSources, before, runs, d)
      {
        OneVisitMore(start, visits, d);
        trace := trace + [CallVisit(index, d)];
        ghost var midRuns := runs;
        ok := IndexData(tx, index, dataSources[d], d);
        if !ok {
          thrown := thrown + [CallVisit(index, d)];
          return;
        }
        SourceDone(keccak, tx.data, index, dataSources, before, midRuns, runs, d);
      }
      assert visits[..|dataSources|] == visits;
      ok := true;
    }

    method IndexEvent(log: Log, dataSources: seq<DataSource>) returns (ok: bool)
      modifies this`trace, this`thrown
      ensures Made(old(Now()), Now(), EventVisits(Bare(log), |dataSources|), ok)
    {
      for d := 0 to |dataSources|
        invariant Now() == Progress(old(trace) + EventVisits(Bare(log), |dataSources|)[..d], old(thrown))
      {
        trace := trace + [EventVisit(Bare(log), d)];
        ok := *;
        if !ok {
          thrown := thrown + [EventVisit(Bare(log), d)];
          return;
        }
      }
      ok := true;
    }

    method IndexLogs(logs: seq<Log>, dataSources: seq<DataSource>) returns (ok: bool)
      modifies this`trace, this`thrown
      ensures Made(old(Now()), Now(), LogVisits(BareLogs(logs), |dataSources|), ok)
    {
      var n := |dataSources|;
      ghost var start, bare := Now(), BareLogs(logs);
      for j := 0 to |logs|
        invariant Made(start, Now(), LogVisits(bare[..j], n), true)
      {
        ghost var mid := Now();
        ok := IndexEvent(logs[j], dataSources);
        LogsMadeMore(start, bare, j, n, mid, Now(), ok);
        if !ok {
          return;
        }
      }
      assert bare[..|logs|] == bare;
      ok := true;
    }

    /** One turn of the outer loop: the logs are read after the transaction has been indexed. */
    method IndexOne(transactions: seq<Transaction>, i: nat, dataSources: seq<DataSource>) returns (ok: bool)
      requires i < |transactions| && Distinct(transactions)
      requires forall tx :: tx in transactions ==> tx.Valid()
      modifies this, transactions[i]
      ensures forall tx :: tx in transactions ==> tx.Valid()
      ensures Shape(transactions) == old(Shape(transactions))
      ensures Made(old(Now()), Now(), OwnVisits(i, old(Shape(transactions))[i], |dataSources|), ok)
      ensures ok ==> runs == old(runs) + TxRuns(keccak, transactions[i].data, i, dataSources, |dataSources|)
    {
      var tx := transactions[i];
      ghost var start := Now();
      ghost var calls, logs := CallVisits(i, |dataSources|), LogVisits(BareLogs(tx.logs), |dataSources|);
      ok := IndexTransaction(tx, i, dataSources);
      if ok {
        ghost var mid := Now();
        ok := IndexLogs(tx.logs, dataSources);
        MadeMore(start, calls, mid, logs, Now(), ok, calls + logs);
      } else {
        MadeMore(start, [], start, calls, Now(), ok, calls + logs);
      }
    }

    /** The transactions and their logs, one transaction after the other. */
    method IndexTransactions(transactions: seq<Transaction>, dataSources: seq<DataSource>) returns (ok: bool)
      requires Distinct(transactions) && forall tx :: tx in transactions ==> tx.Valid()
      modifies this, transactions
      ensures forall tx :: tx in transactions ==> tx.Valid()
      ensures Shape(transactions) == old(Shape(transactions))
      ensures Made(old(Now()), Now(), TxVisits(old(Shape(transactions)), |dataSources|), ok)
      ensures ok ==> runs == old(runs) + BlockRuns(keccak, DataOf(transactions), dataSources, |transactions|)
    {
      ghost var shape, start, txs, before := Shape(transactions), Now(), DataOf(transactions), runs;
      for i := 0 to |transactions|
        invariant forall tx :: tx in transactions ==> tx.Valid()
        invariant Shape(transactions) == shape
        invariant Reached(keccak, start, before, Now(), runs, shape, txs, dataSources, i)
      {
        ghost var mid, midRuns := Now(), runs;
        ok := IndexOne(transactions, i, dataSources);
        ReachMore(keccak, start, before, mid, midRuns, Now(), runs, shape, txs, dataSources, i, ok);
        if !ok {
          return;
        }
      }
      assert shape[..|transactions|] == shape;
      ok := true;
    }

    /** A run that nothing interrupts makes exactly the block's visits, in order; any other, a prefix. */
    method IndexBlockData(transactions: seq<Transaction>, logs: seq<Log>, dataSources: seq<DataSource>)
      returns (ok: bool)
      requires Distinct(transactions) && forall tx :: tx in transactions ==> tx.Valid()
      modifies this, transactions
      ensures forall tx :: tx in transactions ==> tx.Valid()
      ensures Shape(transactions) == old(Shape(transactions))
      ensures Made(old(Now()), Now(),
                   BlockTrace(old(Shape(transactions)), BareLogs(logs), |dataSources|), ok)
      ensures ok ==> runs == old(runs) + BlockRuns(keccak, DataOf(transactions), dataSources, |transactions|)
    {
      if |transactions| == 0 {
        ok := IndexLogs(logs, dataSources);
        return;
      }
      ghost var blockVisits, txVisits := BlockVisits(|dataSources|), TxVisits(Shape(transactions), |dataSources|);
      ghost var start := Now();
      ok := IndexBlockContent(dataSources);
      if ok {
        ghost var mid := Now();
        ok := IndexTransactions(transactions, dataSources);
        MadeMore(start, blockVisits, mid, txVisits, Now(), ok, blockVisits + txVisits);
      } else {
        MadeMore(start, [], start, blockVisits, Now(), ok, blockVisits + txVisits);
      }
    }
  }
}
