/**
 * The same tracker when calls overlap: every `await` is a point where the chain and
 * any other call may move, also while an answer is on its way back. A run is a sequence
 * of events; an event that cannot happen in a state leaves it as it is, so every sequence
 * of events is a run.
 */
module FinalizedInterleaving {
  import opened Wrappers
  import opened StarknetNode
  import opened FinalizedBlocks

  /** The request a call of `getFinalizedBlock` awaits, with the locals it needs afterwards. */
  datatype Ask =
    | Find(target: Option<nat>)                        // findFirst: 'latest' or a height
    | Next(next: nat)                                  // the block after the cached one
    | Top(next: nat)                                   // 'latest', before the search
    | Middle(low: int, high: int, best: Option<Header>) // the search

  /** Where one call is suspended. */
  datatype Pc =
    | Waiting(ask: Ask)                                // the chain has not answered yet
    | Answered(ask: Ask, answer: Option<Header>)       // the answer (None: a failure) is on its way
    | FindDone(found: Option<Header>)                  // findFirst resolved, not yet assigned
    | SearchDone(best: Option<Header>)                 // search resolved, not yet assigned
    | Returned(block: Option<Header>)
    | Failed

  datatype State = State(height: nat, frontier: int, cache: Option<Header>, calls: map<nat, Pc>)

  datatype Event =
    | Advance(height: nat, frontier: int)
    | Start(id: nat)
    | Answer(id: nat)   // the chain answers the pending request of a call
    | Drop(id: nat)     // the pending request of a call fails
    | Deliver(id: nat)  // the answer arrives and the call goes on
    | Resume(id: nat)   // a resolved inner promise is picked up

  function Init(height: nat, frontier: int): State {
    State(height, frontier, None, map[])
  }

  /** The number of the block a request is about. */
  function AskedNumber(s: State, ask: Ask): int {
    match ask
    case Find(target) => if target.None? then s.height else target.value
    case Next(next) => next
    case Top(_) => s.height
    case Middle(low, high, _) => (low + high) / 2
  }

  /** The chain's answer now; a block that does not exist has none. */
  function ChainAnswer(s: State, ask: Ask): Option<Header> {
    var n := AskedNumber(s, ask);
    if 0 <= n <= s.height then Some(Header(n, if n <= s.frontier then AcceptedOnL1 else AcceptedOnL2)) else None
  }

  /** The head of the search loop. */
  function Search(low: int, high: int, best: Option<Header>): Pc {
    if low <= high then Waiting(Middle(low, high, best)) else SearchDone(best)
  }

  /** The code between the arrival of an answer and the next await; the cache is read as it is now. */
  function Continue(cache: Option<Header>, ask: Ask, answer: Option<Header>): Pc {
    if answer.None? then Failed
    else
      var block := answer.value;
      match ask
      case Find(target) =>
        if Settles(block) then FindDone(answer)
        else Waiting(Find(Some(Max(0, (if target.None? then -1 else target.value) - INIT_BINARY_JUMP))))
      case Next(next) =>
        if block.status.AcceptedOnL1? then Waiting(Top(next)) else Returned(cache)
      case Top(next) => Search(next, block.number, None)
      case Middle(low, high, best) =>
        var mid := (low + high) / 2;
        if block.status.AcceptedOnL1? then Search(mid + 1, high, answer) else Search(low, mid - 1, best)
  }

  /** The cache test is made once, at the start; the assignment after it is unconditional. */
  function Begin(cache: Option<Header>): Pc {
    if cache.None? then Waiting(Find(None)) else Waiting(Next(cache.value.number + 1))
  }

  /** What an event of a call makes of the call; None where the event cannot happen. */
  function Move(s: State, e: Event, pc: Pc): Option<Pc> {
    match (e, pc)
    case (Answer(_), Waiting(ask)) => Some(Answered(ask, ChainAnswer(s, ask)))
    case (Drop(_), Waiting(ask)) => Some(Answered(ask, None))
    case (Deliver(_), Answered(ask, answer)) => Some(Continue(s.cache, ask, answer))
    case (Resume(_), FindDone(found)) =>
      Some(if found.None? then Failed else Waiting(Next(found.value.number + 1)))
    case (Resume(_), SearchDone(best)) => Some(if best.None? then Failed else Returned(best))
    case _ => None
  }

  /** Picking up an inner promise assigns its block. */
  function Assigned(cache: Option<Header>, e: Event, pc: Pc): Option<Header> {
    match (e, pc)
    case (Resume(_), FindDone(found)) => found
    case (Resume(_), SearchDone(best)) => best
    case _ => cache
  }

  function Step(s: State, e: Event): State {
    match e
    case Advance(h, f) =>
      if s.height <= h && s.frontier <= f <= h then s.(height := h, frontier := f) else s
    case Start(id) =>
      if id in s.calls then s else s.(calls := s.calls[id := Begin(s.cache)])
    case _ =>
      if e.id !in s.calls || Move(s, e, s.calls[e.id]).None? then s
      else s.(cache := Assigned(s.cache, e, s.calls[e.id]),
              calls := s.calls[e.id := Move(s, e, s.calls[e.id]).value])
  }

  function Run(s: State, events: seq<Event>): State
    decreases |events|
  {
    if events == [] then s else Run(Step(s, events[0]), events[1..])
  }

  // ---- safety, with any number of calls in flight ----

  /** What a call that awaits an answer may rely on. */
  ghost predicate AskSound(s: State, ask: Ask) {
    match ask
    case Find(target) => target.None? || target == Some(0)
    case Next(next) => s.cache.Some? && next > 0
    case Top(next) => s.cache.Some? && 0 < next <= s.frontier
    case Middle(low, high, best) =>
      && s.cache.Some? && 0 < low <= high <= s.height
      && (best.None? ==> low <= s.frontier)
      && (best.Some? ==> best.value.status.AcceptedOnL1? && 0 < best.value.number == low - 1 <= s.frontier)
  }

  /** What an answer still says by the time it arrives, however far the chain has moved on. */
  ghost predicate AnswerSound(s: State, ask: Ask, block: Header) {
    && (block.status.AcceptedOnL1? ==> block.number <= s.frontier)
    && match ask
       case Find(target) => target.Some? ==> block.number == target.value
       case Next(next) => block.number == next
       case Top(next) => next <= block.number <= s.height
       case Middle(low, high, best) =>
         && block.number == (low + high) / 2
         && (best.None? && !block.status.AcceptedOnL1? ==> low < block.number)
  }

  /** What every suspended call may rely on. */
  ghost predicate Sound(s: State, pc: Pc) {
    match pc
    case Waiting(ask) => AskSound(s, ask)
    case Answered(ask, answer) => AskSound(s, ask) && (answer.Some? ==> AnswerSound(s, ask, answer.value))
    case FindDone(found) => found.Some? && Plausible(found.value, s.frontier)
    case SearchDone(best) =>
      && s.cache.Some? && best.Some?
      && best.value.status.AcceptedOnL1? && 0 < best.value.number <= s.frontier
    case Returned(block) => block.Some? && Plausible(block.value, s.frontier)
    case Failed => true
  }

  ghost predicate Safe(s: State) {
    && -1 <= s.frontier <= s.height
    && PlausibleCache(s.cache, s.frontier)
    && forall id :: id in s.calls ==> Sound(s, s.calls[id])
  }

  lemma AnswerIsSound(s: State, ask: Ask)
    requires Safe(s) && AskSound(s, ask)
    ensures Sound(s, Answered(ask, ChainAnswer(s, ask)))
  {
  }

  lemma ContinueIsSound(s: State, ask: Ask, answer: Option<Header>)
    requires Safe(s) && Sound(s, Answered(ask, answer))
    ensures Sound(s, Continue(s.cache, ask, answer))
  {
  }

  /** One move of a call, seen with the cache it leaves behind. */
  lemma MoveIsSound(s: State, e: Event, pc: Pc)
    requires Safe(s) && Sound(s, pc) && Move(s, e, pc).Some?
    ensures var t := s.(cache := Assigned(s.cache, e, pc));
      && Sound(t, Move(s, e, pc).value)
      && PlausibleCache(t.cache, t.frontier) && (s.cache.Some? ==> t.cache.Some?)
  {
    match pc
    case Waiting(ask) => AnswerIsSound(s, ask);
    case Answered(ask, answer) => ContinueIsSound(s, ask, answer);
    case _ =>
  }

  /** A suspended call keeps what it relies on while the chain grows and the cache stays filled. */
  lemma SoundIsStable(s: State, t: State, pc: Pc)
    requires Sound(s, pc) && s.height <= t.height && s.frontier <= t.frontier
    requires s.cache.Some? ==> t.cache.Some?
    ensures Sound(t, pc)
  {
  }

  lemma StepIsSafe(s: State, e: Event)
    requires Safe(s)
    ensures Safe(Step(s, e))
  {
    var t := Step(s, e);
    if !e.Advance? && !e.Start? && t != s {
      assert Sound(s, s.calls[e.id]);
      MoveIsSound(s, e, s.calls[e.id]);
      SoundIsStable(s.(cache := t.cache), t, t.calls[e.id]);
    }
    forall id | id in t.calls
      ensures Sound(t, t.calls[id])
    {
      if id in s.calls {
        SoundIsStable(s, t, s.calls[id]);
      }
    }
  }

  /** Whatever the interleaving, the cache and every returned block stay at or below the frontier. */
  lemma {:induction false} EveryRunIsSafe(s: State, events: seq<Event>)
    requires Safe(s)
    ensures Safe(Run(s, events))
    decreases |events|
  {
    if events != [] {
      StepIsSafe(s, events[0]);
      EveryRunIsSafe(Step(s, events[0]), events[1..]);
    }
  }

  /** The promise to callers, from a cold start: no run yields undefined or a block past the frontier. */
  lemma OverlappingCallsAreSafe(height: nat, frontier: int, events: seq<Event>)
    requires -1 <= frontier <= height
    ensures var s := Run(Init(height, frontier), events);
      && PlausibleCache(s.cache, s.frontier)
      && (forall id :: id in s.calls && s.calls[id].Returned? ==>
            s.calls[id].block.Some? && Plausible(s.calls[id].block.value, s.frontier))
      && (forall id :: id in s.calls && s.calls[id].SearchDone? ==> s.calls[id].best.Some?)
  {
    EveryRunIsSafe(Init(height, frontier), events);
    var s := Run(Init(height, frontier), events);
    forall id | id in s.calls
      ensures Sound(s, s.calls[id])
    {
    }
  }

  // ---- calls fail for a reason, and finish ----

  /** The event loses the pending request of this call: it is dropped, or the chain lacks the block. */
  ghost predicate Loses(s: State, e: Event, id: nat) {
    && id in s.calls && s.calls[id].Waiting?
    && (e == Drop(id) || (e == Answer(id) && s.height < AskedNumber(s, s.calls[id].ask)))
  }

  /** The call has failed, or is about to. */
  predicate Doomed(s: State, id: nat) {
    id in s.calls && (s.calls[id].Failed? || (s.calls[id].Answered? && s.calls[id].answer.None?))
  }

  lemma OnlyLossDooms(s: State, e: Event, id: nat)
    requires Safe(s) && Doomed(Step(s, e), id)
    ensures Doomed(s, id) || Loses(s, e, id)
  {
    if id in s.calls {
      assert Sound(s, s.calls[id]);
    }
  }

  /** A call fails only if one of its requests was dropped, or asked for a block the chain lacked. */
  lemma {:induction false} FailuresAreLosses(s: State, events: seq<Event>, id: nat) returns (k: nat)
    requires Safe(s) && !Doomed(s, id)
    requires id in Run(s, events).calls && Run(s, events).calls[id].Failed?
    ensures k < |events| && Loses(Run(s, events[..k]), events[k], id)
    decreases |events|
  {
    if Doomed(Step(s, events[0]), id) {
      OnlyLossDooms(s, events[0], id);
      k := 0;
    } else {
      StepIsSafe(s, events[0]);
      k := FailuresAreLosses(Step(s, events[0]), events[1..], id);
      k := k + 1;
      assert events[..k][1..] == events[1..][..k - 1];
    }
  }

  /** At the moment a call returns, what it returns is what is cached. */
  lemma {:induction false} ReturnedWasCached(s: State, events: seq<Event>, id: nat) returns (k: nat)
    requires Safe(s) && (id in s.calls ==> !s.calls[id].Returned?)
    requires id in Run(s, events).calls && Run(s, events).calls[id].Returned?
    ensures k < |events| && Run(s, events[..k + 1]).cache == Run(s, events).calls[id].block
    decreases |events|
  {
    var t := Step(s, events[0]);
    if id in t.calls && t.calls[id].Returned? {
      k := 0;
      assert events[..1] == [events[0]];
      assert events[..1][1..] == [];
      assert t.cache == t.calls[id].block;
      ReturnedStays(t, events[1..], id);
    } else {
      StepIsSafe(s, events[0]);
      k := ReturnedWasCached(t, events[1..], id);
      k := k + 1;
      assert events[..k + 1][1..] == events[1..][..k];
    }
  }

  lemma {:induction false} ReturnedStays(s: State, events: seq<Event>, id: nat)
    requires id in s.calls && s.calls[id].Returned?
    ensures id in Run(s, events).calls && Run(s, events).calls[id] == s.calls[id]
    decreases |events|
  {
    if events != [] {
      ReturnedStays(Step(s, events[0]), events[1..], id);
    }
  }

  /** The moves a waiting call still has to make while the chain stays within a height. */
  ghost function AskMoves(ask: Ask, height: nat): nat {
    match ask
    case Find(target) => 2 * BitLength(height) + if target.None? then 10 else 8
    case Next(_) => 2 * BitLength(height) + 5
    case Top(_) => 2 * BitLength(height) + 3
    case Middle(low, high, _) => 2 * BitLength(Max(0, high - low + 1)) + 1
  }

  ghost function MovesLeft(pc: Pc, height: nat): nat {
    match pc
    case Waiting(ask) => AskMoves(ask, height)
    case Answered(ask, _) => AskMoves(ask, height) - 1
    case FindDone(_) => 2 * BitLength(height) + 6
    case SearchDone(_) => 1
    case _ => 0
  }

  lemma SearchShrinks(low: int, high: int, best: Option<Header>, block: Header, height: nat)
    requires low <= high
    ensures var mid, now := (low + high) / 2, MovesLeft(Answered(Middle(low, high, best), None), height);
      && MovesLeft(Search(mid + 1, high, Some(block)), height) < now
      && MovesLeft(Search(low, mid - 1, best), height) < now
  {
    var mid := (low + high) / 2;
    BitLengthMonotone(Max(0, high - mid), (high - low + 1) / 2);
    BitLengthMonotone(Max(0, mid - low), (high - low + 1) / 2);
  }

  /** Every move brings the call nearer to its end. */
  lemma MovesShrink(s: State, e: Event, pc: Pc, height: nat)
    requires Safe(s) && Sound(s, pc) && s.height <= height && Move(s, e, pc).Some?
    ensures MovesLeft(Move(s, e, pc).value, height) < MovesLeft(pc, height)
  {
    if pc.Answered? && pc.answer.Some? {
      var block := pc.answer.value;
      match pc.ask
      case Top(next) =>
        BitLengthMonotone(Max(0, block.number - next + 1), height);
      case Middle(low, high, best) =>
        SearchShrinks(low, high, best, block, height);
      case _ =>
    }
  }

  /** The events of a run that move this call. */
  ghost function MovesOf(s: State, events: seq<Event>, id: nat): nat
    decreases |events|
  {
    if events == [] then 0
    else
      (if Moves(s, events[0], id) then 1 else 0) + MovesOf(Step(s, events[0]), events[1..], id)
  }

  predicate Moves(s: State, e: Event, id: nat) {
    !e.Advance? && !e.Start? && e.id == id && id in s.calls && Move(s, e, s.calls[id]).Some?
  }

  predicate Settled(pc: Pc) { pc.Returned? || pc.Failed? }

  /** A call that has not ended always has a move, whatever the others do. */
  lemma NeverStuck(s: State, id: nat)
    requires id in s.calls && !Settled(s.calls[id])
    ensures Moves(s, Answer(id), id) || Moves(s, Deliver(id), id) || Moves(s, Resume(id), id)
  {
  }

  lemma {:induction false} HeightsGrow(s: State, events: seq<Event>)
    ensures s.height <= Run(s, events).height
    decreases |events|
  {
    if events != [] {
      HeightsGrow(Step(s, events[0]), events[1..]);
    }
  }

  lemma {:induction false} MovesAreBounded(s: State, events: seq<Event>, id: nat, height: nat)
    requires Safe(s) && Run(s, events).height <= height && id in s.calls
    ensures MovesOf(s, events, id) <= MovesLeft(s.calls[id], height)
    decreases |events|
  {
    if events != [] {
      HeightsGrow(s, events);
      StepIsSafe(s, events[0]);
      MovesAreBounded(Step(s, events[0]), events[1..], id, height);
      if Moves(s, events[0], id) {
        assert Sound(s, s.calls[id]);
        MovesShrink(s, events[0], s.calls[id], height);
      }
    }
  }

  lemma BeginsWithin(cache: Option<Header>, height: nat)
    ensures MovesLeft(Begin(cache), height) <= 2 * BitLength(height) + 10
  {
  }

  /** Whatever the others do, a call ends after at most 4 requests and the logarithm of the height. */
  lemma {:induction false} EveryCallFinishes(s: State, events: seq<Event>, id: nat)
    requires Safe(s) && id !in s.calls
    ensures MovesOf(s, events, id) <= 2 * (4 + BitLength(Run(s, events).height)) + 2
    ensures var t := Run(s, events);
      id in t.calls && !Settled(t.calls[id]) ==>
        Moves(t, Answer(id), id) || Moves(t, Deliver(id), id) || Moves(t, Resume(id), id)
    decreases |events|
  {
    var t := Run(s, events);
    if id in t.calls && !Settled(t.calls[id]) {
      NeverStuck(t, id);
    }
    if events != [] {
      StepIsSafe(s, events[0]);
      if events[0] == Start(id) {
        MovesAreBounded(Step(s, events[0]), events[1..], id, t.height);
        BeginsWithin(s.cache, t.height);
      } else {
        EveryCallFinishes(Step(s, events[0]), events[1..], id);
      }
    }
  }

  // ---- monotonicity, exactly when calls do not overlap ----

  function InFlight(s: State): set<nat> {
    set id | id in s.calls && !Settled(s.calls[id])
  }

  /** The caller starts a call only while fewer than `limit` are in flight. */
  predicate Throttled(s: State, events: seq<Event>, limit: nat)
    decreases |events|
  {
    events == []
    || ((events[0].Start? ==> |InFlight(s)| < limit) && Throttled(Step(s, events[0]), events[1..], limit))
  }

  /** A cached block is never dropped, and is replaced only by a higher one. */
  predicate Advances(before: Option<Header>, after: Option<Header>) {
    before.None? || before == after || (after.Some? && before.value.number < after.value.number)
  }

  predicate NeverRegresses(s: State, events: seq<Event>)
    decreases |events|
  {
    events == []
    || (Advances(s.cache, Step(s, events[0]).cache) && NeverRegresses(Step(s, events[0]), events[1..]))
  }

  ghost predicate AskInStep(cache: Option<Header>, ask: Ask) {
    match ask
    case Find(_) => cache.None?
    case Next(next) => cache.Some? && next == cache.value.number + 1
    case Top(next) => cache.Some? && next == cache.value.number + 1
    case Middle(low, _, best) =>
      cache.Some? && cache.value.number < low && (best.Some? ==> cache.value.number < best.value.number)
  }

  /** What a call that is alone in flight knows about the cache. */
  ghost predicate InStep(cache: Option<Header>, pc: Pc) {
    match pc
    case Waiting(ask) => AskInStep(cache, ask)
    case Answered(ask, _) => AskInStep(cache, ask)
    case FindDone(_) => cache.None?
    case SearchDone(best) => cache.Some? && (best.Some? ==> cache.value.number < best.value.number)
    case _ => true
  }

  ghost predicate Alone(s: State) {
    && (forall p, q :: p in InFlight(s) && q in InFlight(s) ==> p == q)
    && forall id :: id in s.calls ==> InStep(s.cache, s.calls[id])
  }

  lemma ContinueKeepsStep(s: State, ask: Ask, answer: Option<Header>)
    requires Sound(s, Answered(ask, answer)) && AskInStep(s.cache, ask)
    ensures InStep(s.cache, Continue(s.cache, ask, answer))
  {
  }

  lemma MoveKeepsStep(s: State, e: Event, pc: Pc)
    requires Sound(s, pc) && InStep(s.cache, pc) && Move(s, e, pc).Some?
    ensures var after := Assigned(s.cache, e, pc);
      InStep(after, Move(s, e, pc).value) && Advances(s.cache, after)
    ensures !Settled(pc)
  {
    match pc
    case Answered(ask, answer) => ContinueKeepsStep(s, ask, answer);
    case _ =>
  }

  /** The one call that moves finds every other call settled. */
  lemma MoveAlone(s: State, e: Event)
    requires Safe(s) && Alone(s) && !e.Advance? && !e.Start?
    ensures Alone(Step(s, e)) && Advances(s.cache, Step(s, e).cache)
  {
    var t := Step(s, e);
    if t != s {
      var pc := s.calls[e.id];
      assert Sound(s, pc) && InStep(s.cache, pc);
      MoveKeepsStep(s, e, pc);
      assert e.id in InFlight(s);
      forall p | p in t.calls && p != e.id
        ensures Settled(t.calls[p])
      {
        assert p !in InFlight(s);
      }
      assert InStep(t.cache, t.calls[e.id]);
    }
  }

  lemma StepAlone(s: State, e: Event)
    requires Safe(s) && Alone(s)
    requires e.Start? ==> InFlight(s) == {}
    ensures Alone(Step(s, e)) && Advances(s.cache, Step(s, e).cache)
  {
    if e.Advance? || e.Start? {
      var t := Step(s, e);
      forall p | p in t.calls
        ensures InStep(t.cache, t.calls[p])
        ensures p in InFlight(t) ==> p in InFlight(s) || e == Start(p)
      {
        if p in s.calls {
          assert InStep(s.cache, s.calls[p]);
        }
      }
    } else {
      MoveAlone(s, e);
    }
  }

  lemma {:induction false} AloneNeverRegresses(s: State, events: seq<Event>)
    requires Safe(s) && Alone(s) && Throttled(s, events, 1)
    ensures NeverRegresses(s, events)
    decreases |events|
  {
    if events != [] {
      StepIsSafe(s, events[0]);
      StepAlone(s, events[0]);
      AloneNeverRegresses(Step(s, events[0]), events[1..]);
    }
  }

  lemma {:induction false} ThrottledMonotone(s: State, events: seq<Event>, limit: nat, more: nat)
    requires Throttled(s, events, limit) && limit <= more
    ensures Throttled(s, events, more)
    decreases |events|
  {
    if events != [] {
      ThrottledMonotone(Step(s, events[0]), events[1..], limit, more);
    }
  }

  // The answer to a cold call (0), block 0, is slow; a second call (1) caches block 1 and then
  // fails. Call 2 starts, call 0 assigns its block, and call 2 hands that out.

  const SLOW_ANSWER: seq<Event> := [Start(0), Answer(0), Advance(1, 1)]
  const SECOND_CALL: seq<Event> := [Start(1), Answer(1), Deliver(1), Resume(1)]
  const SECOND_FAILS: seq<Event> := [Drop(1), Deliver(1), Deliver(0)]

  const TO_BLOCK_ONE: seq<Event> := SLOW_ANSWER + (SECOND_CALL + SECOND_FAILS)

  const TO_STALE: seq<Event> := [Resume(0), Advance(2, 1), Answer(2), Deliver(2)]

  lemma {:induction false} RegressAppend(s: State, xs: seq<Event>, e: Event)
    ensures NeverRegresses(s, xs + [e]) ==> Advances(Run(s, xs).cache, Step(Run(s, xs), e).cache)
    decreases |xs|
  {
    if xs != [] {
      assert (xs + [e])[1..] == xs[1..] + [e];
      RegressAppend(Step(s, xs[0]), xs[1..], e);
    }
  }

  lemma {:induction false} ThrottledAppend(s: State, xs: seq<Event>, ys: seq<Event>, limit: nat)
    ensures Throttled(s, xs + ys, limit) <==> Throttled(s, xs, limit) && Throttled(Run(s, xs), ys, limit)
    decreases |xs|
  {
    if xs == [] {
      assert xs + ys == ys;
    } else {
      assert (xs + ys)[1..] == xs[1..] + ys;
      ThrottledAppend(Step(s, xs[0]), xs[1..], ys, limit);
    }
  }

  /** The state after TO_BLOCK_ONE: block 1 is cached, and call 0 still holds block 0. */
  function AtBlockOne(): State {
    State(1, 1, Some(Header(1, AcceptedOnL1)), map[0 := FindDone(Some(Header(0, AcceptedOnL1))), 1 := Failed])
  }

  /** After SLOW_ANSWER: the answer to call 0 is on its way while the chain moved on. */
  function AtSlowAnswer(): State {
    State(1, 1, None, map[0 := Answered(Find(None), Some(Header(0, AcceptedOnL1)))])
  }

  /** After SECOND_CALL: call 1 has cached block 1. */
  function AtSecondCall(): State {
    State(1, 1, Some(Header(1, AcceptedOnL1)),
          map[0 := Answered(Find(None), Some(Header(0, AcceptedOnL1))), 1 := Waiting(Next(2))])
  }

  lemma SlowAnswer()
    ensures Run(Init(0, 0), SLOW_ANSWER) == AtSlowAnswer() && Throttled(Init(0, 0), SLOW_ANSWER, 2)
  {
    var s0 := Init(0, 0);
    var s1 := State(0, 0, None, map[0 := Waiting(Find(None))]);
    var s2 := AtSlowAnswer().(height := 0, frontier := 0);
    Unfold(s2, Advance(1, 1), AtSlowAnswer(), []);
    Unfold(s1, Answer(0), s2, [Advance(1, 1)]);
    assert InFlight(s0) == {};
    Unfold(s0, Start(0), s1, [Answer(0), Advance(1, 1)]);
  }

  lemma SecondCall()
    ensures Run(AtSlowAnswer(), SECOND_CALL) == AtSecondCall() && Throttled(AtSlowAnswer(), SECOND_CALL, 2)
  {
    var slow, b1 := Answered(Find(None), Some(Header(0, AcceptedOnL1))), Header(1, AcceptedOnL1);
    var s4 := State(1, 1, None, map[0 := slow, 1 := Waiting(Find(None))]);
    var s5 := State(1, 1, None, map[0 := slow, 1 := Answered(Find(None), Some(b1))]);
    var s6 := State(1, 1, None, map[0 := slow, 1 := FindDone(Some(b1))]);
    Unfold(s6, Resume(1), AtSecondCall(), []);
    Unfold(s5, Deliver(1), s6, [Resume(1)]);
    Unfold(s4, Answer(1), s5, [Deliver(1), Resume(1)]);
    assert InFlight(AtSlowAnswer()) == {0};
    Unfold(AtSlowAnswer(), Start(1), s4, [Answer(1), Deliver(1), Resume(1)]);
  }

  lemma SecondFails()
    ensures Run(AtSecondCall(), SECOND_FAILS) == AtBlockOne() && Throttled(AtSecondCall(), SECOND_FAILS, 2)
  {
    var slow, b1 := Answered(Find(None), Some(Header(0, AcceptedOnL1))), Header(1, AcceptedOnL1);
    var s8 := State(1, 1, Some(b1), map[0 := slow, 1 := Answered(Next(2), None)]);
    var s9 := State(1, 1, Some(b1), map[0 := slow, 1 := Failed]);
    Unfold(s9, Deliver(0), AtBlockOne(), []);
    Unfold(s8, Deliver(1), s9, [Deliver(0)]);
    Unfold(AtSecondCall(), Drop(1), s8, [Deliver(1), Deliver(0)]);
  }

  lemma {:induction false} RunAppend(s: State, xs: seq<Event>, ys: seq<Event>)
    ensures Run(s, xs + ys) == Run(Run(s, xs), ys)
    decreases |xs|
  {
    if xs == [] {
      assert xs + ys == ys;
    } else {
      assert (xs + ys)[1..] == xs[1..] + ys;
      RunAppend(Step(s, xs[0]), xs[1..], ys);
    }
  }

  /** Two stretches of a run, each with the state it leads to. */
  lemma Chain(s: State, xs: seq<Event>, t: State, ys: seq<Event>, u: State, limit: nat)
    requires Run(s, xs) == t && Throttled(s, xs, limit) && Run(t, ys) == u && Throttled(t, ys, limit)
    ensures Run(s, xs + ys) == u && Throttled(s, xs + ys, limit)
  {
    RunAppend(s, xs, ys);
    ThrottledAppend(s, xs, ys, limit);
  }

  lemma ReachBlockOne()
    ensures Run(Init(0, 0), TO_BLOCK_ONE) == AtBlockOne()
    ensures Throttled(Init(0, 0), TO_BLOCK_ONE, 2)
  {
    SlowAnswer();
    SecondCall();
    SecondFails();
    Chain(AtSlowAnswer(), SECOND_CALL, AtSecondCall(), SECOND_FAILS, AtBlockOne(), 2);
    Chain(Init(0, 0), SLOW_ANSWER, AtSlowAnswer(), SECOND_CALL + SECOND_FAILS, AtBlockOne(), 2);
  }

  /** One event, with the state it leads to written out. */
  lemma Unfold(s: State, e: Event, t: State, rest: seq<Event>)
    requires Step(s, e) == t
    ensures Run(s, [e] + rest) == Run(t, rest)
    ensures forall limit :: Throttled(t, rest, limit) && (e.Start? ==> |InFlight(s)| < limit) ==>
      Throttled(s, [e] + rest, limit)
  {
    assert ([e] + rest)[1..] == rest;
  }

  /** Two overlapping cold calls lower the cache from block 1 to block 0. */
  lemma OverlapRegresses()
    ensures Throttled(Init(0, 0), TO_BLOCK_ONE + [Resume(0)], 2)
    ensures !NeverRegresses(Init(0, 0), TO_BLOCK_ONE + [Resume(0)])
  {
    ReachBlockOne();
    LastEventRegresses(Init(0, 0), TO_BLOCK_ONE, AtBlockOne(), Resume(0), 2);
  }

  lemma LastEventRegresses(s: State, xs: seq<Event>, t: State, e: Event, limit: nat)
    requires Run(s, xs) == t && Throttled(s, xs, limit) && !e.Start?
    requires !Advances(t.cache, Step(t, e).cache)
    ensures Throttled(s, xs + [e], limit) && !NeverRegresses(s, xs + [e])
  {
    ThrottledAppend(s, xs, [e], limit);
    RegressAppend(s, xs, e);
  }

  /** The cache is sure never to regress exactly when the caller keeps at most one call in flight. */
  lemma NeverRegressesIffSingleFlight(limit: nat)
    ensures (forall height: nat, frontier: int, events: seq<Event> ::
               -1 <= frontier <= height && Throttled(Init(height, frontier), events, limit)
               ==> NeverRegresses(Init(height, frontier), events))
            <==> limit <= 1
  {
    if limit <= 1 {
      forall height: nat, frontier: int, events: seq<Event> |
        -1 <= frontier <= height && Throttled(Init(height, frontier), events, limit)
        ensures NeverRegresses(Init(height, frontier), events)
      {
        ThrottledMonotone(Init(height, frontier), events, limit, 1);
        AloneNeverRegresses(Init(height, frontier), events);
      }
    } else {
      OverlapRegresses();
      ThrottledMonotone(Init(0, 0), TO_BLOCK_ONE + [Resume(0)], 2, limit);
    }
  }

  // ---- freshness, exactly when calls do not overlap ----

  /** What a lone call keeps so that it cannot return less than the frontier f0 of its start. */
  ghost predicate OnTrack(pc: Pc, f0: int) {
    match pc
    case Waiting(ask) => AskOnTrack(ask, f0)
    case Answered(ask, answer) => AskOnTrack(ask, f0) && (answer.Some? ==> AnswerOnTrack(ask, answer.value, f0))
    case SearchDone(best) => best.Some? && f0 <= best.value.number
    case Returned(block) => block.Some? && f0 <= block.value.number
    case _ => true
  }

  predicate AskOnTrack(ask: Ask, f0: int) { ask.Middle? ==> f0 <= ask.high }

  /** A block that was not accepted when the chain answered lies past the frontier of the start. */
  predicate AnswerOnTrack(ask: Ask, block: Header, f0: int) {
    && (!block.status.AcceptedOnL1? ==> f0 < block.number)
    && (ask.Top? ==> f0 <= block.number)
  }

  lemma AnswerIsOnTrack(s: State, ask: Ask, f0: int)
    requires Safe(s) && f0 <= s.frontier && ChainAnswer(s, ask).Some?
    ensures AnswerOnTrack(ask, ChainAnswer(s, ask).value, f0)
  {
  }

  lemma ContinueStaysOnTrack(s: State, ask: Ask, answer: Option<Header>, f0: int)
    requires Safe(s) && Sound(s, Answered(ask, answer)) && AskInStep(s.cache, ask)
    requires OnTrack(Answered(ask, answer), f0)
    ensures OnTrack(Continue(s.cache, ask, answer), f0)
  {
  }

  lemma StepStaysOnTrack(s: State, e: Event, id: nat, f0: int)
    requires Safe(s) && Alone(s) && id in s.calls && OnTrack(s.calls[id], f0) && f0 <= s.frontier
    ensures id in Step(s, e).calls && OnTrack(Step(s, e).calls[id], f0) && f0 <= Step(s, e).frontier
  {
    var pc := s.calls[id];
    assert Sound(s, pc) && InStep(s.cache, pc);
    match pc
    case Waiting(ask) =>
      if ChainAnswer(s, ask).Some? {
        AnswerIsOnTrack(s, ask, f0);
      }
    case Answered(ask, answer) => ContinueStaysOnTrack(s, ask, answer, f0);
    case _ =>
  }

  lemma {:induction false} RunStaysOnTrack(s: State, events: seq<Event>, id: nat, f0: int)
    requires Safe(s) && Alone(s) && Throttled(s, events, 1)
    requires id in s.calls && OnTrack(s.calls[id], f0) && f0 <= s.frontier
    ensures id in Run(s, events).calls && OnTrack(Run(s, events).calls[id], f0)
    decreases |events|
  {
    if events != [] {
      StepIsSafe(s, events[0]);
      StepAlone(s, events[0]);
      StepStaysOnTrack(s, events[0], id, f0);
      RunStaysOnTrack(Step(s, events[0]), events[1..], id, f0);
    }
  }

  lemma {:induction false} RunAlone(s: State, events: seq<Event>)
    requires Safe(s) && Alone(s) && Throttled(s, events, 1)
    ensures Safe(Run(s, events)) && Alone(Run(s, events))
    decreases |events|
  {
    if events != [] {
      StepIsSafe(s, events[0]);
      StepAlone(s, events[0]);
      RunAlone(Step(s, events[0]), events[1..]);
    }
  }

  /** A call started after `before` has returned, after `after`, no less than was final at its start. */
  ghost predicate ReturnsFresh(s: State, before: seq<Event>, id: nat, after: seq<Event>) {
    var at := Run(s, before);
    var end := Run(Step(at, Start(id)), after);
    id !in at.calls && id in end.calls && end.calls[id].Returned? ==>
      end.calls[id].block.Some? && Finalized(at.frontier) <= end.calls[id].block.value.number
  }

  lemma SingleFlightReturnsFresh(s: State, before: seq<Event>, id: nat, after: seq<Event>)
    requires Safe(s) && Alone(s) && Throttled(s, before + ([Start(id)] + after), 1)
    ensures ReturnsFresh(s, before, id, after)
  {
    ThrottledAppend(s, before, [Start(id)] + after, 1);
    RunAlone(s, before);
    var at := Run(s, before);
    if id !in at.calls {
      assert ([Start(id)] + after)[1..] == after;
      StepIsSafe(at, Start(id));
      StepAlone(at, Start(id));
      RunStaysOnTrack(Step(at, Start(id)), after, id, at.frontier);
    }
  }

  /** Every call is sure to return what was final when it started exactly under the same condition. */
  lemma ReturnsFreshIffSingleFlight(limit: nat)
    ensures (forall height: nat, frontier: int, before: seq<Event>, id: nat, after: seq<Event> ::
               -1 <= frontier <= height
               && Throttled(Init(height, frontier), before + ([Start(id)] + after), limit)
               ==> ReturnsFresh(Init(height, frontier), before, id, after))
            <==> limit <= 1
  {
    if limit <= 1 {
      forall height: nat, frontier: int, before: seq<Event>, id: nat, after: seq<Event> |
        -1 <= frontier <= height
        && Throttled(Init(height, frontier), before + ([Start(id)] + after), limit)
        ensures ReturnsFresh(Init(height, frontier), before, id, after)
      {
        ThrottledMonotone(Init(height, frontier), before + ([Start(id)] + after), limit, 1);
        SingleFlightReturnsFresh(Init(height, frontier), before, id, after);
      }
    } else {
      OverlapReturnsStaleBlock();
      ThrottledMonotone(Init(0, 0), TO_BLOCK_ONE + ([Start(2)] + TO_STALE), 2, limit);
    }
  }

  lemma ThirdCallIsStale()
    ensures var t := Run(Step(AtBlockOne(), Start(2)), TO_STALE);
      2 in t.calls && t.calls[2] == Returned(Some(Header(0, AcceptedOnL1)))
    ensures Throttled(AtBlockOne(), [Start(2)] + TO_STALE, 2)
  {
    var b0, b1 := Header(0, AcceptedOnL1), Header(1, AcceptedOnL1);
    var s1 := AtBlockOne();
    var s2 := State(1, 1, Some(b1), map[0 := FindDone(Some(b0)), 1 := Failed, 2 := Waiting(Next(2))]);
    var s3 := State(1, 1, Some(b0), map[0 := Waiting(Next(1)), 1 := Failed, 2 := Waiting(Next(2))]);
    var s4 := s3.(height := 2);
    var answer := Answered(Next(2), Some(Header(2, AcceptedOnL2)));
    var s5 := State(2, 1, Some(b0), map[0 := Waiting(Next(1)), 1 := Failed, 2 := answer]);
    var s6 := State(2, 1, Some(b0), map[0 := Waiting(Next(1)), 1 := Failed, 2 := Returned(Some(b0))]);
    Unfold(s5, Deliver(2), s6, []);
    Unfold(s4, Answer(2), s5, [Deliver(2)]);
    Unfold(s3, Advance(2, 1), s4, [Answer(2), Deliver(2)]);
    Unfold(s2, Resume(0), s3, [Advance(2, 1), Answer(2), Deliver(2)]);
    assert InFlight(s1) == {0};
    Unfold(s1, Start(2), s2, TO_STALE);
  }

  /** A call that starts while block 1 is accepted on L1, and cached, may still return block 0. */
  lemma OverlapReturnsStaleBlock()
    ensures Throttled(Init(0, 0), TO_BLOCK_ONE + ([Start(2)] + TO_STALE), 2)
    ensures !ReturnsFresh(Init(0, 0), TO_BLOCK_ONE, 2, TO_STALE)
  {
    ReachBlockOne();
    ThirdCallIsStale();
    ThrottledAppend(Init(0, 0), TO_BLOCK_ONE, [Start(2)] + TO_STALE, 2);
  }
}
