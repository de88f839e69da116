/**
 * The transaction dispatcher of dht/krpc.go as interleaved atomic steps: any number of transactions, of
 * responses and errors being handled, and of removals, over one shared map.
 */
module Dispatcher {
  import opened Bytes

  // ---------- the goroutines ----------

  /**
   * Where a box is: made by Add, refused because its ID was taken, stored in the map, its goroutine
   * started, the loop waiting in its select, the loop left, `rmself` done, OnFinish called.
   */
  datatype Phase = Fresh | Refused | Stored | Started | Waiting | Leaving | Deleted | Finished

  datatype Box = Box(id: bytes, phase: Phase)

  /** Remove, or DisposeResponse and DisposeError, which differ only in the callback. */
  datatype Kind = Remover | Responder

  /** Where such a call is; `Sending` blocks in done(), `Ended` has returned from it. */
  datatype Place = Called | Loaded(box: nat) | Asking(box: nat) | Sending(box: nat) | Ended(box: nat) | Returned

  datatype Call = Call(kind: Kind, id: bytes, place: Place)

  /** What can be observed of a box. */
  datatype Event =
    | Added(box: nat)
    | OnLaunch(box: nat)
    | OnTimeout(box: nat, keep: bool)
    | End(box: nat, call: nat)
    | Delete(box: nat)
    | OnFinish(box: nat)
    | OnResponse(box: nat, keep: bool)

  datatype State = State(boxes: seq<Box>, table: map<bytes, nat>, calls: seq<Call>, log: seq<Event>)

  const INITIAL := State([], map[], [], [])

  /** The atomic steps, with what the user's callbacks answer. */
  datatype Step =
    | NewBox(id: bytes)
    | LoadOrStore(b: nat)
    | Go(b: nat)
    | Launch(b: nat)
    | Fire(b: nat, keep: bool)
    | RmSelf(b: nat)
    | Finish(b: nat)
    | Arrive(kind: Kind, id: bytes)
    | Load(c: nat)
    | KeepAlive(c: nat)
    | Answer(c: nat, keep: bool)
    | Rendezvous(c: nat)

  predicate BoxAt(s: State, b: nat, phase: Phase) {
    b < |s.boxes| && s.boxes[b].phase == phase
  }

  predicate CallAt(s: State, c: nat) {
    c < |s.calls|
  }

  predicate Enabled(s: State, step: Step) {
    match step
    case NewBox(_) => true
    case LoadOrStore(b) => BoxAt(s, b, Fresh)
    case Go(b) => BoxAt(s, b, Stored)
    case Launch(b) => BoxAt(s, b, Started)
    case Fire(b, _) => BoxAt(s, b, Waiting)
    case RmSelf(b) => BoxAt(s, b, Leaving)
    case Finish(b) => BoxAt(s, b, Deleted)
    case Arrive(_, _) => true
    case Load(c) => CallAt(s, c) && s.calls[c].place == Called
    case KeepAlive(c) => CallAt(s, c) && s.calls[c].place.Loaded?
    case Answer(c, _) => CallAt(s, c) && s.calls[c].place.Asking?
    case Rendezvous(c) => CallAt(s, c) && s.calls[c].place.Sending? && BoxAt(s, s.calls[c].place.box, Waiting)
  }

  function Moved(s: State, b: nat, phase: Phase): State
    requires b < |s.boxes|
  {
    s.(boxes := s.boxes[b := s.boxes[b].(phase := phase)])
  }

  function Goes(s: State, c: nat, place: Place): State
    requires CallAt(s, c)
  {
    s.(calls := s.calls[c := s.calls[c].(place := place)])
  }

  function Logged(s: State, e: Event): State {
    s.(log := s.log + [e])
  }

  function Next(s: State, step: Step): State
    requires Enabled(s, step)
  {
    match step
    case NewBox(id) => s.(boxes := s.boxes + [Box(id, Fresh)])
    case LoadOrStore(b) =>
      var id := s.boxes[b].id;
      if id in s.table then Moved(s, b, Refused)
      else Logged(Moved(s, b, Stored).(table := s.table[id := b]), Added(b))
    case Go(b) => Moved(s, b, Started)
    case Launch(b) => Logged(Moved(s, b, Waiting), OnLaunch(b))
    case Fire(b, keep) => Logged(Moved(s, b, if keep then Waiting else Leaving), OnTimeout(b, keep))
    case RmSelf(b) => Logged(Moved(s, b, Deleted).(table := s.table - {s.boxes[b].id}), Delete(b))
    case Finish(b) => Logged(Moved(s, b, Finished), OnFinish(b))
    case Arrive(kind, id) => s.(calls := s.calls + [Call(kind, id, Called)])
    case Load(c) =>
      var call := s.calls[c];
      if call.id !in s.table then Goes(s, c, Returned)
      else if call.kind == Remover then Goes(s, c, Sending(s.table[call.id]))
      else Goes(s, c, Loaded(s.table[call.id]))
    case KeepAlive(c) =>
      // the send on `alive` does not block; where it is received, the loop only starts a new timer
      Goes(s, c, Asking(s.calls[c].place.box))
    case Answer(c, keep) =>
      var b := s.calls[c].place.box;
      Logged(Goes(s, c, if keep then Returned else Sending(b)), OnResponse(b, keep))
    case Rendezvous(c) =>
      var b := s.calls[c].place.box;
      Logged(Goes(Moved(s, b, Leaving), c, Ended(b)), End(b, c))
  }

  /** The state after a run, or None when a step was not possible. */
  function Run(steps: seq<Step>): Option<State> {
    if steps == [] then Some(INITIAL)
    else
      match Run(steps[..|steps| - 1])
      case None => None
      case Some(s) =>
        var last := steps[|steps| - 1];
        if Enabled(s, last) then Some(Next(s, last)) else None
  }

  // ---------- the life of one box, as an automaton over its events ----------

  datatype Stage = Unborn | Born | Running | Ending | Gone | Over | Wrong

  function Advance(stage: Stage, e: Event): Stage {
    match e
    case Added(_) => if stage == Unborn then Born else Wrong
    case OnLaunch(_) => if stage == Born then Running else Wrong
    case OnTimeout(_, keep) => if stage == Running then (if keep then Running else Ending) else Wrong
    case End(_, _) => if stage == Running then Ending else Wrong
    case Delete(_) => if stage == Ending then Gone else Wrong
    case OnFinish(_) => if stage == Gone then Over else Wrong
    case OnResponse(_, _) => if stage == Unborn then Wrong else stage
  }

  function Trace(log: seq<Event>, b: nat): Stage {
    if log == [] then Unborn
    else
      var before := Trace(log[..|log| - 1], b);
      var e := log[|log| - 1];
      if e.box == b then Advance(before, e) else before
  }

  function StageOf(phase: Phase): Stage {
    match phase
    case Fresh => Unborn
    case Refused => Unborn
    case Stored => Born
    case Started => Born
    case Waiting => Running
    case Leaving => Ending
    case Deleted => Gone
    case Finished => Over
  }

  // ---------- what every step keeps ----------

  /** Successfully added, and `rmself` not yet done. */
  predicate Live(box: Box) {
    box.phase == Stored || box.phase == Started || box.phase == Waiting || box.phase == Leaving
  }

  predicate Accepted(box: Box) {
    box.phase != Fresh && box.phase != Refused
  }

  /** The map holds a box, under its own ID, exactly while the box is live. */
  ghost predicate TableExact(s: State) {
    && (forall id | id in s.table ::
          s.table[id] < |s.boxes| && s.boxes[s.table[id]].id == id && Live(s.boxes[s.table[id]]))
    && (forall b | 0 <= b < |s.boxes| && Live(s.boxes[b]) :: s.boxes[b].id in s.table && s.table[s.boxes[b].id] == b)
  }

  predicate HoldsBox(place: Place) {
    place.Loaded? || place.Asking? || place.Sending? || place.Ended?
  }

  /** A call only ever holds a box that was added under the ID it asked for. */
  ghost predicate CallsExact(s: State) {
    forall c | 0 <= c < |s.calls| && HoldsBox(s.calls[c].place) ::
      var b := s.calls[c].place.box;
      b < |s.boxes| && Accepted(s.boxes[b]) && s.boxes[b].id == s.calls[c].id
  }

  /** Each box is where its events say. */
  ghost predicate LogExact(s: State) {
    && (forall i | 0 <= i < |s.log| :: s.log[i].box < |s.boxes|)
    && (forall b | 0 <= b < |s.boxes| :: Trace(s.log, b) == StageOf(s.boxes[b].phase))
  }

  /** The calls that returned from done() are those whose rendezvous was logged. */
  ghost predicate EndsExact(s: State) {
    && (forall i | 0 <= i < |s.log| && s.log[i].End? ::
          CallAt(s, s.log[i].call) && s.calls[s.log[i].call].place == Ended(s.log[i].box))
    && (forall c | 0 <= c < |s.calls| && s.calls[c].place.Ended? :: End(s.calls[c].place.box, c) in s.log)
  }

  ghost predicate Inv(s: State) {
    TableExact(s) && CallsExact(s) && LogExact(s) && EndsExact(s)
  }

  lemma TableStored(s: State, b: nat)
    requires TableExact(s) && BoxAt(s, b, Fresh)
    ensures TableExact(Next(s, LoadOrStore(b)))
  {
  }

  lemma TableRemoved(s: State, b: nat)
    requires TableExact(s) && BoxAt(s, b, Leaving)
    ensures TableExact(Next(s, RmSelf(b)))
  {
  }

  lemma TableUntouched(s: State, step: Step)
    requires TableExact(s) && Enabled(s, step) && !step.LoadOrStore? && !step.RmSelf?
    ensures TableExact(Next(s, step))
  {
    var t := Next(s, step);
    assert |t.boxes| >= |s.boxes|;
    forall b | 0 <= b < |s.boxes| ensures t.boxes[b].id == s.boxes[b].id && (Live(t.boxes[b]) <==> Live(s.boxes[b])) {
    }
  }

  lemma TableKept(s: State, step: Step)
    requires TableExact(s) && CallsExact(s) && Enabled(s, step)
    ensures TableExact(Next(s, step))
  {
    hide TableExact, Next;
    match step
    case LoadOrStore(b) => TableStored(s, b);
    case RmSelf(b) => TableRemoved(s, b);
    case _ => TableUntouched(s, step);
  }

  lemma CallsKept(s: State, step: Step)
    requires TableExact(s) && CallsExact(s) && Enabled(s, step)
    ensures CallsExact(Next(s, step))
  {
    hide Next, Enabled;
    var t := Next(s, step);
    forall c | 0 <= c < |t.calls| && HoldsBox(t.calls[c].place)
      ensures var b := t.calls[c].place.box;
              b < |t.boxes| && Accepted(t.boxes[b]) && t.boxes[b].id == t.calls[c].id
    {
      if step == Load(c) {
        BoxLoaded(s, c);
      } else {
        HoldKept(s, step, c);
        AcceptedKept(s, step, s.calls[c].place.box);
      }
    }
  }

  lemma BoxLoaded(s: State, c: nat)
    requires TableExact(s) && Enabled(s, Load(c)) && HoldsBox(Next(s, Load(c)).calls[c].place)
    ensures var t := Next(s, Load(c));
            var b := t.calls[c].place.box;
            b < |t.boxes| && Accepted(t.boxes[b]) && t.boxes[b].id == t.calls[c].id
  {
  }

  lemma AcceptedKept(s: State, step: Step, b: nat)
    requires Enabled(s, step) && b < |s.boxes| && Accepted(s.boxes[b])
    ensures var t := Next(s, step); b < |t.boxes| && Accepted(t.boxes[b]) && t.boxes[b].id == s.boxes[b].id
  {
  }

  /** Only Load gives a call a box, and nothing exchanges it. */
  lemma HoldKept(s: State, step: Step, c: nat)
    requires Enabled(s, step) && step != Load(c)
    requires CallAt(Next(s, step), c) && HoldsBox(Next(s, step).calls[c].place)
    ensures CallAt(s, c) && HoldsBox(s.calls[c].place)
    ensures s.calls[c].place.box == Next(s, step).calls[c].place.box && s.calls[c].id == Next(s, step).calls[c].id
  {
  }

  lemma TraceLast(log: seq<Event>, e: Event, b: nat)
    ensures Trace(log + [e], b) == if e.box == b then Advance(Trace(log, b), e) else Trace(log, b)
  {
    assert (log + [e])[..|log|] == log;
  }

  lemma {:induction false} TraceUnseen(log: seq<Event>, b: nat)
    requires forall i | 0 <= i < |log| :: log[i].box != b
    ensures Trace(log, b) == Unborn
  {
    if log == [] {
    } else {
      TraceUnseen(log[..|log| - 1], b);
    }
  }

  /** Every step moves each box the way the event it logs says, and logs at most one. */
  lemma StepMoves(s: State, step: Step, b: nat)
    requires CallsExact(s) && Enabled(s, step) && b < |s.boxes|
    ensures var t := Next(s, step);
            && |t.boxes| >= |s.boxes|
            && (t.log == s.log ||
                (|t.log| == |s.log| + 1 && t.log == s.log + [t.log[|s.log|]] && t.log[|s.log|].box < |s.boxes|))
            && StageOf(t.boxes[b].phase) ==
               if t.log != s.log && t.log[|s.log|].box == b then Advance(StageOf(s.boxes[b].phase), t.log[|s.log|])
               else StageOf(s.boxes[b].phase)
  {
  }

  lemma LogKept(s: State, step: Step)
    requires CallsExact(s) && LogExact(s) && Enabled(s, step)
    ensures LogExact(Next(s, step))
  {
    var t := Next(s, step);
    if step.NewBox? {
      TraceUnseen(s.log, |s.boxes|);
    } else if s.boxes != [] {
      LogKeptAt(s, step);
    }
  }

  lemma LogKeptAt(s: State, step: Step)
    requires CallsExact(s) && LogExact(s) && Enabled(s, step) && |Next(s, step).boxes| == |s.boxes| > 0
    ensures LogExact(Next(s, step))
  {
    hide Next, Enabled, CallsExact, Trace, StageOf, Advance;
    var t := Next(s, step);
    forall b | 0 <= b < |t.boxes| ensures Trace(t.log, b) == StageOf(t.boxes[b].phase) {
      StepMoves(s, step, b);
      if t.log != s.log {
        TraceLast(s.log, t.log[|s.log|], b);
      }
    }
    StepMoves(s, step, 0);
  }

  lemma EndsMet(s: State, c: nat)
    requires EndsExact(s) && Enabled(s, Rendezvous(c))
    ensures EndsExact(Next(s, Rendezvous(c)))
  {
    var log := Next(s, Rendezvous(c)).log;
    assert log[|s.log|] == End(s.calls[c].place.box, c);
    assert forall e | e in s.log :: e in log;
  }

  lemma EndsUntouched(s: State, step: Step)
    requires EndsExact(s) && Enabled(s, step) && !step.Rendezvous?
    ensures EndsExact(Next(s, step))
  {
    var t := Next(s, step);
    assert forall e | e in s.log :: e in t.log;
    assert forall c | 0 <= c < |s.calls| && s.calls[c].place.Ended? :: t.calls[c] == s.calls[c];
  }

  lemma EndsKept(s: State, step: Step)
    requires EndsExact(s) && Enabled(s, step)
    ensures EndsExact(Next(s, step))
  {
    hide EndsExact, Next;
    match step
    case Rendezvous(c) => EndsMet(s, c);
    case _ => EndsUntouched(s, step);
  }

  /** In every state any interleaving can reach, the invariant holds. */
  lemma {:induction false} RunsKeep(steps: seq<Step>)
    requires Run(steps).Some?
    ensures Inv(Run(steps).value)
  {
    if steps == [] {
    } else {
      var front, last := steps[..|steps| - 1], steps[|steps| - 1];
      RunsKeep(front);
      var s := Run(front).value;
      TableKept(s, last);
      CallsKept(s, last);
      LogKept(s, last);
      EndsKept(s, last);
    }
  }

  // ---------- consequences in every reachable state ----------

  /** The map holds a box under its own ID if and only if it was added and its loop has not run `rmself`. */
  lemma HeldIffLive(steps: seq<Step>, b: nat)
    requires Run(steps).Some? && b < |Run(steps).value.boxes|
    ensures var s := Run(steps).value;
            (s.boxes[b].id in s.table && s.table[s.boxes[b].id] == b) <==>
            (Added(b) in s.log && Delete(b) !in s.log)
  {
    RunsKeep(steps);
    var s := Run(steps).value;
    StageSeen(s.log, b);
  }

  /** At most one box per ID has not been removed. */
  lemma LiveUnique(steps: seq<Step>, a: nat, b: nat)
    requires Run(steps).Some? && a < |Run(steps).value.boxes| && b < |Run(steps).value.boxes|
    requires var s := Run(steps).value; Live(s.boxes[a]) && Live(s.boxes[b]) && s.boxes[a].id == s.boxes[b].id
    ensures a == b
  {
    RunsKeep(steps);
  }

  /** Deleting by ID removes the entry of the box that asks for it, and no other entry. */
  lemma DeletesItself(steps: seq<Step>, b: nat)
    requires Run(steps).Some? && Enabled(Run(steps).value, RmSelf(b))
    ensures var s := Run(steps).value; var t := Next(s, RmSelf(b));
            && s.boxes[b].id in s.table && s.table[s.boxes[b].id] == b
            && t.table.Keys == s.table.Keys - {s.boxes[b].id}
            && forall id | id in t.table :: t.table[id] == s.table[id] != b
  {
    RunsKeep(steps);
  }

  /** Add is refused exactly when a box with that ID has not been removed yet; then nothing else changes. */
  lemma AddRefusedIff(steps: seq<Step>, b: nat)
    requires Run(steps).Some? && Enabled(Run(steps).value, LoadOrStore(b))
    ensures var s := Run(steps).value; var t := Next(s, LoadOrStore(b));
            && (t.boxes[b].phase == Refused <==>
                exists a :: 0 <= a < |s.boxes| && Live(s.boxes[a]) && s.boxes[a].id == s.boxes[b].id)
            && (t.boxes[b].phase == Refused ==> t.table == s.table && t.log == s.log)
  {
    RunsKeep(steps);
    var s := Run(steps).value;
    if s.boxes[b].id in s.table {
      assert Live(s.boxes[s.table[s.boxes[b].id]]);
    }
  }

  // ---------- the events of a box that never goes wrong ----------

  function Rank(stage: Stage): nat {
    match stage
    case Unborn => 0
    case Born => 1
    case Running => 2
    case Ending => 3
    case Gone => 4
    case Over => 5
    case Wrong => 6
  }

  lemma {:induction false} TraceRises(log: seq<Event>, b: nat, i: nat)
    requires i <= |log|
    ensures Rank(Trace(log[..i], b)) <= Rank(Trace(log, b))
    decreases |log|
  {
    if i < |log| {
      TraceRises(log[..|log| - 1], b, i);
      assert log[..|log| - 1][..i] == log[..i];
    } else {
      assert log[..i] == log;
    }
  }

  /** The event at position `i` takes the box from one stage to the next, and both are no later than the end. */
  lemma TraceAt(log: seq<Event>, b: nat, i: nat)
    requires i < |log| && log[i].box == b
    ensures Trace(log[..i + 1], b) == Advance(Trace(log[..i], b), log[i])
    ensures Rank(Trace(log[..i + 1], b)) <= Rank(Trace(log, b))
  {
    TraceLast(log[..i], log[i], b);
    assert log[..i] + [log[i]] == log[..i + 1];
    TraceRises(log, b, i + 1);
  }

  /** Between two events of one box its stage only rises. */
  lemma TraceBetween(log: seq<Event>, b: nat, i: nat, j: nat)
    requires i < j < |log| && log[i].box == b && log[j].box == b && Trace(log, b) != Wrong
    ensures var p := Trace(log[..i], b);
            var q := Trace(log[..j], b);
            Rank(Advance(p, log[i])) <= Rank(q) && Advance(p, log[i]) != Wrong && Advance(q, log[j]) != Wrong
  {
    TraceAt(log, b, i);
    TraceAt(log, b, j);
    TraceRises(log[..j], b, i + 1);
    assert log[..j][..i + 1] == log[..i + 1];
  }

  predicate Cause(e: Event) {
    e.End? || (e.OnTimeout? && !e.keep)
  }

  /** Everything the stage stands for has been logged. */
  lemma {:induction false} StageSeen(log: seq<Event>, b: nat)
    requires Trace(log, b) != Wrong
    ensures Rank(Trace(log, b)) >= 1 <==> Added(b) in log
    ensures Rank(Trace(log, b)) >= 2 <==> OnLaunch(b) in log
    ensures Rank(Trace(log, b)) >= 3 <==> exists i :: 0 <= i < |log| && log[i].box == b && Cause(log[i])
    ensures Rank(Trace(log, b)) >= 4 <==> Delete(b) in log
    ensures Rank(Trace(log, b)) >= 5 <==> OnFinish(b) in log
  {
    if log == [] {
    } else {
      var front, e := log[..|log| - 1], log[|log| - 1];
      assert log == front + [e];
      StageSeen(front, b);
      CauseSplit(front, e, b);
    }
  }

  lemma CauseSplit(front: seq<Event>, e: Event, b: nat)
    ensures (exists i :: 0 <= i < |front + [e]| && (front + [e])[i].box == b && Cause((front + [e])[i])) <==>
            (exists i :: 0 <= i < |front| && front[i].box == b && Cause(front[i])) || (e.box == b && Cause(e))
  {
    var log := front + [e];
    if i :| 0 <= i < |front| && front[i].box == b && Cause(front[i]) {
      assert log[i] == front[i];
    }
    if e.box == b && Cause(e) {
      assert log[|front|] == e;
    }
  }

  // ---------- the life of a transaction, over whole runs ----------

  /** The order of what the loop of a box does; responses are handled elsewhere. */
  function Rung(e: Event): nat
    requires !e.OnResponse?
  {
    match e
    case Added(_) => 1
    case OnLaunch(_) => 2
    case OnTimeout(_, keep) => if keep then 3 else 4
    case End(_, _) => 4
    case Delete(_) => 5
    case OnFinish(_) => 6
  }

  lemma NeverWrong(steps: seq<Step>, i: nat)
    requires Run(steps).Some? && i < |Run(steps).value.log|
    ensures var s := Run(steps).value; s.log[i].box < |s.boxes| && Trace(s.log, s.log[i].box) != Wrong
  {
    RunsKeep(steps);
  }

  /**
   * In every run, of two events of one box's loop the later one is further on: Added, OnLaunch, any number
   * of OnTimeout that keep it, one that does not or one received `end`, the removal from the map, OnFinish.
   * So each happens at most once, and nothing comes after OnFinish.
   */
  lemma LoopInOrder(steps: seq<Step>, i: nat, j: nat)
    requires Run(steps).Some? && i < j < |Run(steps).value.log|
    requires var log := Run(steps).value.log;
             log[i].box == log[j].box && !log[i].OnResponse? && !log[j].OnResponse?
    ensures var log := Run(steps).value.log;
            Rung(log[i]) < Rung(log[j]) || (log[i] == log[j] && log[i].OnTimeout? && log[i].keep)
  {
    var log := Run(steps).value.log;
    NeverWrong(steps, j);
    TraceBetween(log, log[i].box, i, j);
  }

  /** In every run each event has been prepared: a finish by a removal, a removal by a cause, and so on. */
  lemma Prepared(steps: seq<Step>, j: nat)
    requires Run(steps).Some? && j < |Run(steps).value.log|
    ensures var e := Run(steps).value.log[j]; var front := Run(steps).value.log[..j];
            && (e.OnResponse? || e.OnLaunch? ==> Added(e.box) in front)
            && (e.OnTimeout? || e.End? ==> OnLaunch(e.box) in front)
            && (e.Delete? ==> exists i :: 0 <= i < j && front[i].box == e.box && Cause(front[i]))
            && (e.OnFinish? ==> Delete(e.box) in front)
  {
    var log := Run(steps).value.log;
    NeverWrong(steps, j);
    TraceAt(log, log[j].box, j);
    StageSeen(log[..j], log[j].box);
  }

  /** The loop of a box is left for one reason only. */
  lemma OneCause(steps: seq<Step>, i: nat, j: nat)
    requires Run(steps).Some? && i < |Run(steps).value.log| && j < |Run(steps).value.log|
    requires var log := Run(steps).value.log; log[i].box == log[j].box && Cause(log[i]) && Cause(log[j])
    ensures i == j
  {
    hide Run;
    if i < j {
      LoopInOrder(steps, i, j);
    } else if j < i {
      LoopInOrder(steps, j, i);
    }
  }

  lemma EndLogged(steps: seq<Step>, c: nat) returns (i: nat)
    requires Run(steps).Some? && CallAt(Run(steps).value, c) && Run(steps).value.calls[c].place.Ended?
    ensures var s := Run(steps).value; i < |s.log| && s.log[i] == End(s.calls[c].place.box, c)
  {
    hide Run, TableExact, CallsExact, LogExact;
    RunsKeep(steps);
    var s := Run(steps).value;
    i :| 0 <= i < |s.log| && s.log[i] == End(s.calls[c].place.box, c);
  }

  /** At most one done() per box ever returns, and none does when a timeout ended the box. */
  lemma OneDone(steps: seq<Step>, c: nat, d: nat)
    requires Run(steps).Some? && CallAt(Run(steps).value, c) && CallAt(Run(steps).value, d)
    requires var calls := Run(steps).value.calls;
             calls[c].place.Ended? && calls[d].place.Ended? && calls[c].place.box == calls[d].place.box
    ensures c == d
    ensures OnTimeout(Run(steps).value.calls[c].place.box, false) !in Run(steps).value.log
  {
    hide Run;
    var log := Run(steps).value.log;
    var i := EndLogged(steps, c);
    var j := EndLogged(steps, d);
    OneCause(steps, i, j);
    forall k | 0 <= k < |log| && log[k] == OnTimeout(log[i].box, false) ensures false {
      OneCause(steps, i, k);
    }
  }

  // ---------- responses ----------

  lemma {:induction false} RunPrefix(steps: seq<Step>, k: nat)
    requires Run(steps).Some? && k < |steps|
    ensures Run(steps[..k]).Some? && Enabled(Run(steps[..k]).value, steps[k])
  {
    if k < |steps| - 1 {
      var front := steps[..|steps| - 1];
      RunPrefix(front, k);
      assert front[..k] == steps[..k];
    }
  }

  lemma PassedKept(s: State, step: Step, c: nat)
    requires Enabled(s, step) && CallAt(s, c) && s.calls[c].place != Called
    ensures CallAt(Next(s, step), c) && Next(s, step).calls[c].place != Called
  {
  }

  /** A call does not come back to where it may load. */
  lemma {:induction false} LoadPassed(steps: seq<Step>, k: nat, c: nat)
    requires Run(steps).Some? && k < |steps| && steps[k] == Load(c)
    ensures CallAt(Run(steps).value, c) && Run(steps).value.calls[c].place != Called
  {
    var front, last := steps[..|steps| - 1], steps[|steps| - 1];
    if k < |steps| - 1 {
      LoadPassed(front, k, c);
      PassedKept(Run(front).value, last, c);
    }
  }

  lemma LoadOnce(steps: seq<Step>, i: nat, j: nat, c: nat)
    requires Run(steps).Some? && i < j < |steps| && steps[i] == Load(c)
    ensures steps[j] != Load(c)
  {
    hide Next;
    RunPrefix(steps, j);
    LoadPassed(steps[..j], i, c);
  }

  /** Whatever box a call holds, it loaded when that box had been added and not been removed. */
  lemma {:induction false} LoadedSince(steps: seq<Step>, c: nat) returns (k: nat)
    requires Run(steps).Some? && CallAt(Run(steps).value, c) && HoldsBox(Run(steps).value.calls[c].place)
    ensures k < |steps| && steps[k] == Load(c) && Run(steps[..k]).Some?
    ensures var b := Run(steps).value.calls[c].place.box;
            var log := Run(steps[..k]).value.log;
            Added(b) in log && Delete(b) !in log
  {
    hide Trace, Enabled;
    var front, last := steps[..|steps| - 1], steps[|steps| - 1];
    var s := Run(front).value;
    if last == Load(c) {
      k := |steps| - 1;
      RunsKeep(front);
      LoadLive(s, c);
    } else {
      HoldKept(s, last, c);
      k := LoadedSince(front, c);
      assert front[..k] == steps[..k];
    }
  }

  lemma LoadLive(s: State, c: nat)
    requires Inv(s) && Enabled(s, Load(c)) && HoldsBox(Next(s, Load(c)).calls[c].place)
    ensures var b := Next(s, Load(c)).calls[c].place.box; Added(b) in s.log && Delete(b) !in s.log
  {
    StageSeen(s.log, s.table[s.calls[c].id]);
  }

  /**
   * A response or error that is looked up after the removal of a box never reaches it: if `c` has loaded by
   * step `k` and holds `b` in the end, `b` was in the map then.
   */
  lemma NoLateLoad(steps: seq<Step>, k: nat, c: nat)
    requires Run(steps).Some? && k < |steps| && steps[k] == Load(c)
    requires CallAt(Run(steps).value, c) && HoldsBox(Run(steps).value.calls[c].place)
    ensures Run(steps[..k]).Some?
    ensures var b := Run(steps).value.calls[c].place.box;
            Added(b) in Run(steps[..k]).value.log && Delete(b) !in Run(steps[..k]).value.log
  {
    hide Run;
    var l := LoadedSince(steps, c);
    if l < k {
      LoadOnce(steps, l, k, c);
    } else if k < l {
      LoadOnce(steps, k, l, c);
    }
  }

  /**
   * When OnResponse of a box is called, OnLaunch has not been exactly while its goroutine has not got that
   * far, and OnFinish has been exactly when the goroutine is done. Either way the handler looked the box up
   * earlier, while it was in the map.
   */
  lemma ResponseTiming(steps: seq<Step>, j: nat, c: nat, keep: bool) returns (k: nat)
    requires Run(steps).Some? && j < |steps| && steps[j] == Answer(c, keep)
    ensures k < j && steps[k] == Load(c) && Run(steps[..k]).Some? && Run(steps[..j]).Some?
    ensures var s := Run(steps[..j]).value;
            CallAt(s, c) && s.calls[c].place.Asking? &&
            var b := s.calls[c].place.box;
            && b < |s.boxes|
            && Added(b) in Run(steps[..k]).value.log && Delete(b) !in Run(steps[..k]).value.log
            && (OnLaunch(b) !in s.log <==> s.boxes[b].phase == Stored || s.boxes[b].phase == Started)
            && (OnFinish(b) in s.log <==> s.boxes[b].phase == Finished)
            && (Delete(b) in s.log <==> s.boxes[b].id !in s.table || s.table[s.boxes[b].id] != b)
  {
    hide Run, Trace;
    RunPrefix(steps, j);
    var s := Run(steps[..j]).value;
    RunsKeep(steps[..j]);
    k := LoadedSince(steps[..j], c);
    assert steps[..j][..k] == steps[..k];
    StageSeen(s.log, s.calls[c].place.box);
  }

  // ---------- what a handler does with what it finds ----------

  /** Once a handler has returned it stays so, and from done() it can only return for the same box. */
  predicate Later(before: Place, after: Place) {
    match before
    case Returned => after == Returned
    case Sending(b) => after == Sending(b) || after == Ended(b)
    case Ended(b) => after == Ended(b)
    case _ => true
  }

  lemma PlaceLater(s: State, step: Step, c: nat)
    requires Enabled(s, step) && CallAt(s, c)
    ensures CallAt(Next(s, step), c) && Later(s.calls[c].place, Next(s, step).calls[c].place)
    ensures Next(s, step).calls[c].kind == s.calls[c].kind && Next(s, step).calls[c].id == s.calls[c].id
  {
  }

  lemma {:induction false} CallLater(steps: seq<Step>, k: nat, c: nat)
    requires Run(steps).Some? && k <= |steps| && Run(steps[..k]).Some? && CallAt(Run(steps[..k]).value, c)
    ensures CallAt(Run(steps).value, c)
    ensures Later(Run(steps[..k]).value.calls[c].place, Run(steps).value.calls[c].place)
    ensures Run(steps).value.calls[c].kind == Run(steps[..k]).value.calls[c].kind
    ensures Run(steps).value.calls[c].id == Run(steps[..k]).value.calls[c].id
    decreases |steps|
  {
    hide Next, Enabled;
    if k == |steps| {
      assert steps[..k] == steps;
    } else {
      var front, last := steps[..|steps| - 1], steps[|steps| - 1];
      assert front[..k] == steps[..k];
      CallLater(front, k, c);
      RunPrefix(steps, |steps| - 1);
      PlaceLater(Run(front).value, last, c);
    }
  }

  /** Only a handler of responses or errors comes to ask the callback. */
  ghost predicate AskersRespond(s: State) {
    forall c | 0 <= c < |s.calls| && (s.calls[c].place.Loaded? || s.calls[c].place.Asking?) ::
      s.calls[c].kind == Responder
  }

  lemma AskersKept(s: State, step: Step)
    requires AskersRespond(s) && Enabled(s, step)
    ensures AskersRespond(Next(s, step))
  {
    var t := Next(s, step);
    forall c | 0 <= c < |t.calls| && (t.calls[c].place.Loaded? || t.calls[c].place.Asking?)
      ensures t.calls[c].kind == Responder
    {
      assert c < |s.calls| ==> t.calls[c].kind == s.calls[c].kind;
    }
  }

  lemma {:induction false} AskersInRun(steps: seq<Step>)
    requires Run(steps).Some?
    ensures AskersRespond(Run(steps).value)
  {
    hide Next, Enabled, AskersRespond;
    if steps == [] {
      NobodyAsks();
    } else {
      AskersInRun(steps[..|steps| - 1]);
      RunPrefix(steps, |steps| - 1);
      AskersKept(Run(steps[..|steps| - 1]).value, steps[|steps| - 1]);
    }
  }

  lemma NobodyAsks()
    ensures AskersRespond(INITIAL)
  {
  }

  lemma {:induction false} RunStep(steps: seq<Step>, k: nat)
    requires Run(steps).Some? && k < |steps|
    ensures Run(steps[..k]).Some? && Enabled(Run(steps[..k]).value, steps[k])
    ensures Run(steps[..k + 1]) == Some(Next(Run(steps[..k]).value, steps[k]))
  {
    hide Next, Enabled;
    RunPrefix(steps, k);
    assert steps[..k + 1][..k] == steps[..k] && steps[..k + 1][k] == steps[k];
  }

  /**
   * What the callback answers decides, in every run: it is logged for the box the handler holds; a handler
   * that is told to keep the transaction returns and never ends it, another one goes on to end it.
   */
  lemma AnswerDecides(steps: seq<Step>, j: nat, c: nat, keep: bool)
    requires Run(steps).Some? && j < |steps| && steps[j] == Answer(c, keep)
    ensures Run(steps[..j]).Some? && Run(steps[..j + 1]).Some?
    ensures CallAt(Run(steps[..j]).value, c) && CallAt(Run(steps).value, c)
    ensures var was := Run(steps[..j]).value.calls[c];
            var end := Run(steps).value.calls[c];
            && was.kind == Responder && was.place.Asking?
            && Run(steps[..j + 1]).value.log == Run(steps[..j]).value.log + [OnResponse(was.place.box, keep)]
            && (keep ==> end.place == Returned)
            && (!keep ==> end.place == Sending(was.place.box) || end.place == Ended(was.place.box))
  {
    hide Next, Run, AskersRespond;
    RunStep(steps, j);
    AskersInRun(steps[..j]);
    AnswerStep(Run(steps[..j]).value, c, keep);
    CallLater(steps, j + 1, c);
  }

  lemma AnswerStep(s: State, c: nat, keep: bool)
    requires Enabled(s, Answer(c, keep)) && AskersRespond(s)
    ensures CallAt(s, c) && CallAt(Next(s, Answer(c, keep)), c)
    ensures var t := Next(s, Answer(c, keep));
            var was := s.calls[c];
            && was.kind == Responder && was.place.Asking?
            && t.log == s.log + [OnResponse(was.place.box, keep)]
            && t.calls[c].place == if keep then Returned else Sending(was.place.box)
  {
  }

  /**
   * What the lookup finds decides, in every run: without a box the call returns; with one, a removal goes on
   * to end that box and asks nobody, and a handler of a response or an error first asks its callback.
   */
  lemma LoadDecides(steps: seq<Step>, k: nat, c: nat)
    requires Run(steps).Some? && k < |steps| && steps[k] == Load(c)
    ensures Run(steps[..k]).Some? && Run(steps[..k + 1]).Some?
    ensures CallAt(Run(steps[..k]).value, c) && CallAt(Run(steps[..k + 1]).value, c) && CallAt(Run(steps).value, c)
    ensures var s := Run(steps[..k]).value;
            var call, end := s.calls[c], Run(steps).value.calls[c];
            && (call.id !in s.table ==> end.place == Returned)
            && (call.id in s.table && call.kind == Remover ==>
                  end.place == Sending(s.table[call.id]) || end.place == Ended(s.table[call.id]))
            && (call.id in s.table && call.kind == Responder ==>
                  Run(steps[..k + 1]).value.calls[c].place == Loaded(s.table[call.id]))
            && (call.id !in s.table || call.kind == Remover ==>
                  forall j, keep | 0 <= j < |steps| :: steps[j] != Answer(c, keep))
  {
    hide Next, Run;
    RunStep(steps, k);
    LoadStep(Run(steps[..k]).value, c);
    CallLater(steps, k + 1, c);
    var s := Run(steps[..k]).value;
    if s.calls[c].id !in s.table || s.calls[c].kind == Remover {
      forall j, keep | 0 <= j < |steps| ensures steps[j] != Answer(c, keep) {
        if steps[j] == Answer(c, keep) {
          NoAnswer(steps, k, c, j, keep);
        }
      }
    }
  }

  lemma LoadStep(s: State, c: nat)
    requires Enabled(s, Load(c))
    ensures CallAt(s, c) && CallAt(Next(s, Load(c)), c)
    ensures var call := s.calls[c];
            Next(s, Load(c)).calls[c].place ==
            if call.id !in s.table then Returned
            else if call.kind == Remover then Sending(s.table[call.id]) else Loaded(s.table[call.id])
  {
  }

  /** A call that answers loaded before, found a box, and is no removal. */
  lemma NoAnswer(steps: seq<Step>, k: nat, c: nat, j: nat, keep: bool)
    requires Run(steps).Some? && k < |steps| && steps[k] == Load(c) && j < |steps| && steps[j] == Answer(c, keep)
    ensures Run(steps[..k]).Some? && CallAt(Run(steps[..k]).value, c)
    ensures var s := Run(steps[..k]).value; s.calls[c].id in s.table && s.calls[c].kind == Responder
  {
    hide Next, Run;
    RunStep(steps, k);
    AnswerDecides(steps, j, c, keep);
    CallLater(steps, k, c);
    CallLater(steps, j, c);
    var l := LoadedSince(steps[..j], c);
    assert steps[..j][..l] == steps[..l];
    if l < k {
      LoadOnce(steps, l, k, c);
    } else if k < l {
      LoadOnce(steps, k, l, c);
    }
    FoundSomething(steps, j, k, c);
  }

  lemma FoundSomething(steps: seq<Step>, j: nat, k: nat, c: nat)
    requires Run(steps).Some? && k < j < |steps| && steps[k] == Load(c)
    requires Run(steps[..j]).Some? && CallAt(Run(steps[..j]).value, c) && Run(steps[..j]).value.calls[c].place.Asking?
    ensures Run(steps[..k]).Some? && CallAt(Run(steps[..k]).value, c)
    ensures Run(steps[..k]).value.calls[c].id in Run(steps[..k]).value.table
  {
    hide Next, Run;
    RunStep(steps, k);
    LoadStep(Run(steps[..k]).value, c);
    assert steps[..j][..k + 1] == steps[..k + 1];
    CallLater(steps[..j], k + 1, c);
  }

  lemma BoxLater(s: State, step: Step, b: nat)
    requires Enabled(s, step) && b < |s.boxes|
    ensures b < |Next(s, step).boxes| && Next(s, step).boxes[b].id == s.boxes[b].id
  {
  }

  lemma {:induction false} BoxStays(steps: seq<Step>, k: nat, b: nat)
    requires Run(steps).Some? && k <= |steps| && Run(steps[..k]).Some? && b < |Run(steps[..k]).value.boxes|
    ensures b < |Run(steps).value.boxes| && Run(steps).value.boxes[b].id == Run(steps[..k]).value.boxes[b].id
    decreases |steps|
  {
    hide Next, Enabled;
    if k == |steps| {
      assert steps[..k] == steps;
    } else {
      var front := steps[..|steps| - 1];
      assert front[..k] == steps[..k];
      BoxStays(front, k, b);
      RunPrefix(steps, |steps| - 1);
      BoxLater(Run(front).value, steps[|steps| - 1], b);
    }
  }

  /** A box keeps the ID of its transaction, and a call keeps its kind and the ID it came with. */
  lemma IdentitiesStay(steps: seq<Step>, k: nat)
    requires Run(steps).Some? && k < |steps|
    ensures Run(steps[..k]).Some?
    ensures var s := Run(steps[..k]).value;
            var t := Run(steps).value;
            && (steps[k].NewBox? ==> |s.boxes| < |t.boxes| && t.boxes[|s.boxes|].id == steps[k].id)
            && (steps[k].Arrive? ==>
                  |s.calls| < |t.calls| && t.calls[|s.calls|].id == steps[k].id
                  && t.calls[|s.calls|].kind == steps[k].kind)
  {
    hide Run, Enabled;
    RunStep(steps, k);
    var s := Run(steps[..k]).value;
    if steps[k].NewBox? {
      BoxStays(steps, k + 1, |s.boxes|);
    } else if steps[k].Arrive? {
      CallLater(steps, k + 1, |s.calls|);
    }
  }

  // ---------- what is not promised ----------

  /** A box is in the map before its goroutine runs, so OnResponse may come before OnLaunch. */
  lemma ResponseBeforeLaunch(id: bytes) returns (steps: seq<Step>)
    ensures Run(steps).Some? && Run(steps).value.log == [Added(0), OnResponse(0, true), OnLaunch(0)]
  {
    hide Run;
    var s;
    steps, s := Looked1(id);
    steps, s := Extend(steps, s, KeepAlive(0));
    steps, s := Extend(steps, s, Answer(0, true));
    steps, s := Extend(steps, s, Go(0));
    steps, s := Extend(steps, s, Launch(0));
  }

  /** A handler that has loaded the box keeps it, so OnResponse may come after OnFinish. */
  lemma ResponseAfterFinish(id: bytes) returns (steps: seq<Step>)
    ensures Run(steps).Some?
    ensures Run(steps).value.log ==
            [Added(0), OnLaunch(0), OnTimeout(0, false), Delete(0), OnFinish(0), OnResponse(0, true)]
  {
    hide Run;
    var s;
    steps, s := Looked1(id);
    steps, s := Extend(steps, s, Go(0));
    steps, s := Extend(steps, s, Launch(0));
    steps, s := Extend(steps, s, Fire(0, false));
    steps, s := Extend(steps, s, RmSelf(0));
    steps, s := Extend(steps, s, Finish(0));
    steps, s := Extend(steps, s, KeepAlive(0));
    steps, s := Extend(steps, s, Answer(0, true));
  }

  /** A refused response ends its transaction: its done() returns, the box is removed, and its loop finishes. */
  lemma ResponseEnds(id: bytes) returns (steps: seq<Step>)
    ensures Run(steps).Some?
    ensures Run(steps).value ==
            State([Box(id, Finished)], map[], [Call(Responder, id, Ended(0))],
                  [Added(0), OnLaunch(0), OnResponse(0, false), End(0, 0), Delete(0), OnFinish(0)])
  {
    hide Run;
    var s;
    steps, s := Looked1(id);
    steps, s := Extend(steps, s, Go(0));
    steps, s := Extend(steps, s, Launch(0));
    steps, s := Extend(steps, s, KeepAlive(0));
    steps, s := Extend(steps, s, Answer(0, false));
    assert s == State([Box(id, Waiting)], map[id := 0], [Call(Responder, id, Sending(0))],
                      [Added(0), OnLaunch(0), OnResponse(0, false)]);
    steps, s := Extend(steps, s, Rendezvous(0));
    steps, s := Extend(steps, s, RmSelf(0));
    steps, s := Extend(steps, s, Finish(0));
  }

  lemma Extend(steps: seq<Step>, s: State, step: Step) returns (steps': seq<Step>, t: State)
    requires Run(steps) == Some(s) && Enabled(s, step)
    ensures t == Next(s, step) && Run(steps') == Some(t)
  {
    steps', t := steps + [step], Next(s, step);
    assert steps'[..|steps|] == steps;
  }

  /** A first box in the map, and a handler that has looked it up. */
  lemma Looked1(id: bytes) returns (steps: seq<Step>, s: State)
    ensures Run(steps) == Some(s)
    ensures s == State([Box(id, Stored)], map[id := 0], [Call(Responder, id, Loaded(0))], [Added(0)])
  {
    hide Run;
    NoSteps();
    steps, s := Extend([], INITIAL, NewBox(id));
    steps, s := Extend(steps, s, LoadOrStore(0));
    steps, s := Extend(steps, s, Arrive(Responder, id));
    steps, s := Extend(steps, s, Load(0));
  }

  lemma NoSteps()
    ensures Run([]) == Some(INITIAL)
  {
  }
}
