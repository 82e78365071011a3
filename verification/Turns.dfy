/**
 * The queue of actions: promises, each made of the one before it, and what ECMA-262, section 27.2,
 * lets happen to a promise; and what the pages did, which the actions report.
 */
module Turns {
  import opened Units

  const MAX_DIALOGS: nat := 20
  const MAX_POPUPS: nat := 20

  // ----- Promises -----

  /** What was given to make a promise of another: an action to run once that one fulfils, or a handler that forgets why it was rejected. */
  datatype Handler = Run | Swallow

  /** `acting`: the action has come as far as to act on a page. */
  datatype State = Pending | Running(acting: bool) | Fulfilled | Rejected

  datatype Promise = Promise(on: nat, handler: Handler, state: State)

  /** `betweenActions`: it came while no action acted. */
  datatype Entry = Entry(what: Text, betweenActions: bool)

  /** What an action that went through returns of what the pages did. */
  datatype Report = Report(turn: nat, dialogs: seq<Entry>, popups: seq<Entry>)

  /** What the runtime keeps: the tail of the queue, whether an action acts, and what no action has reported. */
  datatype Book = Book(tail: nat, acting: bool, dialogs: seq<Entry>, popups: seq<Entry>)

  /** The promise of each call, in the order of the calls; those whose action began, in the order they did; and all that was recorded and reported. */
  datatype Past = Past(
    called: seq<nat>,
    begun: seq<nat>,
    reports: seq<Report>,
    recordedDialogs: seq<Entry>,
    recordedPopups: seq<Entry>)

  /** The promise at 0 is `Promise.resolve()`, made of none. */
  datatype World = World(promises: seq<Promise>, book: Book, past: Past)

  datatype Event =
    | Call
    | Begin(p: nat)
    | Refuse(p: nat)
    | Forget(p: nat)
    | Pass(p: nat)
    | Act(p: nat)
    | Succeed(p: nat)
    | Fail(p: nat)
    | Dialog(what: Text)
    | Popup(what: Text, during: bool)

  const RESOLVED: Promise := Promise(0, Swallow, Fulfilled)
  const START: World := World([RESOLVED], Book(0, false, [], []), Past([], [], [], [], []))

  /** A promise not settled whose own promise ended as `on`. */
  predicate Ready(w: World, p: nat, on: State) {
    && p < |w.promises| && w.promises[p].state == Pending
    && w.promises[p].on < |w.promises| && w.promises[w.promises[p].on].state == on
  }

  predicate IsRunning(w: World, p: nat) {
    p < |w.promises| && w.promises[p].state.Running?
  }

  /**
   * What can happen next. An action begins when the promise it was put on fulfils, and is refused, never run, when that
   * one is rejected; a handler of rejections runs on a rejection, and a fulfilment goes past it.
   */
  predicate Enabled(w: World, event: Event) {
    match event
    case Call => w.book.tail < |w.promises|
    case Begin(p) => Ready(w, p, Fulfilled) && w.promises[p].handler.Run?
    case Refuse(p) => Ready(w, p, Rejected) && w.promises[p].handler.Run?
    case Forget(p) => Ready(w, p, Rejected) && w.promises[p].handler.Swallow?
    case Pass(p) => Ready(w, p, Fulfilled) && w.promises[p].handler.Swallow?
    case Act(p) => IsRunning(w, p) && !w.promises[p].state.acting
    case Succeed(p) => IsRunning(w, p) && w.promises[p].state.acting
    case Fail(p) => IsRunning(w, p)
    case Dialog(_) => true
    case Popup(_, _) => true
  }

  function Becomes(promises: seq<Promise>, p: nat, state: State): seq<Promise>
    requires p < |promises|
  {
    promises[p := promises[p].(state := state)]
  }

  function Step(w: World, event: Event): World
    requires Enabled(w, event)
  {
    var ps, b, past := w.promises, w.book, w.past;
    match event
    case Call =>
      World(
        ps + [Promise(b.tail, Run, Pending), Promise(|ps|, Swallow, Pending)],
        b.(tail := |ps| + 1), past.(called := past.called + [|ps|]))
    case Begin(p) => World(Becomes(ps, p, Running(false)), b, past.(begun := past.begun + [p]))
    case Refuse(p) => World(Becomes(ps, p, Rejected), b, past)
    case Forget(p) => World(Becomes(ps, p, Fulfilled), b, past)
    case Pass(p) => World(Becomes(ps, p, Fulfilled), b, past)
    case Act(p) => World(Becomes(ps, p, Running(true)), b.(acting := true), past)
    case Succeed(p) =>
      World(Becomes(ps, p, Fulfilled), b.(acting := false, dialogs := [], popups := []),
        past.(reports := past.reports + [Report(p, b.dialogs, b.popups)]))
    case Fail(p) =>
      World(Becomes(ps, p, Rejected), b.(acting := if ps[p].state.acting then false else b.acting), past)
    case Dialog(what) =>
      if |b.dialogs| < MAX_DIALOGS then
        var entry := Entry(what, !b.acting);
        World(ps, b.(dialogs := b.dialogs + [entry]), past.(recordedDialogs := past.recordedDialogs + [entry]))
      else w
    case Popup(what, during) =>
      if |b.popups| < MAX_POPUPS then
        var entry := Entry(what, !during);
        World(ps, b.(popups := b.popups + [entry]), past.(recordedPopups := past.recordedPopups + [entry]))
      else w
  }

  // ----- The shape of the queue -----

  /** The promise of call `i`, and the one the next call is put on. */
  function TurnOf(i: nat): nat { 2 * i + 1 }
  function NextOf(i: nat): nat { 2 * i + 2 }

  /** Each turn is put on the promise that forgets how the turn before it ended, the first on a fulfilled one. */
  predicate IsQueue(w: World) {
    var n := |w.past.called|;
    && |w.promises| == 2 * n + 1 && w.book.tail == 2 * n
    && w.promises[0] == RESOLVED
    && (forall i :: 0 <= i < n ==> w.past.called[i] == TurnOf(i))
    && (forall i :: 0 <= i < n ==> IsTurn(w, i) && IsNext(w, i))
  }

  predicate IsTurn(w: World, i: nat) {
    TurnOf(i) < |w.promises| && w.promises[TurnOf(i)].on == 2 * i && w.promises[TurnOf(i)].handler == Run
  }

  predicate IsNext(w: World, i: nat) {
    NextOf(i) < |w.promises| && w.promises[NextOf(i)].on == TurnOf(i) && w.promises[NextOf(i)].handler == Swallow
  }

  predicate Settled(s: State) {
    s.Fulfilled? || s.Rejected?
  }

  /** The turns that began are the first called; all but the last of them ended, and the others are pending. */
  predicate InTurn(w: World)
    requires IsQueue(w)
  {
    var n, k := |w.past.called|, |w.past.begun|;
    && k <= n && w.past.begun == w.past.called[..k]
    && (forall i :: 0 <= i < n ==> (w.promises[TurnOf(i)].state == Pending <==> k <= i))
    && (forall i :: 0 <= i < n && i + 1 < k ==> Settled(w.promises[TurnOf(i)].state))
    && (forall i :: 0 <= i < n ==> w.promises[NextOf(i)].state == Pending || w.promises[NextOf(i)].state == Fulfilled)
    && (forall i :: 0 <= i < n && w.promises[NextOf(i)].state == Fulfilled ==> Settled(w.promises[TurnOf(i)].state))
    && (forall i :: 0 <= i < n && i + 1 < k ==> w.promises[NextOf(i)].state == Fulfilled)
    && (w.book.acting <==> k > 0 && w.promises[TurnOf(k - 1)].state == Running(true))
  }

  // ----- What is reported -----

  function Dialogs(reports: seq<Report>): seq<Entry> {
    if reports == [] then [] else Dialogs(reports[..|reports| - 1]) + reports[|reports| - 1].dialogs
  }

  function Popups(reports: seq<Report>): seq<Entry> {
    if reports == [] then [] else Popups(reports[..|reports| - 1]) + reports[|reports| - 1].popups
  }

  /** The turns among `turns` that fulfilled. */
  function Done(promises: seq<Promise>, turns: seq<nat>): seq<nat> {
    if turns == [] then []
    else
      var last := turns[|turns| - 1];
      Done(promises, turns[..|turns| - 1])
      + if last < |promises| && promises[last].state == Fulfilled then [last] else []
  }

  function Reporters(reports: seq<Report>): seq<nat> {
    seq(|reports|, i requires 0 <= i < |reports| => reports[i].turn)
  }

  /** Every entry recorded is in one report, in the order recorded, or waits for the next; and each turn that fulfilled made one report. */
  predicate Conserved(w: World) {
    && Dialogs(w.past.reports) + w.book.dialogs == w.past.recordedDialogs && |w.book.dialogs| <= MAX_DIALOGS
    && Popups(w.past.reports) + w.book.popups == w.past.recordedPopups && |w.book.popups| <= MAX_POPUPS
    && Reporters(w.past.reports) == Done(w.promises, w.past.begun)
  }

  predicate Valid(w: World) {
    IsQueue(w) && InTurn(w) && Conserved(w)
  }

  lemma StartIsValid()
    ensures Valid(START)
  {
  }

  lemma StepIsQueue(w: World, event: Event)
    requires Valid(w) && Enabled(w, event)
    ensures IsQueue(Step(w, event))
  {
    hide InTurn, Conserved;
    var next := Step(w, event);
    if event.Call? {
      var n := |w.past.called|;
      forall i | 0 <= i < n + 1 ensures IsTurn(next, i) && IsNext(next, i) && next.past.called[i] == TurnOf(i) {
        assert i < n ==> IsTurn(w, i) && IsNext(w, i);
      }
    } else {
      forall i | 0 <= i < |w.past.called| ensures IsTurn(next, i) && IsNext(next, i) {
        assert IsTurn(w, i) && IsNext(w, i);
      }
    }
  }

  /** Which promise an event of the queue is about. */
  lemma WhichTurn(w: World, p: nat) returns (i: nat)
    requires IsQueue(w) && 0 < p < |w.promises|
    ensures i < |w.past.called| && IsTurn(w, i) && IsNext(w, i)
    ensures p == if w.promises[p].handler.Run? then TurnOf(i) else NextOf(i)
  {
    i := (p - 1) / 2;
    assert IsTurn(w, i) && IsNext(w, i);
  }

  /** No turn is ever refused: the promise it is put on does not reject. */
  lemma NoneRefused(w: World, p: nat)
    requires Valid(w)
    ensures !Enabled(w, Refuse(p))
  {
    hide Conserved;
    if 0 < p < |w.promises| && w.promises[p].handler.Run? {
      var i := WhichTurn(w, p);
      NeverRejects(w, i);
    }
  }

  /** What a turn is put on does not reject. */
  lemma NeverRejects(w: World, i: nat)
    requires Valid(w) && i < |w.past.called|
    ensures w.promises[2 * i].state != Rejected
  {
    hide Conserved;
    if i > 0 {
      assert NextOf(i - 1) == 2 * i;
    }
  }

  /** The turn that runs is the last that began. */
  lemma RunningIsLast(w: World, p: nat)
    requires Valid(w) && IsRunning(w, p)
    ensures var k := |w.past.begun|; 0 < k <= |w.past.called| && p == TurnOf(k - 1) && w.past.begun[k - 1] == p
  {
    hide Conserved;
    var i := WhichTurn(w, p);
  }

  /** The turn that can begin is the first that has not, and none runs then. */
  lemma FirstBegins(w: World, p: nat)
    requires Valid(w) && Enabled(w, Begin(p))
    ensures var k := |w.past.begun|; k < |w.past.called| && p == TurnOf(k)
    ensures forall q :: !IsRunning(w, q)
  {
    hide Conserved;
    var i := WhichTurn(w, p);
    if i > 0 {
      assert IsNext(w, i - 1);
    }
    forall q ensures !IsRunning(w, q) {
      if IsRunning(w, q) {
        RunningIsLast(w, q);
      }
    }
  }

  lemma BeginInTurn(w: World, p: nat)
    requires Valid(w) && Enabled(w, Begin(p))
    ensures IsQueue(Step(w, Begin(p))) && InTurn(Step(w, Begin(p)))
  {
    hide Conserved;
    StepIsQueue(w, Begin(p));
    FirstBegins(w, p);
    var k := |w.past.begun|;
    assert w.past.called[..k + 1] == w.past.called[..k] + [w.past.called[k]];
    assert IsTurn(w, k);
    if k > 0 {
      assert NextOf(k - 1) == 2 * k && IsNext(w, k - 1) && IsTurn(w, k - 1);
      assert !IsRunning(w, TurnOf(k - 1));
    }
    BegunNext(w, p, k);
  }

  lemma BegunNext(w: World, p: nat, k: nat)
    requires Valid(w) && Enabled(w, Begin(p)) && k < |w.past.called| && p == TurnOf(k) && k == |w.past.begun|
    requires k > 0 ==> w.promises[NextOf(k - 1)].state == Fulfilled && Settled(w.promises[TurnOf(k - 1)].state)
    ensures IsQueue(Step(w, Begin(p))) ==> InTurn(Step(w, Begin(p)))
  {
    hide Conserved;
  }

  /** An action acts, or ends, in the turn that began last. */
  lemma RunInTurn(w: World, event: Event)
    requires Valid(w) && Enabled(w, event) && (event.Act? || event.Succeed? || event.Fail?)
    ensures IsQueue(Step(w, event)) && InTurn(Step(w, event))
  {
    hide Conserved;
    StepIsQueue(w, event);
    RunningIsLast(w, event.p);
  }

  lemma NextInTurn(w: World, event: Event)
    requires Valid(w) && Enabled(w, event) && (event.Forget? || event.Pass?)
    ensures IsQueue(Step(w, event)) && InTurn(Step(w, event))
  {
    hide Conserved;
    StepIsQueue(w, event);
    if event.p > 0 {
      var i := WhichTurn(w, event.p);
    }
  }

  lemma StepInTurn(w: World, event: Event)
    requires Valid(w) && Enabled(w, event)
    ensures IsQueue(Step(w, event)) && InTurn(Step(w, event))
  {
    hide Conserved;
    StepIsQueue(w, event);
    match event
    case Begin(p) => BeginInTurn(w, p);
    case Refuse(p) => NoneRefused(w, p);
    case Forget(p) => NextInTurn(w, event);
    case Pass(p) => NextInTurn(w, event);
    case Call => CallInTurn(w);
    case Dialog(_) =>
    case Popup(_, _) =>
    case _ => RunInTurn(w, event);
  }

  lemma CallInTurn(w: World)
    requires Valid(w) && Enabled(w, Call)
    ensures IsQueue(Step(w, Call)) && InTurn(Step(w, Call))
  {
    hide Conserved;
    StepIsQueue(w, Call);
    var next, n, k := Step(w, Call), |w.past.called|, |w.past.begun|;
    assert next.past.called[..k] == w.past.called[..k];
    forall i | 0 <= i < n
      ensures next.promises[TurnOf(i)] == w.promises[TurnOf(i)] && next.promises[NextOf(i)] == w.promises[NextOf(i)]
    {
    }
  }

  // ----- Conservation -----

  lemma ReportsOn(reports: seq<Report>, last: Report)
    ensures Dialogs(reports + [last]) == Dialogs(reports) + last.dialogs
    ensures Popups(reports + [last]) == Popups(reports) + last.popups
    ensures Reporters(reports + [last]) == Reporters(reports) + [last.turn]
  {
    assert (reports + [last])[..|reports|] == reports;
  }

  lemma {:induction false} DoneSame(promises: seq<Promise>, after: seq<Promise>, turns: seq<nat>)
    requires forall p :: p in turns ==>
      (p < |promises| && promises[p].state == Fulfilled <==> p < |after| && after[p].state == Fulfilled)
    ensures Done(after, turns) == Done(promises, turns)
  {
    if turns != [] {
      assert turns[|turns| - 1] in turns;
      DoneSame(promises, after, turns[..|turns| - 1]);
    }
  }

  lemma DoneOn(promises: seq<Promise>, turns: seq<nat>, last: nat)
    ensures Done(promises, turns + [last])
         == Done(promises, turns) + if last < |promises| && promises[last].state == Fulfilled then [last] else []
  {
    assert (turns + [last])[..|turns|] == turns;
  }

  lemma SucceedConserves(w: World, p: nat)
    requires Valid(w) && Enabled(w, Succeed(p))
    ensures Conserved(Step(w, Succeed(p)))
  {
    RunningIsLast(w, p);
    var k, next := |w.past.begun|, Step(w, Succeed(p));
    var earlier := w.past.begun[..k - 1];
    assert w.past.begun == earlier + [p];
    forall q | q in earlier ensures q != p {
      var i :| 0 <= i < k - 1 && q == earlier[i];
      assert w.past.begun[i] == w.past.called[i];
    }
    DoneSame(w.promises, next.promises, earlier);
    DoneOn(w.promises, earlier, p);
    DoneOn(next.promises, earlier, p);
    ReportsOn(w.past.reports, Report(p, w.book.dialogs, w.book.popups));
  }

  /** A turn that begins is not among those that began. */
  lemma BeginConserves(w: World, p: nat)
    requires Valid(w) && Enabled(w, Begin(p))
    ensures Conserved(Step(w, Begin(p)))
  {
    FirstBegins(w, p);
    var next := Step(w, Begin(p));
    DoneSame(w.promises, next.promises, w.past.begun);
    DoneOn(next.promises, w.past.begun, p);
  }

  lemma BegunAreTurns(w: World, p: nat)
    requires Valid(w) && p in w.past.begun
    ensures p < |w.promises| && w.promises[p].handler.Run?
  {
    hide Conserved;
    var i :| 0 <= i < |w.past.begun| && w.past.begun[i] == p;
    assert p == w.past.called[i] && IsTurn(w, i);
  }

  lemma OtherConserves(w: World, event: Event)
    requires Valid(w) && Enabled(w, event) && !event.Begin? && !event.Succeed? && !event.Dialog? && !event.Popup?
    ensures Conserved(Step(w, event))
  {
    hide InTurn;
    var next := Step(w, event);
    forall p | p in w.past.begun
      ensures p < |w.promises| && p < |next.promises|
      ensures w.promises[p].state == Fulfilled <==> next.promises[p].state == Fulfilled
    {
      BegunAreTurns(w, p);
    }
    DoneSame(w.promises, next.promises, w.past.begun);
  }

  lemma RecordedConserves(w: World, event: Event)
    requires Valid(w) && (event.Dialog? || event.Popup?)
    ensures Conserved(Step(w, event))
  {
    hide InTurn, IsQueue, Done, Dialogs, Popups, Reporters;
    var next := Step(w, event);
    if event.Dialog? && |w.book.dialogs| < MAX_DIALOGS {
      var entry := [Entry(event.what, !w.book.acting)];
      assert Dialogs(w.past.reports) + (w.book.dialogs + entry) == Dialogs(w.past.reports) + w.book.dialogs + entry;
    } else if event.Popup? && |w.book.popups| < MAX_POPUPS {
      var entry := [Entry(event.what, !event.during)];
      assert Popups(w.past.reports) + (w.book.popups + entry) == Popups(w.past.reports) + w.book.popups + entry;
    }
  }

  /** Every event keeps all of it, and what is recorded, called, begun and reported stays. */
  lemma StepKeeps(w: World, event: Event)
    requires Valid(w) && Enabled(w, event)
    ensures Valid(Step(w, event)) && Grows(w, Step(w, event))
  {
    hide IsQueue, InTurn, Conserved;
    StepInTurn(w, event);
    match event
    case Begin(p) => BeginConserves(w, p);
    case Succeed(p) => SucceedConserves(w, p);
    case Dialog(_) => RecordedConserves(w, event);
    case Popup(_, _) => RecordedConserves(w, event);
    case _ => OtherConserves(w, event);
  }

  predicate Grows(w: World, next: World) {
    && w.past.called <= next.past.called && w.past.begun <= next.past.begun && w.past.reports <= next.past.reports
    && w.past.recordedDialogs <= next.past.recordedDialogs && w.past.recordedPopups <= next.past.recordedPopups
  }

  // ----- Runs -----

  /** A run: calls, and whatever can happen to their promises, in any order. */
  predicate IsRun(w: World, events: seq<Event>)
    decreases |events|
  {
    events == [] || (Enabled(w, events[0]) && IsRun(Step(w, events[0]), events[1..]))
  }

  function After(w: World, events: seq<Event>): World
    requires IsRun(w, events)
    decreases |events|
  {
    if events == [] then w else After(Step(w, events[0]), events[1..])
  }

  lemma {:induction false} RunKeeps(w: World, events: seq<Event>)
    requires Valid(w) && IsRun(w, events)
    ensures Valid(After(w, events)) && Grows(w, After(w, events))
    decreases |events|
  {
    hide Step, Enabled, Valid;
    if events != [] {
      StepKeeps(w, events[0]);
      RunKeeps(Step(w, events[0]), events[1..]);
    }
  }

  /** After any run at most one action runs, and the flag the pages' events are judged by says whether it has acted. */
  lemma OneAtATime(events: seq<Event>, p: nat, q: nat)
    requires IsRun(START, events)
    ensures var w := After(START, events);
      && (IsRunning(w, p) && IsRunning(w, q) ==> p == q)
      && (IsRunning(w, p) ==> w.book.acting == w.promises[p].state.acting)
      && (w.book.acting ==> exists r :: IsRunning(w, r))
  {
    hide Step, Enabled, After, IsRun;
    StartIsValid();
    RunKeeps(START, events);
    var w := After(START, events);
    if IsRunning(w, p) { RunningIsLast(w, p); }
    if IsRunning(w, q) { RunningIsLast(w, q); }
    if w.book.acting {
      assert IsRunning(w, TurnOf(|w.past.begun| - 1));
    }
  }

  /** After any run the actions that began are the first called, in the order of the calls, and each that ended began: none is skipped. */
  lemma InCallOrder(events: seq<Event>, i: nat)
    requires IsRun(START, events)
    ensures var w := After(START, events);
      && w.past.begun <= w.past.called
      && (i < |w.past.called| ==>
            && w.past.called[i] < |w.promises|
            && (w.promises[w.past.called[i]].state != Pending <==> i < |w.past.begun|)
            && !Enabled(w, Refuse(w.past.called[i])))
  {
    hide Step, After, IsRun, Enabled;
    StartIsValid();
    RunKeeps(START, events);
    var w := After(START, events);
    if i < |w.past.called| {
      assert IsTurn(w, i);
      NoneRefused(w, w.past.called[i]);
    }
  }

  /** However the last action to begin ended, the next one called can begin: once its promise has been passed on, or its rejection forgotten. */
  lemma NextBegins(events: seq<Event>, i: nat) returns (more: seq<Event>)
    requires IsRun(START, events)
    requires var w := After(START, events);
      && i + 1 < |w.past.called| && |w.past.begun| == i + 1 && w.past.called[i] < |w.promises|
      && Settled(w.promises[w.past.called[i]].state)
    ensures var w := After(START, events);
      && IsRun(w, more)
      && After(w, more).past.begun == w.past.begun + [w.past.called[i + 1]]
      && IsRunning(After(w, more), w.past.called[i + 1])
  {
    hide After, IsRun, IsQueue, InTurn, Conserved;
    StartIsValid();
    RunKeeps(START, events);
    var w := After(START, events);
    NextParts(w, i);
    var p, q := NextOf(i), TurnOf(i + 1);
    if w.promises[p].state == Fulfilled {
      more := [Begin(q)];
      OneStep(w, Begin(q));
    } else {
      var first := if w.promises[TurnOf(i)].state == Fulfilled then Pass(p) else Forget(p);
      more := [first, Begin(q)];
      TwoSteps(w, first, Begin(q));
    }
  }

  lemma NextParts(w: World, i: nat)
    requires Valid(w) && i + 1 < |w.past.called| && |w.past.begun| == i + 1
    ensures IsTurn(w, i) && IsNext(w, i) && IsTurn(w, i + 1) && w.past.called[i] == TurnOf(i) && w.past.called[i + 1] == TurnOf(i + 1)
    ensures w.promises[TurnOf(i + 1)].state == Pending
    ensures w.promises[NextOf(i)].state == Pending || w.promises[NextOf(i)].state == Fulfilled
  {
    hide Conserved;
  }

  lemma OneStep(w: World, event: Event)
    requires Enabled(w, event)
    ensures IsRun(w, [event]) && After(w, [event]) == Step(w, event)
  {
    hide Enabled, Step;
    var events := [event];
    assert events[1..] == [];
  }

  lemma TwoSteps(w: World, first: Event, second: Event)
    requires Enabled(w, first) && Enabled(Step(w, first), second)
    ensures IsRun(w, [first, second]) && After(w, [first, second]) == Step(Step(w, first), second)
  {
    hide Enabled, Step;
    var events := [first, second];
    assert events[1..] == [second];
    OneStep(Step(w, first), second);
  }

  /** The queue never stops: while an action called has not ended, one runs, or something can happen that is not another call or a page's doing. */
  lemma NeverStuck(events: seq<Event>, i: nat) returns (event: Event)
    requires IsRun(START, events)
    requires var w := After(START, events);
      && i < |w.past.called| && w.past.called[i] < |w.promises| && !Settled(w.promises[w.past.called[i]].state)
    ensures Enabled(After(START, events), event) && !event.Call? && !event.Dialog? && !event.Popup?
  {
    hide After, IsRun, Conserved;
    StartIsValid();
    RunKeeps(START, events);
    var w := After(START, events);
    var k := |w.past.begun|;
    assert IsTurn(w, i);
    if k > 0 && w.promises[TurnOf(k - 1)].state.Running? {
      event := Fail(TurnOf(k - 1));
    } else {
      assert k < |w.past.called|;
      assert IsTurn(w, k);
      if k > 0 {
        assert IsNext(w, k - 1) && IsTurn(w, k - 1);
      }
      if w.promises[2 * k].state == Fulfilled {
        event := Begin(TurnOf(k));
      } else if w.promises[TurnOf(k - 1)].state == Fulfilled {
        event := Pass(2 * k);
      } else {
        event := Forget(2 * k);
      }
    }
  }

  /** After any run everything recorded has been reported once, in order, or waits; each action that went through made one report, in the order they began. */
  lemma NothingLost(events: seq<Event>)
    requires IsRun(START, events)
    ensures Conserved(After(START, events))
  {
    hide Step, Enabled, After, IsRun, Conserved;
    StartIsValid();
    RunKeeps(START, events);
  }

  /** At most twenty dialogs and twenty popups wait to be reported, and one more is recorded as long as fewer do. */
  lemma TwentyWait(events: seq<Event>, what: Text, during: bool)
    requires IsRun(START, events)
    ensures var w := After(START, events);
      && |w.book.dialogs| <= 20 && |w.book.popups| <= 20
      && |Step(w, Dialog(what)).past.recordedDialogs| == |w.past.recordedDialogs| + (if |w.book.dialogs| < 20 then 1 else 0)
      && Step(w, Popup(what, during)).past.recordedPopups
           == w.past.recordedPopups + (if |w.book.popups| < 20 then [Entry(what, !during)] else [])
  {
    hide After, IsRun, Enabled;
    StartIsValid();
    RunKeeps(START, events);
  }

  /** A dialog is reported as between actions exactly when no action was acting. */
  lemma BetweenActions(events: seq<Event>, what: Text)
    requires IsRun(START, events) && |After(START, events).book.dialogs| < MAX_DIALOGS
    ensures var w := After(START, events);
      && Step(w, Dialog(what)).past.recordedDialogs
           == w.past.recordedDialogs + [Entry(what, !exists p: nat :: IsRunning(w, p) && w.promises[p].state.acting)]
  {
    hide After, IsRun, Conserved;
    StartIsValid();
    RunKeeps(START, events);
    var w := After(START, events);
    var k := |w.past.begun|;
    if w.book.acting {
      assert IsRunning(w, TurnOf(k - 1));
    } else {
      forall p: nat | IsRunning(w, p) ensures !w.promises[p].state.acting {
        RunningIsLast(w, p);
      }
    }
  }
}
