/** Whose a window is and whether one is waited for, told from what has happened alone, and that the runtime's books agree. */
module Ownership {
  import opened Units
  import opened Windows

  function Before(events: seq<Event>): seq<Event>
    requires events != []
  {
    events[..|events| - 1]
  }

  function Last(events: seq<Event>): Event
    requires events != []
  {
    events[|events| - 1]
  }

  // ----- What has happened -----

  /**
   * The action that runs, and whether it navigates its page or sends it input; how many have begun; the page the running one
   * acted on last; the active page, once it was driven since it became active, and while it lives; and the pages announced
   * or created and not destroyed.
   */
  datatype History = History(running: Option<bool>, begun: nat, actedOn: Option<Id>, driven: Option<Id>, pages: set<Id>)

  function HistoryOf(events: seq<Event>): History {
    if events == [] then History(None, 0, None, None, {}) else Onward(HistoryOf(Before(events)), Last(events))
  }

  function Onward(h: History, event: Event): History {
    match event
    case ActionBegins(driving) => h.(running := Some(driving), begun := h.begun + 1, actedOn := None)
    case ActionEnds => h.(running := None, actedOn := None)
    case ActingOn(id, _) => h.(actedOn := Some(id))
    case Drives(id, _) => h.(driven := Some(id))
    case Activated => h.(driven := None)
    case Announced(id) => h.(pages := h.pages + {id})
    case TargetCreated(info) => h.(pages := h.pages + {info.id})
    case TargetDestroyed(id) =>
      h.(pages := h.pages - {id}, driven := if h.driven == Some(id) then None else h.driven)
    case _ => h
  }

  lemma HistoryStep(events: seq<Event>)
    requires events != []
    ensures HistoryOf(events) == Onward(HistoryOf(Before(events)), Last(events))
  {
    hide Onward;
  }

  /** A page the runtime opened, drives, or acts on, or a window it owns. */
  predicate IsOurs(events: seq<Event>, id: Id)
    decreases |events|, 1
  {
    id in Ours(events) || HistoryOf(events).driven == Some(id) || HistoryOf(events).actedOn == Some(id)
  }

  /** The tabs asked for, and the windows claimed when they were created. */
  function Ours(events: seq<Event>): set<Id>
    decreases |events|, 0
  {
    if events == [] then {}
    else match Last(events)
      case TabOpened(id, _) => Ours(Before(events)) + {id}
      case TargetCreated(info) =>
        if Claimed(Before(events), info) then Ours(Before(events)) + {info.id} else Ours(Before(events))
      case _ => Ours(Before(events))
  }

  /**
   * A window created after `events` is the runtime's, in a browser attached to: while an action runs, when no page opened it
   * and it is not blank, or what opened it is ours or no page known, or an action that drives its page has none yet; between
   * actions, when what opened it is ours.
   */
  predicate Claimed(events: seq<Event>, info: Created)
    decreases |events|, 2
  {
    var h := HistoryOf(events);
    if h.running.Some? then
      if info.opener.None? then !info.blank
      else
        || IsOurs(events, info.opener.value)
        || info.opener.value !in h.pages
        || (h.running == Some(true) && h.actedOn.None?)
    else info.opener.Some? && IsOurs(events, info.opener.value)
  }

  /** The windows created in an action that have not been asked what they are, with the number of that action. */
  function CreatedIn(events: seq<Event>): map<Id, nat> {
    if events == [] then map[]
    else match Last(events)
      case TargetCreated(info) =>
        if HistoryOf(Before(events)).running.Some? && Claimed(Before(events), info)
        then CreatedIn(Before(events))[info.id := HistoryOf(Before(events)).begun] else CreatedIn(Before(events))
      case Judged(id, look, _) => if look.Known? then CreatedIn(Before(events)) - {id} else CreatedIn(Before(events))
      case _ => CreatedIn(Before(events))
  }

  /** The windows waited for: each from its creation, when it is the runtime's, until it is looked up, destroyed, or given up on. */
  function Awaited(options: Options, events: seq<Event>): map<Id, Window> {
    if events == [] then map[]
    else
      var event := Last(events);
      NowAwaited(Awaited(options, Before(events)), event,
        event.TargetCreated? && (!options.attached || Claimed(Before(events), event.info)))
  }

  function NowAwaited(waited: map<Id, Window>, event: Event, claimed: bool): map<Id, Window> {
    match event
    case TargetCreated(info) => if claimed then waited[info.id := Window(info.context, info.opener.Some?)] else waited
    case TargetDestroyed(id) => waited - {id}
    case LookedUp(id, _) => waited - {id}
    case Judged(id, look, _) => if look.Known? then waited - {id} else waited
    case TabOpened(id, _) => waited - {id}
    case ActingOn(id, _) => waited - {id}
    case Drives(id, _) => waited - {id}
    case GivesUp => map[]
    case _ => waited
  }

  /** The popups with a timer: those given up on where popups are blocked, until it runs out or they are destroyed. */
  function Timed(options: Options, events: seq<Event>): map<Id, Window> {
    if events == [] then map[]
    else NowTimed(options, Timed(options, Before(events)), Awaited(options, Before(events)), Last(events))
  }

  function NowTimed(options: Options, timed: map<Id, Window>, waited: map<Id, Window>, event: Event): map<Id, Window> {
    match event
    case GivesUp => if options.blocks then timed + (map id | id in waited && waited[id].popup :: waited[id]) else timed
    case TimerFires(id) => timed - {id}
    case TargetDestroyed(id) => timed - {id}
    case _ => timed
  }

  /** The context of the first page that was asked. */
  function FirstContext(events: seq<Event>): Option<Id> {
    if events == [] then None
    else if FirstContext(Before(events)).Some? then FirstContext(Before(events))
    else AskedContext(Last(events))
  }

  function AskedContext(event: Event): Option<Id> {
    match event
    case LookedUp(_, context) => Some(context)
    case TabOpened(_, context) => Some(context)
    case ActingOn(_, context) => Some(context)
    case Drives(_, context) => Some(context)
    case Judged(_, Known(context), _) => Some(context)
    case _ => None
  }

  /** The popups being closed because their timer ran out: in a browser attached to, those of the runtime's own context. */
  function Lapsed(options: Options, events: seq<Event>): set<Id> {
    if events == [] then {}
    else
      NowLapsed(options, Lapsed(options, Before(events)), Timed(options, Before(events)), FirstContext(Before(events)), Last(events))
  }

  function NowLapsed(options: Options, lapsed: set<Id>, timed: map<Id, Window>, own: Option<Id>, event: Event): set<Id> {
    match event
    case TimerFires(id) =>
      if !options.attached || (id in timed && own == Some(timed[id].context)) then lapsed + {id} else lapsed
    case TargetDestroyed(id) => lapsed - {id}
    case _ => lapsed
  }

  // ----- The books agree -----

  lemma {:induction false} LastStep(options: Options, w: World, events: seq<Event>)
    requires events != [] && IsRun(options, w, events)
    ensures IsRun(options, w, Before(events)) && Enabled(options, After(options, w, Before(events)), Last(events))
    ensures After(options, w, events) == Step(options, After(options, w, Before(events)), Last(events))
    decreases |events|
  {
    hide Step, Enabled;
    if |events| == 1 {
      assert events[1..] == [] && Before(events) == [];
    } else {
      var rest := events[1..];
      LastStep(options, Step(options, w, events[0]), rest);
      assert Before(events)[1..] == Before(rest) && Last(rest) == Last(events);
    }
  }

  predicate FlagsAgree(b: Book, h: History) {
    && (b.acting <==> h.running.Some?) && (b.driving <==> h.running == Some(true))
    && b.actions == h.begun && b.actingTarget == h.actedOn && b.drivenTarget == h.driven && b.pageTargets == h.pages
  }

  ghost predicate OwnedAgree(b: Book, events: seq<Event>) {
    b.createdActing == CreatedIn(events) && forall id :: Mine(b, id) <==> id in Ours(events)
  }

  ghost predicate BookAgrees(options: Options, b: Book, events: seq<Event>) {
    && FlagsAgree(b, HistoryOf(events))
    && b.owed == Awaited(options, events) && b.lapsing == Timed(options, events)
    && b.contextId == FirstContext(events) && b.lapsedIds == Lapsed(options, events)
    && (options.attached ==> OwnedAgree(b, events))
  }

  lemma ClaimedIs(options: Options, b: Book, events: seq<Event>, info: Created)
    requires FlagsAgree(b, HistoryOf(events)) && OwnedAgree(b, events) && options.attached
    ensures Theirs(options, b, info) <==> !Claimed(events, info)
    ensures info.opener.Some? ==> (Runtimes(b, info.opener.value) <==> IsOurs(events, info.opener.value))
    ensures HistoryOf(events).running.None? && Claimed(events, info) ==> info.opener.Some? && IsOurs(events, info.opener.value)
  {
    hide HistoryOf, Ours, CreatedIn, Awaited;
  }

  lemma FlagsStep(options: Options, w: World, event: Event, h: History)
    requires Enabled(options, w, event) && FlagsAgree(w.book, h)
    ensures FlagsAgree(Step(options, w, event).book, Onward(h, event))
  {
    hide Theirs, Runtimes;
  }

  lemma OwedMoves(options: Options, w: World, event: Event, claimed: bool)
    requires Enabled(options, w, event) && (event.TargetCreated? ==> (claimed <==> !Theirs(options, w.book, event.info)))
    ensures Step(options, w, event).book.owed == NowAwaited(w.book.owed, event, claimed)
  {
    hide Theirs, Runtimes;
  }

  lemma OwedStep(options: Options, w: World, events: seq<Event>)
    requires events != [] && Enabled(options, w, Last(events)) && BookAgrees(options, w.book, Before(events))
    ensures Step(options, w, Last(events)).book.owed == Awaited(options, events)
  {
    hide Theirs, Runtimes, Claimed, HistoryOf, Ours, CreatedIn, Step, NowAwaited, Enabled;
    var event := Last(events);
    var claimed := event.TargetCreated? && (!options.attached || Claimed(Before(events), event.info));
    if event.TargetCreated? {
      if options.attached {
        ClaimedIs(options, w.book, Before(events), event.info);
      } else {
        NeverTheirs(options, w.book, event.info);
      }
    }
    OwedMoves(options, w, event, claimed);
  }

  lemma TimersMove(options: Options, w: World, event: Event)
    requires Enabled(options, w, event)
    ensures var b, next := w.book, Step(options, w, event).book;
      && next.lapsing == NowTimed(options, b.lapsing, b.owed, event)
      && next.lapsedIds == NowLapsed(options, b.lapsedIds, b.lapsing, b.contextId, event)
  {
    hide Theirs, Runtimes;
  }

  lemma ContextMoves(options: Options, w: World, event: Event)
    requires Enabled(options, w, event)
    ensures var b := w.book;
      Step(options, w, event).book.contextId == if b.contextId.Some? then b.contextId else AskedContext(event)
  {
    hide Theirs, Runtimes;
  }

  lemma TimesStep(options: Options, w: World, events: seq<Event>)
    requires events != [] && Enabled(options, w, Last(events)) && BookAgrees(options, w.book, Before(events))
    ensures var b := Step(options, w, Last(events)).book;
      b.lapsing == Timed(options, events) && b.contextId == FirstContext(events) && b.lapsedIds == Lapsed(options, events)
  {
    hide Enabled, Step, Awaited, FlagsAgree, OwnedAgree, NowTimed, NowLapsed, AskedContext;
    TimersMove(options, w, Last(events));
    ContextMoves(options, w, Last(events));
  }

  lemma OwnedStep(options: Options, w: World, events: seq<Event>)
    requires events != [] && Enabled(options, w, Last(events)) && options.attached && !Last(events).TargetCreated?
    requires OwnedAgree(w.book, Before(events))
    ensures OwnedAgree(Step(options, w, Last(events)).book, events)
  {
    hide Theirs, Runtimes, Claimed, HistoryOf, Enabled, Step, Mine;
    var was, b, event := w.book, Step(options, w, Last(events)).book, Last(events);
    CreatedMoves(options, w, event);
    forall id ensures Mine(b, id) <==> id in Ours(events) {
      assert Mine(was, id) <==> id in Ours(Before(events));
      MineMoves(options, w, event, id);
    }
  }

  lemma CreatedMoves(options: Options, w: World, event: Event)
    requires Enabled(options, w, event) && !event.TargetCreated?
    ensures Step(options, w, event).book.createdActing ==
      if event.Judged? && event.look.Known? then w.book.createdActing - {event.id} else w.book.createdActing
  {
  }

  lemma MineMoves(options: Options, w: World, event: Event, id: Id)
    requires Enabled(options, w, event) && !event.TargetCreated?
    ensures Mine(Step(options, w, event).book, id) <==> Mine(w.book, id) || (event.TabOpened? && event.id == id)
  {
  }

  lemma OwnedCreated(options: Options, w: World, events: seq<Event>)
    requires events != [] && Enabled(options, w, Last(events)) && options.attached && Last(events).TargetCreated?
    requires FlagsAgree(w.book, HistoryOf(Before(events))) && OwnedAgree(w.book, Before(events))
    ensures OwnedAgree(Step(options, w, Last(events)).book, events)
  {
    hide Theirs, Runtimes, Claimed, IsOurs, HistoryOf;
    var was, b, info := w.book, Step(options, w, Last(events)).book, Last(events).info;
    ClaimedIs(options, was, Before(events), info);
    forall id ensures Mine(b, id) <==> id in Ours(events) {
      assert Mine(was, id) <==> id in Ours(Before(events));
    }
  }

  lemma NeverTheirs(options: Options, b: Book, info: Created)
    requires !options.attached
    ensures !Theirs(options, b, info)
  {
  }

  lemma {:induction false} BooksAgree(options: Options, events: seq<Event>)
    requires IsRun(options, START, events)
    ensures BookAgrees(options, After(options, START, events).book, events)
    decreases |events|
  {
    hide Step, Enabled;
    if events == [] {
      assert After(options, START, events) == START;
    } else {
      LastStep(options, START, events);
      BooksAgree(options, Before(events));
      var w := After(options, START, Before(events));
      HistoryStep(events);
      FlagsStep(options, w, Last(events), HistoryOf(Before(events)));
      OwedStep(options, w, events);
      TimesStep(options, w, events);
      if options.attached {
        if Last(events).TargetCreated? {
          OwnedCreated(options, w, events);
        } else {
          OwnedStep(options, w, events);
        }
      }
    }
  }

  /** In a browser attached to, a window counts as the runtime's, and is adopted once it is known what it is, exactly when it was asked for or claimed. One that closed before it answered is the runtime's, and one that gave no answer when it was handed over in an action. */
  lemma OursExactly(options: Options, events: seq<Event>, id: Id, context: Id, handedActing: bool)
    requires options.attached && IsRun(options, START, events)
    ensures var b := After(options, START, events).book;
      && (Mine(b, id) <==> id in Ours(events))
      && (Adopts(b, id, Known(context), handedActing) <==> id in Ours(events))
      && Adopts(b, id, ClosedFirst, handedActing) && (Adopts(b, id, NoAnswer, handedActing) <==> handedActing)
  {
    hide IsRun, Ours;
    BooksAgree(options, events);
  }

  /** A window is waited for exactly from its creation, when it is the runtime's, until it is looked up, destroyed or given up on. */
  lemma AwaitedExactly(options: Options, events: seq<Event>, id: Id)
    requires IsRun(options, START, events)
    ensures id in After(options, START, events).book.owed <==> id in Awaited(options, events)
  {
    hide IsRun, Awaited;
    BooksAgree(options, events);
  }

  /** A popup has a timer exactly from when it was given up on until the timer runs out or it is destroyed, and is closed by it exactly where it may be. */
  lemma TimedExactly(options: Options, events: seq<Event>, id: Id)
    requires IsRun(options, START, events)
    ensures var b := After(options, START, events).book;
      (id in b.lapsing <==> id in Timed(options, events)) && (id in b.lapsedIds <==> id in Lapsed(options, events))
  {
    hide IsRun, Timed, Lapsed;
    BooksAgree(options, events);
  }

  /** And it is reported as the running action's exactly when that action created it. */
  lemma DuringExactly(options: Options, events: seq<Event>, id: Id)
    requires options.attached && IsRun(options, START, events)
    ensures var b, h := After(options, START, events).book, HistoryOf(events);
      (b.acting && id in b.createdActing && b.createdActing[id] == b.actions)
      <==> h.running.Some? && id in CreatedIn(events) && CreatedIn(events)[id] == h.begun
  {
    hide IsRun, CreatedIn, HistoryOf;
    BooksAgree(options, events);
  }

  /** What is the runtime's stays so, however the run goes on. */
  lemma {:induction false} OursGrows(events: seq<Event>, more: seq<Event>)
    ensures Ours(events) <= Ours(events + more)
    decreases |more|
  {
    hide Claimed;
    if more == [] {
      assert events + more == events;
    } else {
      assert Before(events + more) == events + Before(more);
      OursGrows(events, Before(more));
    }
  }
}
