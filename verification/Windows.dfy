/** Whose each browser window is, which action waits for it, and what becomes of one a page opened: one step at a time. */
module Windows {
  import opened Units

  type Id = nat

  /** A window a wait is owed: its browser context, and whether a page opened it. */
  datatype Window = Window(context: Id, popup: bool)

  /** What Chromium says of a page target it creates; `blank`: at `about:blank` or one of Chromium's own pages. */
  datatype Created = Created(id: Id, opener: Option<Id>, context: Id, blank: bool)

  /** How looking up a page handed over ended; an answer names the page's context. */
  datatype Look = Known(context: Id) | ClosedFirst | NoAnswer

  /** `attached`: the browser is someone else's. `blocks`: a window a page opens is closed. */
  datatype Options = Options(attached: bool, blocks: bool)

  /** What the runtime keeps for one browser context. `lapsing`: popups given up on, with a timer; `lapsedIds`: closed by theirs. */
  datatype Book = Book(
    owed: map<Id, Window>,
    lapsing: map<Id, Window>,
    lapsedIds: set<Id>,
    ownTargets: set<Id>,
    createdActing: map<Id, nat>,
    pageTargets: set<Id>,
    drivenTarget: Option<Id>,
    actingTarget: Option<Id>,
    acting: bool,
    driving: bool,
    actions: nat,
    contextId: Option<Id>)

  /**
   * What has happened: the windows announced, those judged the operator's then and those created during an action; the
   * tabs asked for, the windows driven, destroyed, asked to close, kept as the active page or the tab asked for, and
   * handed over without an answer; the action that waited for each, and whether one is waiting.
   */
  datatype Past = Past(
    seen: map<Id, Created>,
    theirs: set<Id>,
    during: set<Id>,
    asked: set<Id>,
    driven: set<Id>,
    gone: set<Id>,
    closed: set<Id>,
    kept: set<Id>,
    unknown: set<Id>,
    held: map<Id, nat>,
    waiting: bool)

  datatype World = World(book: Book, past: Past)

  datatype Event =
    | Announced(id: Id)
    | TargetCreated(info: Created)
    | TargetDestroyed(id: Id)
    | LookedUp(id: Id, context: Id)
    | Kept(id: Id)
    | Adopted(id: Id)
    | Judged(id: Id, look: Look, handedActing: bool)
    | TabOpened(id: Id, context: Id)
    | ActionBegins(driving: bool)
    | ActingOn(id: Id, context: Id)
    | Drives(id: Id, context: Id)
    | Activated
    | WaitBegins
    | GivesUp
    | TimerFires(id: Id)
    | ActionEnds

  const START := World(
    Book(map[], map[], {}, {}, map[], {}, None, None, false, false, 0, None),
    Past(map[], {}, {}, {}, {}, {}, {}, {}, {}, map[], false))

  // ----- Steps -----

  predicate Mine(b: Book, id: Id) {
    id in b.ownTargets || id in b.createdActing
  }

  predicate Runtimes(b: Book, target: Id) {
    Mine(b, target) || b.drivenTarget == Some(target) || b.actingTarget == Some(target)
  }

  /** A window is the operator's: nobody's or another's page's, unless an action runs, which claims all that is not plainly so. */
  predicate Theirs(options: Options, b: Book, info: Created) {
    options.attached &&
    if b.acting then
      if info.opener.None? then info.blank
      else !(b.driving && b.actingTarget.None?) && info.opener.value in b.pageTargets && !Runtimes(b, info.opener.value)
    else info.opener.None? || !Runtimes(b, info.opener.value)
  }

  function BookCreated(options: Options, b: Book, info: Created): Book {
    var known := b.(pageTargets := b.pageTargets + {info.id});
    if Theirs(options, b, info) then known
    else
      known.(
        owed := b.owed[info.id := Window(info.context, info.opener.Some?)],
        createdActing := if b.acting then b.createdActing[info.id := b.actions] else b.createdActing,
        ownTargets :=
          if !b.acting && info.opener.Some? && Runtimes(b, info.opener.value) then b.ownTargets + {info.id} else b.ownTargets)
  }

  function BookDestroyed(b: Book, id: Id): Book {
    b.(drivenTarget := if b.drivenTarget == Some(id) then None else b.drivenTarget,
       pageTargets := b.pageTargets - {id}, owed := b.owed - {id}, lapsing := b.lapsing - {id},
       lapsedIds := b.lapsedIds - {id})
  }

  /** `targetOf`: a page looked up is owed by no wait. */
  function BookLookedUp(b: Book, id: Id, context: Id): Book {
    b.(owed := b.owed - {id}, contextId := if b.contextId.None? then Some(context) else b.contextId)
  }

  /** Whether a page handed over in a browser attached to is treated as the runtime's. */
  predicate Adopts(b: Book, id: Id, look: Look, handedActing: bool) {
    match look
    case Known(_) => Mine(b, id)
    case ClosedFirst => true
    case NoAnswer => handedActing
  }

  function BookJudged(b: Book, id: Id, look: Look): Book {
    if !look.Known? then b
    else
      var known := BookLookedUp(b, id, look.context);
      if id in b.createdActing then known.(createdActing := b.createdActing - {id}, ownTargets := b.ownTargets + {id})
      else known
  }

  function BookGivesUp(options: Options, b: Book): Book {
    b.(owed := map[],
       lapsing := if options.blocks then b.lapsing + (map id | id in b.owed && b.owed[id].popup :: b.owed[id]) else b.lapsing)
  }

  /** Whether a timer that runs out closes its window: in a browser attached to, only one of this context. */
  predicate Closes(options: Options, b: Book, id: Id)
    requires id in b.lapsing
  {
    !options.attached || b.contextId == Some(b.lapsing[id].context)
  }

  function BookFires(options: Options, b: Book, id: Id): Book
    requires id in b.lapsing
  {
    b.(lapsing := b.lapsing - {id}, lapsedIds := if Closes(options, b, id) then b.lapsedIds + {id} else b.lapsedIds)
  }

  /**
   * A page kept though popups are blocked: the active page or the tab asked for, which no page opened, or one that has
   * closed already.
   */
  predicate IsTab(w: World, id: Id) {
    id in w.past.gone || (id in w.past.seen && w.past.seen[id].opener.None?)
  }

  /** What can happen next. Chromium reuses no id, and a page is looked up in a launched browser that blocks popups only when it is kept. */
  predicate Enabled(options: Options, w: World, event: Event) {
    match event
    case Announced(id) => id !in w.past.seen
    case TargetCreated(info) => info.id !in w.past.seen && info.id !in w.past.asked && info.opener != Some(info.id)
    case TargetDestroyed(id) => true
    case LookedUp(id, _) => options.attached || !options.blocks || id in w.past.kept
    case Kept(id) => !options.attached && IsTab(w, id)
    case Adopted(_) => !options.attached
    case Judged(_, _, _) => options.attached
    case TabOpened(_, _) => options.attached
    case ActionBegins(_) => !w.book.acting
    case ActingOn(_, _) => options.attached && w.book.acting && w.book.driving
    case Drives(_, _) => options.attached
    case Activated => true
    case WaitBegins => w.book.acting && !w.past.waiting
    case GivesUp => w.book.acting
    case TimerFires(id) => id in w.book.lapsing
    case ActionEnds => w.book.acting && !w.past.waiting
  }

  function Step(options: Options, w: World, event: Event): World
    requires Enabled(options, w, event)
  {
    var b, p := w.book, w.past;
    match event
    case Announced(id) => World(b.(pageTargets := b.pageTargets + {id}), p)
    case TargetCreated(info) =>
      World(BookCreated(options, b, info), p.(
        seen := p.seen[info.id := info],
        theirs := if Theirs(options, b, info) then p.theirs + {info.id} else p.theirs,
        during := if b.acting && !Theirs(options, b, info) then p.during + {info.id} else p.during,
        held := if p.waiting && !Theirs(options, b, info) then p.held[info.id := b.actions] else p.held))
    case TargetDestroyed(id) =>
      World(BookDestroyed(b, id), p.(gone := if id in p.seen then p.gone + {id} else p.gone))
    case LookedUp(id, context) => World(BookLookedUp(b, id, context), p)
    case Kept(id) => World(b, p.(kept := p.kept + {id}))
    case Adopted(id) => World(b, p.(closed := if options.blocks then p.closed + {id} else p.closed))
    case Judged(id, look, handedActing) =>
      World(BookJudged(b, id, look), p.(
        closed := if options.blocks && Adopts(b, id, look, handedActing) then p.closed + {id} else p.closed,
        unknown := if look.Known? then p.unknown else p.unknown + {id}))
    case TabOpened(id, context) =>
      World(BookLookedUp(b, id, context).(ownTargets := b.ownTargets + {id}), p.(asked := p.asked + {id}))
    case ActionBegins(driving) =>
      World(b.(acting := true, driving := driving, actions := b.actions + 1, actingTarget := None), p)
    case ActingOn(id, context) =>
      World(BookLookedUp(b, id, context).(actingTarget := Some(id)), p.(driven := p.driven + {id}))
    case Drives(id, context) =>
      World(BookLookedUp(b, id, context).(drivenTarget := Some(id)), p.(driven := p.driven + {id}))
    case Activated => World(b.(drivenTarget := None), p)
    case WaitBegins =>
      World(b, p.(waiting := true, held := p.held + (map id | id in b.owed :: b.actions)))
    case GivesUp => World(BookGivesUp(options, b), p.(waiting := false))
    case TimerFires(id) =>
      World(BookFires(options, b, id), p.(closed := if Closes(options, b, id) then p.closed + {id} else p.closed))
    case ActionEnds => World(b.(acting := false, driving := false, actingTarget := None), p)
  }

  // ----- What holds of every window -----

  /** A tab the runtime asked for, a window of one of its actions, or opened by a window it owns or drove. */
  predicate Rooted(w: World, id: Id) {
    id in w.past.asked || id in w.past.during
    || (id in w.past.seen && w.past.seen[id].opener.Some?
        && (Mine(w.book, w.past.seen[id].opener.value) || w.past.seen[id].opener.value in w.past.driven))
  }

  /**
   * In a browser attached to: what counts as the runtime's was not judged the operator's, unless the runtime itself
   * asked for it, and came of the runtime's doing; and only such a window is waited for, given time or closed, one
   * aside whose lookup never answered.
   */
  predicate LeftAlone(w: World, id: Id) {
    && (Mine(w.book, id) ==>
          (id in w.past.seen || id in w.past.asked) && (id in w.past.theirs ==> id in w.past.asked) && Rooted(w, id))
    && (id in w.book.owed || id in w.book.lapsing || id in w.book.lapsedIds ==> Mine(w.book, id))
    && (id in w.past.closed ==> Mine(w.book, id) || id in w.past.unknown)
  }

  /** In a browser launched, a popup to be blocked is waited for, given time, or being closed, for as long as it lives. */
  predicate NotForgotten(w: World, id: Id) {
    id in w.past.seen && w.past.seen[id].opener.Some? && id !in w.past.gone ==>
      id in w.book.owed || id in w.book.lapsing || id in w.past.closed
  }

  /** A window waits in one place at a time, and only for the action that is waiting. */
  predicate OneWait(w: World, id: Id) {
    && (id in w.book.owed || id in w.book.lapsing || id in w.book.lapsedIds ==> id in w.past.seen && id !in w.past.gone)
    && (id in w.book.owed ==>
          && id !in w.book.lapsing
          && (w.book.owed[id].popup <==> w.past.seen[id].opener.Some?)
          && (id in w.past.held <==> w.past.waiting)
          && (id in w.past.held ==> w.past.held[id] == w.book.actions))
    && (id in w.book.lapsedIds ==> id in w.past.closed)
    && (id in w.past.gone || id in w.past.theirs || id in w.past.during || id in w.past.held ==> id in w.past.seen)
  }

  predicate Fine(options: Options, w: World, id: Id) {
    && (options.attached ==> LeftAlone(w, id))
    && (!options.attached ==> id !in w.past.theirs)
    && (!options.attached && options.blocks ==> NotForgotten(w, id))
    && (id in w.past.kept ==> IsTab(w, id))
    && OneWait(w, id)
  }

  ghost predicate Valid(options: Options, w: World) {
    && (forall id :: Fine(options, w, id))
    && (w.book.drivenTarget.Some? ==> w.book.drivenTarget.value in w.past.driven)
    && (w.book.actingTarget.Some? ==> w.book.actingTarget.value in w.past.driven)
    && (w.past.waiting ==> w.book.acting)
  }

  /** What counts as the runtime's goes on doing so, and a window once waited for is never waited for by another action. */
  ghost predicate Grows(w: World, next: World) {
    forall id ::
      && (Mine(w.book, id) ==> Mine(next.book, id))
      && (id in w.past.theirs ==> id in next.past.theirs)
      && (id in w.past.seen ==> id in next.past.seen && next.past.seen[id] == w.past.seen[id])
      && (id in w.past.held ==> id in next.past.held && next.past.held[id] == w.past.held[id])
  }

  /** The events that ask a page what it is. */
  predicate LooksUp(event: Event) {
    event.LookedUp? || event.Judged? || event.TabOpened? || event.ActingOn? || event.Drives?
  }

  lemma StepRooted(options: Options, w: World, event: Event, id: Id)
    requires Valid(options, w) && Enabled(options, w, event) && options.attached
    ensures Mine(Step(options, w, event).book, id) ==> Rooted(Step(options, w, event), id)
  {
    assert Fine(options, w, id);
  }

  lemma LookedUpLeftAlone(options: Options, w: World, event: Event, id: Id)
    requires Valid(options, w) && Enabled(options, w, event) && options.attached && LooksUp(event)
    ensures LeftAlone(Step(options, w, event), id)
  {
    hide Rooted, NotForgotten;
    StepRooted(options, w, event, id);
    assert Fine(options, w, id);
  }

  lemma StepLeftAlone(options: Options, w: World, event: Event, id: Id)
    requires Valid(options, w) && Enabled(options, w, event) && options.attached
    ensures LeftAlone(Step(options, w, event), id)
  {
    hide Rooted, NotForgotten, BookLookedUp, BookJudged, Adopts;
    if LooksUp(event) {
      LookedUpLeftAlone(options, w, event, id);
    } else {
      StepRooted(options, w, event, id);
      assert Fine(options, w, id);
    }
  }

  lemma StepNotForgotten(options: Options, w: World, event: Event, id: Id)
    requires Valid(options, w) && Enabled(options, w, event) && !options.attached
    ensures id !in Step(options, w, event).past.theirs
    ensures options.blocks ==> NotForgotten(Step(options, w, event), id)
  {
    hide LeftAlone;
    assert Fine(options, w, id);
  }

  lemma StepKept(options: Options, w: World, event: Event, id: Id)
    requires Valid(options, w) && Enabled(options, w, event)
    ensures id in Step(options, w, event).past.kept ==> IsTab(Step(options, w, event), id)
  {
    assert Fine(options, w, id);
  }

  lemma LookedUpOneWait(options: Options, w: World, event: Event, id: Id)
    requires Valid(options, w) && Enabled(options, w, event) && LooksUp(event)
    ensures OneWait(Step(options, w, event), id)
  {
    hide LeftAlone, NotForgotten, Adopts;
    assert Fine(options, w, id);
  }

  /** The two events that move every window owed at once. */
  predicate AllAtOnce(event: Event) {
    event.WaitBegins? || event.GivesUp?
  }

  lemma AllOneWait(options: Options, w: World, event: Event, id: Id)
    requires Valid(options, w) && Enabled(options, w, event) && AllAtOnce(event)
    ensures OneWait(Step(options, w, event), id)
  {
    hide LeftAlone, NotForgotten;
    assert Fine(options, w, id);
  }

  /** Chromium's events, and a timer's. */
  predicate MovesOne(event: Event) {
    event.TargetCreated? || event.TargetDestroyed? || event.TimerFires?
  }

  lemma MovedOneWait(options: Options, w: World, event: Event, id: Id)
    requires Valid(options, w) && Enabled(options, w, event) && MovesOne(event)
    ensures OneWait(Step(options, w, event), id)
  {
    hide LeftAlone, NotForgotten, Theirs, Closes, Rooted;
    assert Fine(options, w, id);
  }

  lemma StepOneWait(options: Options, w: World, event: Event, id: Id)
    requires Valid(options, w) && Enabled(options, w, event)
    ensures OneWait(Step(options, w, event), id)
  {
    hide LeftAlone, NotForgotten, BookCreated, BookDestroyed, BookFires, BookGivesUp, BookLookedUp, BookJudged, Theirs, Closes, Adopts;
    if AllAtOnce(event) {
      AllOneWait(options, w, event, id);
    } else if LooksUp(event) {
      LookedUpOneWait(options, w, event, id);
    } else if MovesOne(event) {
      MovedOneWait(options, w, event, id);
    } else {
      assert Fine(options, w, id);
    }
  }

  /** Every event keeps all of it. */
  lemma StepKeeps(options: Options, w: World, event: Event)
    requires Valid(options, w) && Enabled(options, w, event)
    ensures Valid(options, Step(options, w, event)) && Grows(w, Step(options, w, event))
  {
    hide LeftAlone, NotForgotten, OneWait;
    forall id ensures Fine(options, Step(options, w, event), id) {
      if options.attached {
        StepLeftAlone(options, w, event, id);
      } else {
        StepNotForgotten(options, w, event, id);
      }
      StepKept(options, w, event, id);
      StepOneWait(options, w, event, id);
    }
    StepGrows(options, w, event);
  }

  lemma StepGrows(options: Options, w: World, event: Event)
    requires Valid(options, w) && Enabled(options, w, event)
    ensures Grows(w, Step(options, w, event))
  {
    forall id ensures
      && (Mine(w.book, id) ==> Mine(Step(options, w, event).book, id))
      && (id in w.past.held ==> id in Step(options, w, event).past.held && Step(options, w, event).past.held[id] == w.past.held[id])
    {
      assert Fine(options, w, id);
    }
  }

  // ----- Runs -----

  /** A run: events in any order that can happen, from the moment the context is ready. */
  predicate IsRun(options: Options, w: World, events: seq<Event>)
    decreases |events|
  {
    events == [] || (Enabled(options, w, events[0]) && IsRun(options, Step(options, w, events[0]), events[1..]))
  }

  function After(options: Options, w: World, events: seq<Event>): World
    requires IsRun(options, w, events)
    decreases |events|
  {
    if events == [] then w else After(options, Step(options, w, events[0]), events[1..])
  }

  lemma {:induction false} RunKeeps(options: Options, w: World, events: seq<Event>)
    requires Valid(options, w) && IsRun(options, w, events)
    ensures Valid(options, After(options, w, events)) && Grows(w, After(options, w, events))
    decreases |events|
  {
    hide Step, Fine, Enabled;
    if events != [] {
      StepKeeps(options, w, events[0]);
      RunKeeps(options, Step(options, w, events[0]), events[1..]);
    }
  }

  lemma StartIsValid(options: Options)
    ensures Valid(options, START)
  {
  }

  /** After any run in a browser attached to, the operator's windows are neither counted as the runtime's nor closed, but for those that never said what they are. */
  lemma OperatorsWindows(options: Options, events: seq<Event>, id: Id)
    requires options.attached && IsRun(options, START, events)
    ensures var w := After(options, START, events);
      id in w.past.theirs && id !in w.past.asked ==>
        !Mine(w.book, id) && id !in w.book.owed && id !in w.book.lapsing && (id in w.past.closed ==> id in w.past.unknown)
  {
    hide Step, Enabled, After, IsRun;
    StartIsValid(options);
    RunKeeps(options, START, events);
    assert Fine(options, After(options, START, events), id);
  }

  /** A window that could be looked up and is adopted came of the runtime's doing, and was not judged the operator's. */
  lemma AdoptsItsOwn(options: Options, events: seq<Event>, id: Id, context: Id, handedActing: bool)
    requires options.attached && IsRun(options, START, events)
    ensures var w := After(options, START, events);
      Adopts(w.book, id, Known(context), handedActing) ==> Rooted(w, id) && (id in w.past.theirs ==> id in w.past.asked)
  {
    hide Step, Enabled, After, IsRun;
    StartIsValid(options);
    RunKeeps(options, START, events);
    assert Fine(options, After(options, START, events), id);
  }

  /** After any run in a browser launched, a popup to be blocked that still lives is waited for, timed, or being closed. */
  lemma NoPopupForgotten(options: Options, events: seq<Event>, id: Id)
    requires !options.attached && options.blocks && IsRun(options, START, events)
    ensures NotForgotten(After(options, START, events), id)
  {
    hide Step, Enabled, After, IsRun, NotForgotten;
    StartIsValid(options);
    RunKeeps(options, START, events);
    assert Fine(options, After(options, START, events), id);
  }

  /** However a run goes on, the action a window was waited for stays the only one. */
  lemma WaitedForOnce(options: Options, before: seq<Event>, after: seq<Event>, id: Id)
    requires IsRun(options, START, before) && IsRun(options, After(options, START, before), after)
    ensures var w, next := After(options, START, before), After(options, After(options, START, before), after);
      id in w.past.held ==> id in next.past.held && next.past.held[id] == w.past.held[id]
  {
    hide Step, Enabled, After, IsRun, Fine;
    StartIsValid(options);
    RunKeeps(options, START, before);
    RunKeeps(options, After(options, START, before), after);
  }

  /** Giving up leaves nothing owed, and every popup it gave up on that is to be blocked with a timer. */
  lemma GivingUpTimes(options: Options, w: World, id: Id)
    requires Valid(options, w) && w.book.acting && id in w.book.owed && id in w.past.seen
    ensures var next := Step(options, w, GivesUp);
      next.book.owed == map[] && (id in next.book.lapsing <==> options.blocks && w.past.seen[id].opener.Some?)
  {
    assert Fine(options, w, id);
  }
}
