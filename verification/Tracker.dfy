/** The runtime's own bookkeeping of windows: fields its event handlers update, each exactly as one step of `Windows` says. */
module Tracker {
  import opened Units
  import opened Windows

  class BrowserRuntime {
    const options: Options

    var owed: map<Id, Window>
    var lapsing: map<Id, Window>
    var lapsedIds: set<Id>
    var ownTargets: set<Id>
    var createdActing: map<Id, nat>
    var pageTargets: set<Id>
    var drivenTarget: Option<Id>
    var actingTarget: Option<Id>
    var acting: bool
    var driving: bool
    var actions: nat
    var contextId: Option<Id>

    ghost var past: Past

    ghost function Now(): World
      reads this
    {
      World(
        Book(owed, lapsing, lapsedIds, ownTargets, createdActing, pageTargets, drivenTarget, actingTarget, acting, driving,
             actions, contextId),
        past)
    }

    constructor (options: Options)
      ensures this.options == options && Now() == START
    {
      this.options := options;
      owed, lapsing, lapsedIds := map[], map[], {};
      ownTargets, createdActing, pageTargets := {}, map[], {};
      drivenTarget, actingTarget, contextId := None, None, None;
      acting, driving, actions := false, false, 0;
      past := START.past;
    }

    /** Records that `event` happened. */
    ghost method Happened(event: Event, was: World)
      requires Enabled(options, was, event)
      modifies this`past
      ensures past == Step(options, was, event).past
    {
      past := Step(options, was, event).past;
    }

    // ----- Chromium's events -----

    method TargetAnnounced(id: Id)
      requires Enabled(options, Now(), Announced(id))
      modifies this
      ensures Now() == Step(options, old(Now()), Announced(id))
    {
      pageTargets := pageTargets + {id};
    }

    method TargetCreated(info: Created)
      requires Enabled(options, Now(), Event.TargetCreated(info))
      modifies this
      ensures Now() == Step(options, old(Now()), Event.TargetCreated(info))
    {
      ghost var was := Now();
      pageTargets := pageTargets + {info.id};
      var theirs := false;
      if options.attached {
        if acting {
          if info.opener.None? {
            theirs := info.blank;
          } else {
            var pageUnknown := driving && actingTarget.None?;
            theirs := !pageUnknown && info.opener.value in pageTargets && !Owns(info.opener.value);
          }
        } else {
          theirs := info.opener.None? || !Owns(info.opener.value);
        }
      }
      if !theirs {
        if acting {
          createdActing := createdActing[info.id := actions];
        } else if info.opener.Some? && Owns(info.opener.value) {
          ownTargets := ownTargets + {info.id};
        }
        owed := owed[info.id := Window(info.context, info.opener.Some?)];
      }
      Happened(Event.TargetCreated(info), was);
    }

    /** A window an action's popup opens is the runtime's like the popup. */
    predicate Owns(target: Id)
      reads this
    {
      target in ownTargets || drivenTarget == Some(target) || actingTarget == Some(target) || target in createdActing
    }

    method TargetDestroyed(id: Id)
      modifies this
      ensures Now() == Step(options, old(Now()), Event.TargetDestroyed(id))
    {
      ghost var was := Now();
      if drivenTarget == Some(id) {
        drivenTarget := None;
      }
      pageTargets := pageTargets - {id};
      owed := owed - {id};
      lapsing := lapsing - {id};
      lapsedIds := lapsedIds - {id};
      Happened(Event.TargetDestroyed(id), was);
    }

    // ----- Pages handed over -----

    /** `targetOf`, once the page has answered. */
    method LookUp(id: Id, context: Id)
      modifies this`owed, this`contextId
      ensures Now() == World(BookLookedUp(old(Now()).book, id, context), old(past))
    {
      owed := owed - {id};
      if contextId.None? {
        contextId := Some(context);
      }
    }

    method Release(id: Id, context: Id)
      requires Enabled(options, Now(), LookedUp(id, context))
      modifies this
      ensures Now() == Step(options, old(Now()), LookedUp(id, context))
    {
      LookUp(id, context);
    }

    /** Whether to treat a page handed over as this runtime's, and whether it came of the action now running. */
    method Adoptable(id: Id, look: Look, handedActing: bool) returns (adopt: bool, during: bool)
      requires Enabled(options, Now(), Judged(id, look, handedActing))
      modifies this
      ensures Now() == Step(options, old(Now()), Judged(id, look, handedActing))
      ensures adopt <==> Adopts(old(Now()).book, id, look, handedActing)
      ensures during <==>
        if look.Known? then old(acting) && id in old(createdActing) && old(createdActing)[id] == actions else handedActing
    {
      ghost var was := Now();
      match look {
        case Known(context) =>
          LookUp(id, context);
          if id !in createdActing {
            adopt, during := id in ownTargets, false;
          } else {
            during := acting && createdActing[id] == actions;
            adopt := true;
            createdActing := createdActing - {id};
            ownTargets := ownTargets + {id};
          }
        case ClosedFirst =>
          adopt, during := true, handedActing;
        case NoAnswer =>
          adopt, during := handedActing, handedActing;
      }
      Happened(Judged(id, look, handedActing), was);
    }

    /** In a launched browser, the active page or the tab asked for: no popup to block. */
    method Keep(id: Id)
      requires Enabled(options, Now(), Kept(id))
      modifies this
      ensures Now() == Step(options, old(Now()), Kept(id))
    {
      Happened(Kept(id), Now());
    }

    /** In a launched browser, a window a page opened: closed, when popups are blocked. */
    method Adopt(id: Id)
      requires Enabled(options, Now(), Adopted(id))
      modifies this
      ensures Now() == Step(options, old(Now()), Adopted(id))
    {
      Happened(Adopted(id), Now());
    }

    /** The tab `openPage` asked for, in a browser attached to. */
    method OpenPage(id: Id, context: Id)
      requires Enabled(options, Now(), TabOpened(id, context))
      modifies this
      ensures Now() == Step(options, old(Now()), TabOpened(id, context))
    {
      ghost var was := Now();
      LookUp(id, context);
      ownTargets := ownTargets + {id};
      Happened(TabOpened(id, context), was);
    }

    // ----- Actions -----

    method BeginAction(drives: bool)
      requires Enabled(options, Now(), ActionBegins(drives))
      modifies this
      ensures Now() == Step(options, old(Now()), ActionBegins(drives))
    {
      actingTarget := None;
      driving := drives;
      actions := actions + 1;
      acting := true;
    }

    method ActOn(id: Id, context: Id)
      requires Enabled(options, Now(), ActingOn(id, context))
      modifies this
      ensures Now() == Step(options, old(Now()), ActingOn(id, context))
    {
      ghost var was := Now();
      LookUp(id, context);
      actingTarget := Some(id);
      Happened(ActingOn(id, context), was);
    }

    method Drive(id: Id, context: Id)
      requires Enabled(options, Now(), Drives(id, context))
      modifies this
      ensures Now() == Step(options, old(Now()), Drives(id, context))
    {
      ghost var was := Now();
      LookUp(id, context);
      drivenTarget := Some(id);
      Happened(Drives(id, context), was);
    }

    method Activate()
      modifies this
      ensures Now() == Step(options, old(Now()), Activated)
    {
      drivenTarget := None;
    }

    method BeginWait()
      requires Enabled(options, Now(), WaitBegins)
      modifies this
      ensures Now() == Step(options, old(Now()), WaitBegins)
    {
      Happened(WaitBegins, Now());
    }

    /** A timer for each popup still owed. */
    method TimePopups()
      requires options.blocks
      modifies this`lapsing
      ensures lapsing == old(lapsing) + Popups(owed, owed.Keys)
    {
      var left := owed.Keys;
      while left != {}
        invariant left <= owed.Keys
        invariant lapsing == old(lapsing) + Popups(owed, owed.Keys - left)
        decreases left
      {
        var id :| id in left;
        if owed[id].popup {
          lapsing := lapsing[id := owed[id]];
        }
        left := left - {id};
      }
    }

    method GiveUpOwed()
      requires Enabled(options, Now(), GivesUp)
      modifies this
      ensures Now() == Step(options, old(Now()), GivesUp)
    {
      ghost var was := Now();
      if options.blocks {
        TimePopups();
      }
      owed := map[];
      Happened(GivesUp, was);
    }

    method FireTimer(id: Id)
      requires Enabled(options, Now(), TimerFires(id))
      modifies this
      ensures Now() == Step(options, old(Now()), TimerFires(id))
    {
      ghost var was := Now();
      var context := lapsing[id].context;
      lapsing := lapsing - {id};
      if !options.attached || contextId == Some(context) {
        lapsedIds := lapsedIds + {id};
      }
      Happened(TimerFires(id), was);
    }

    method EndAction()
      requires Enabled(options, Now(), ActionEnds)
      modifies this
      ensures Now() == Step(options, old(Now()), ActionEnds)
    {
      acting := false;
      actingTarget := None;
      driving := false;
    }
  }

  /** The popups of `owed` among `ids`. */
  ghost function Popups(owed: map<Id, Window>, ids: set<Id>): map<Id, Window> {
    map id | id in owed && id in ids && owed[id].popup :: owed[id]
  }
}
