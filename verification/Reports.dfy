/** The runtime's own queue of actions: fields its methods update, each exactly as one step of `Turns` says. */
module Reports {
  import opened Units
  import opened Turns

  class Executor {
    /** Every promise made, the first one `Promise.resolve()`. */
    var promises: seq<Promise>
    /** The tail of the queue, as a place among `promises`. */
    var queue: nat
    var acting: bool
    var dialogs: seq<Entry>
    var popups: seq<Entry>

    ghost var past: Past

    ghost function Now(): World
      reads this
    {
      World(promises, Book(queue, acting, dialogs, popups), past)
    }

    constructor ()
      ensures Now() == START
    {
      promises, queue := [RESOLVED], 0;
      acting, dialogs, popups := false, [], [];
      past := START.past;
    }

    /** Records that `event` happened. */
    ghost method Happened(event: Event, was: World)
      requires Enabled(was, event)
      modifies this`past
      ensures past == Step(was, event).past
    {
      past := Step(was, event).past;
    }

    /** `promise.then(run)` or `promise.catch(forget)`. */
    method Chain(on: nat, handler: Handler) returns (p: nat)
      requires on < |promises|
      modifies this`promises
      ensures p == |old(promises)| && promises == old(promises) + [Promise(on, handler, Pending)]
    {
      p := |promises|;
      promises := promises + [Promise(on, handler, Pending)];
    }

    /** The action gets its turn after the one before it, and the next one is put on a promise that forgets how this one ends. */
    method Execute() returns (turn: nat)
      requires Enabled(Now(), Call)
      modifies this
      ensures Now() == Step(old(Now()), Call) && past.called == old(past).called + [turn]
    {
      ghost var was := Now();
      turn := Chain(queue, Run);
      queue := Chain(turn, Swallow);
      Happened(Call, was);
    }

    method Become(p: nat, state: State)
      requires p < |promises|
      modifies this`promises
      ensures promises == Becomes(old(promises), p, state)
    {
      promises := promises[p := promises[p].(state := state)];
    }

    /** What an engine does with a promise whose own promise has settled. */
    method React(p: nat)
      requires p < |promises| && promises[p].state == Pending
      requires promises[p].on < |promises| && Settled(promises[promises[p].on].state)
      modifies this
      ensures var was := old(Now());
        var fulfilled := was.promises[was.promises[p].on].state == Fulfilled;
        Now() == Step(was,
          if was.promises[p].handler.Run? then if fulfilled then Begin(p) else Refuse(p)
          else if fulfilled then Pass(p) else Forget(p))
    {
      ghost var was := Now();
      var fulfilled := promises[promises[p].on].state == Fulfilled;
      if promises[p].handler.Run? {
        Become(p, if fulfilled then Running(false) else Rejected);
        Happened(if fulfilled then Begin(p) else Refuse(p), was);
      } else {
        Become(p, Fulfilled);
        Happened(if fulfilled then Pass(p) else Forget(p), was);
      }
    }

    // ----- A turn -----

    /** From here what a page does is the action's. */
    method StartActing(p: nat)
      requires Enabled(Now(), Act(p))
      modifies this
      ensures Now() == Step(old(Now()), Act(p))
    {
      ghost var was := Now();
      acting := true;
      Become(p, Running(true));
      Happened(Act(p), was);
    }

    /** The action went through: it reports everything recorded that no action has reported. */
    method Return(p: nat) returns (report: Report)
      requires Enabled(Now(), Succeed(p))
      modifies this
      ensures Now() == Step(old(Now()), Succeed(p))
      ensures report == Report(p, old(dialogs), old(popups)) && past.reports == old(past).reports + [report]
    {
      ghost var was := Now();
      report := Report(p, dialogs, popups);
      dialogs, popups, acting := [], [], false;
      Become(p, Fulfilled);
      Happened(Succeed(p), was);
    }

    /** The action threw, before it acted or after: what was recorded waits for the next one. */
    method Throw(p: nat)
      requires Enabled(Now(), Fail(p))
      modifies this
      ensures Now() == Step(old(Now()), Fail(p)) && dialogs == old(dialogs) && popups == old(popups)
    {
      ghost var was := Now();
      if promises[p].state.acting {
        acting := false;
      }
      Become(p, Rejected);
      Happened(Fail(p), was);
    }

    // ----- What the pages do -----

    method RecordDialog(what: Text)
      modifies this
      ensures Now() == Step(old(Now()), Dialog(what))
    {
      ghost var was := Now();
      if |dialogs| < MAX_DIALOGS {
        dialogs := dialogs + [Entry(what, !acting)];
      }
      Happened(Dialog(what), was);
    }

    /** `during`: it came of the running action, as the one that adopts it judges. */
    method RecordPopup(what: Text, during: bool)
      modifies this
      ensures Now() == Step(old(Now()), Popup(what, during))
    {
      ghost var was := Now();
      if |popups| < MAX_POPUPS {
        popups := popups + [Entry(what, !during)];
      }
      Happened(Popup(what, during), was);
    }
  }
}
