/** Input actions on a page that may answer, refuse, run out of time or navigate away at any call. */
module Inputs {

  /** What a thrown error says: Playwright logged the input as performed, a wait ran out, the element left its document. */
  datatype Error = Error(performing: bool, timedOut: bool, detached: bool)

  datatype Result = Done | Threw(error: Error)

  /** `Quiet` is a select, a press or an upload, which throw only before they take effect. */
  datatype Act = Click | Quiet | Typing(clearFirst: bool, keys: nat)

  /** What reached the page: `Chosen` is what a select, a press or an upload does. */
  datatype Input = Clicked | Chosen | Cleared | Focused | Pressed

  /** What an act is made of. */
  function InputsOf(act: Act): seq<Input> {
    match act
    case Click => [Clicked]
    case Quiet => [Chosen]
    case Typing(clearFirst, keys) => (if clearFirst then [Cleared] else []) + [Focused] + seq(keys, _ => Pressed)
  }

  datatype Answer = Stayed | Left | Failed(error: Error)

  datatype Outcome = Success | OutcomeUnknown | PlainFailure

  /** Not an element that left its document, which is looked for again. */
  predicate Hinders(r: Result) {
    r.Threw? && (r.error.timedOut || !r.error.detached)
  }

  const PAGE_CHANGED := Error(false, false, false)
  const RAN_OUT := Error(false, true, false)

  /** One action's run against its page. */
  class Session {
    /** The action's effect may have reached the page. */
    var dispatched: bool
    /** Milliseconds to the action's deadline. Every pass takes some. */
    var left: nat
    /** Some input did reach it. */
    ghost var sent: bool
    /** Input reached the page, or an element was given the focus for some. */
    ghost var tried: bool
    /** Something else went wrong than an element drawn anew: a call failed or told of another page, or the action was cancelled. */
    ghost var troubled: bool
    /** The page was seen to be at another document, or another address, than the one judged. */
    ghost var departed: bool
    /** The document the action was checked on is still there, as far as this pass has asked. */
    ghost var held: bool
    /** What reached the page without an error, in order. */
    ghost var log: seq<Input>
    /** What has been carried out, in order. */
    ghost var done: seq<Act>

    constructor (timeout: nat)
      ensures !dispatched && !sent && !tried && !troubled && !departed && !held && log == [] && done == [] && left == timeout
    {
      dispatched, left := false, timeout;
      sent, tried, troubled, departed, held, log, done := false, false, false, false, false, [], [];
    }

    /** Input that went out is on record, and nothing is that was not tried. */
    ghost predicate Accounted()
      reads this
    {
      (sent ==> dispatched) && (dispatched ==> tried)
    }

    /** Something went wrong, or the time is up. */
    ghost predicate Hindered()
      reads this
    {
      troubled || left == 0
    }

    predicate Spent(before: nat)
      reads this
    {
      left < before || left == 0
    }

    method Spend()
      modifies this`left
      ensures Spent(old(left))
    {
      var spent: nat :| spent > 0;
      left := if spent <= left then left - spent else 0;
    }

    /** Any call that reads the page: an answer, or an error of any kind but one with input in it. */
    method Ask() returns (answer: Answer)
      modifies this`left, this`troubled
      ensures Spent(old(left)) && troubled == (old(troubled) || !answer.Stayed?)
      ensures answer.Failed? ==> !answer.error.performing
    {
      Spend();
      var timedOut: bool, detached: bool := *, *;
      var which: nat := *;
      answer := if which == 0 then Stayed else if which == 1 then Left else Failed(Error(false, timedOut, detached));
      troubled := troubled || !answer.Stayed?;
    }

    /** Whether a document that was judged is still there. */
    method Document() returns (answer: Answer)
      modifies this`left, this`troubled, this`departed
      ensures Spent(old(left)) && troubled == (old(troubled) || !answer.Stayed?) && departed == (old(departed) || answer.Left?)
      ensures answer.Failed? ==> !answer.error.performing
    {
      answer := Ask();
      departed := departed || answer.Left?;
    }

    /** What the caller can do at any moment. */
    method Cancelled() returns (cancelled: bool)
      modifies this`troubled
      ensures troubled == (old(troubled) || cancelled)
    {
      cancelled := *;
      troubled := troubled || cancelled;
    }

    /** The address of a document that stayed, which asks nothing. */
    method Readdressed() returns (moved: bool)
      modifies this`troubled, this`held, this`departed
      ensures troubled == (old(troubled) || moved) && held == !moved && departed == (old(departed) || moved)
    {
      moved := *;
      troubled, held, departed := troubled || moved, !moved, departed || moved;
    }

    /** Whether the page has left the checked document or, when asked, the address it named. */
    method Moved() returns (answer: Answer)
      modifies this`left, this`held, this`troubled, this`departed
      ensures Spent(old(left)) && held == answer.Stayed? && troubled == (old(troubled) || !held)
      ensures departed == (old(departed) || answer.Left?)
      ensures answer.Failed? ==> !answer.error.performing
    {
      answer := Document();
      held := answer.Stayed?;
    }

    // ----- What an element is asked to do -----

    /** Throws before the mouse events, or after them with the line Playwright logs first. */
    method ClickElement() returns (r: Result)
      requires held
      modifies this`left, this`sent, this`tried, this`troubled, this`log
      ensures Spent(old(left)) && log == if r.Done? then old(log) + [Clicked] else old(log)
      ensures if r.Done? || r.error.performing then sent && tried else sent == old(sent) && tried == old(tried)
      ensures troubled == (old(troubled) || Hinders(r))
    {
      Spend();
      var throws: bool, reached: bool, timedOut: bool, detached: bool := *, *, *, *;
      if !throws || reached {
        sent, tried := true, true;
      }
      r := if throws then Threw(Error(reached, timedOut, detached)) else Done;
      troubled := troubled || Hinders(r);
      log := if throws then log else log + [Clicked];
    }

    /** Throws only before it takes effect. */
    method QuietElement(ghost input: Input) returns (r: Result)
      requires held
      modifies this`left, this`sent, this`tried, this`troubled, this`log
      ensures Spent(old(left)) && log == if r.Done? then old(log) + [input] else old(log)
      ensures sent == (old(sent) || r.Done?) && tried == (old(tried) || r.Done?)
      ensures r.Threw? ==> !r.error.performing
      ensures troubled == (old(troubled) || Hinders(r))
    {
      Spend();
      var throws: bool, timedOut: bool, detached: bool := *, *, *;
      sent, tried := sent || !throws, tried || !throws;
      r := if throws then Threw(Error(false, timedOut, detached)) else Done;
      troubled := troubled || Hinders(r);
      log := if throws then log else log + [input];
    }

    /** The focus, which input is meant for. */
    method Focus() returns (r: Result)
      requires held && dispatched
      modifies this`left, this`sent, this`tried, this`troubled, this`log
      ensures Spent(old(left)) && tried && (r.Threw? ==> !r.error.performing)
      ensures troubled == (old(troubled) || Hinders(r)) && log == if r.Done? then old(log) + [Focused] else old(log)
    {
      r := QuietElement(Focused);
      tried := true;
    }

    /** One key, which goes wherever focus is, and so only while the page is at the checked document. */
    method Key() returns (r: Result)
      requires held && dispatched
      modifies this`left, this`sent, this`tried, this`troubled, this`log
      ensures Spent(old(left)) && tried && (r.Threw? ==> !r.error.performing)
      ensures troubled == (old(troubled) || Hinders(r)) && log == if r.Done? then old(log) + [Pressed] else old(log)
    {
      Spend();
      var throws: bool, timedOut: bool := *, *;
      sent, tried := true, true;
      r := if throws then Threw(Error(false, timedOut, false)) else Done;
      troubled := troubled || Hinders(r);
      log := if throws then log else log + [Pressed];
    }

    /** Key by key, each after the page, where it navigated, was found to be at the checked document still. */
    method PressKeys(keys: nat) returns (r: Result)
      requires held && dispatched && tried
      modifies this`left, this`sent, this`held, this`tried, this`troubled, this`departed, this`log
      ensures left <= old(left) && tried && (r.Threw? ==> !r.error.performing)
      ensures (old(troubled) ==> troubled) && (Hinders(r) ==> Hindered())
      ensures departed ==> old(departed) || r == Threw(PAGE_CHANGED)
      ensures r.Done? ==> log == old(log) + seq(keys, _ => Pressed)
    {
      for i := 0 to keys
        invariant held && tried && left <= old(left) && (old(troubled) ==> troubled) && (departed ==> old(departed))
        invariant log == old(log) + seq(i, _ => Pressed)
      {
        if left == 0 {
          return Threw(RAN_OUT);
        }
        var navigated: bool := *;
        if navigated {
          var moved := Moved();
          if moved.Failed? {
            return Threw(moved.error);
          }
          if moved.Left? {
            return Threw(PAGE_CHANGED);
          }
        }
        var typed := Key();
        if typed.Threw? {
          return typed;
        }
      }
      r := Done;
    }

    method TypeElement(clearFirst: bool, keys: nat) returns (r: Result)
      requires held && Accounted()
      modifies this`left, this`sent, this`held, this`dispatched, this`tried, this`troubled, this`departed, this`log
      ensures departed ==> old(departed) || r == Threw(PAGE_CHANGED)
      ensures Spent(old(left)) && Accounted() && (old(dispatched) ==> dispatched)
      ensures r.Done? ==> dispatched && log == old(log) + InputsOf(Typing(clearFirst, keys))
      ensures r.Threw? ==> !r.error.performing
      ensures (old(troubled) ==> troubled) && (Hinders(r) ==> Hindered())
    {
      if clearFirst {
        var cleared := QuietElement(Cleared);
        if cleared.Threw? {
          return cleared;
        }
        dispatched := true;
      }
      var visible := Ask();
      if visible.Failed? {
        return Threw(visible.error);
      }
      dispatched := true;
      var focused := Focus();
      if focused.Threw? {
        return focused;
      }
      r := PressKeys(keys);
      if r.Done? {
        dispatched := true;
      }
    }

    method Perform(act: Act) returns (r: Result)
      requires held && Accounted()
      modifies this
      ensures Spent(old(left)) && done == if r.Done? then old(done) + [act] else old(done)
      ensures old(dispatched) ==> dispatched
      ensures r.Threw? ==> (sent ==> dispatched || r.error.performing)
      ensures (dispatched || (r.Threw? && r.error.performing) ==> tried) && (r.Done? ==> tried)
      ensures act.Typing? ==> Accounted()
      ensures (old(troubled) ==> troubled) && (Hinders(r) ==> Hindered())
      ensures departed ==> old(departed) || r == Threw(PAGE_CHANGED)
      ensures r.Done? ==> log == old(log) + InputsOf(act)
    {
      match act {
        case Click => r := ClickElement();
        case Quiet => r := QuietElement(Chosen);
        case Typing(clearFirst, keys) => r := TypeElement(clearFirst, keys);
      }
      if r.Done? {
        done := done + [act];
      }
    }

    // ----- actOn and refind -----

    /** The target looked for again, in slices that each end by asking whether the page, or its frame, has left. */
    method Refind() returns (r: Result)
      modifies this`left, this`held, this`troubled, this`departed
      ensures Spent(old(left)) && (r.Threw? ==> !r.error.performing)
      ensures (old(troubled) ==> troubled) && (r.Threw? ==> Hindered())
      ensures departed ==> old(departed) || r == Threw(PAGE_CHANGED)
    {
      var late := false;
      while true
        invariant left <= old(left) && (late ==> left == 0) && (old(troubled) ==> troubled) && (departed ==> old(departed))
        decreases left, !late
      {
        var looked := Ask();
        if !looked.Failed? {
          return Done;
        }
        var cancelled := Cancelled();
        if cancelled || left == 0 {
          return Threw(looked.error);
        }
        var moved := Moved();
        if moved.Failed? {
          return Threw(moved.error);
        }
        if moved.Left? {
          return Threw(PAGE_CHANGED);
        }
        var there := Document();
        if there.Failed? && there.error.timedOut {
          return Threw(there.error);
        }
        if !there.Stayed? {
          return Threw(PAGE_CHANGED);
        }
        if !looked.error.timedOut {
          return Threw(looked.error);
        }
        late := left == 0;
      }
    }

    /** The target, found for the first time or again. */
    method Element(found: bool) returns (r: Result)
      modifies this`left, this`held, this`troubled, this`departed
      ensures Spent(old(left)) && (r.Threw? ==> !r.error.performing)
      ensures (old(troubled) ==> troubled) && (r.Threw? ==> Hindered())
      ensures departed ==> old(departed) || r == Threw(PAGE_CHANGED)
    {
      if found {
        r := Refind();
      } else {
        var element := Ask();
        r := if element.Failed? then Threw(element.error) else Done;
      }
    }

    /** After an error: whether the element was only re-rendered while its page stayed, and what is thrown otherwise. */
    method Rerendered(error: Error) returns (r: Result, again: bool)
      requires sent ==> dispatched || error.performing
      requires dispatched || error.performing ==> tried
      modifies this`left, this`held, this`troubled, this`departed, this`dispatched
      ensures left <= old(left) && (again ==> Spent(old(left))) && (old(troubled) ==> troubled)
      ensures dispatched == (old(dispatched) || error.performing) && Accounted()
      ensures again ==> !error.timedOut && error.detached && held && old(left) > 0
      ensures !again ==> r.Threw? && (r.error.performing ==> error.performing) && (Hindered() || Hinders(Threw(error)))
      ensures departed ==> old(departed) || !again
    {
      if error.performing {
        dispatched := true;
      }
      if error.timedOut || left == 0 {
        return Threw(error), false;
      }
      var there := Moved();
      if there.Failed? {
        return Threw(there.error), false;
      }
      if there.Left? {
        return Threw(PAGE_CHANGED), false;
      }
      return Threw(error), error.detached;
    }

    /** One pass's checks. `known`: the document the target was first found in is. */
    method Check(found: bool, ready: nat) returns (r: Result, known: bool, moved: bool)
      modifies this`left, this`held, this`troubled, this`departed
      ensures Spent(old(left)) && (r.Threw? ==> !r.error.performing)
      ensures departed ==> old(departed) || (r.Done? && moved) || r == Threw(PAGE_CHANGED)
      ensures found ==> known
      ensures r.Done? && !moved ==> held
      ensures (old(troubled) ==> troubled) && (r.Threw? || moved ==> troubled)
    {
      held := false;
      known, moved := found, false;
      if !found {
        var document := Ask();
        if document.Failed? {
          return Threw(document.error), known, moved;
        }
        known := true;
        for i := 0 to ready
          invariant Spent(old(left)) && (old(troubled) ==> troubled) && (departed ==> old(departed))
        {
          var state := Ask();
          if state.Failed? {
            return Threw(state.error), known, moved;
          }
        }
        var answer := Moved();
        moved := answer.Left?;
        r := if answer.Failed? then Threw(answer.error) else Done;
      } else {
        var document := Document();
        if document.Failed? && document.error.timedOut {
          r := Threw(document.error);
        } else if !document.Stayed? {
          r := Threw(PAGE_CHANGED);
        } else {
          // Its document stayed, so only the address is left.
          moved := Readdressed();
          r := Done;
        }
      }
    }

    /** Finds the target, checks that its document is still the one judged, and acts; again while the element was only re-rendered. */
    method ActOn(act: Act, ready: nat) returns (r: Result)
      requires Accounted()
      modifies this
      ensures left <= old(left) && (old(dispatched) ==> dispatched)
      ensures r.Threw? ==> Accounted() && (r.error.performing ==> dispatched)
      ensures (dispatched ==> tried) && (r.Done? ==> tried) && (act.Typing? ==> Accounted())
      ensures done == if r.Done? then old(done) + [act] else old(done)
      ensures (old(troubled) ==> troubled) && (r.Threw? ==> Hindered())
      // Once the page was seen to have left, nothing more is carried out.
      ensures departed && !old(departed) ==> r.Threw?
    {
      var found, late := false, false;
      while true
        invariant Accounted() && left <= old(left) && done == old(done) && (old(dispatched) ==> dispatched)
        invariant (late ==> left == 0) && (old(troubled) ==> troubled) && (departed ==> old(departed))
        decreases left, !late
      {
        r := Element(found);
        if r.Threw? {
          return;
        }
        var moved;
        r, found, moved := Check(found, ready);
        if r.Done? && moved {
          return Threw(PAGE_CHANGED);
        }
        if r.Done? {
          r := Perform(act);
        }
        if r.Done? {
          return;
        }
        var again;
        r, again := Rerendered(r.error);
        if !again {
          return;
        }
        late := left == 0;
      }
    }

    // ----- Whole actions -----

    /** The steps of an input action in turn: each target resolved, then acted on. */
    method Carry(acts: seq<Act>) returns (r: Result)
      requires Accounted()
      modifies this
      ensures Accounted()
      ensures r.Done? ==> done == old(done) + acts && (acts != [] ==> dispatched)
      ensures r.Threw? && r.error.performing ==> dispatched
      ensures r.Threw? ==> exists n :: 0 <= n < |acts| && done == old(done) + acts[..n]
      ensures (old(troubled) ==> troubled) && (r.Threw? ==> Hindered())
      ensures departed && !old(departed) ==> r.Threw?
    {
      for i := 0 to |acts|
        invariant Accounted() && done == old(done) + acts[..i]
        invariant (i > 0 ==> dispatched) && (old(troubled) ==> troubled) && (departed ==> old(departed))
      {
        var located := Ask();
        if located.Failed? {
          return Threw(located.error);
        }
        r := ActOn(acts[i], 3);
        if r.Threw? {
          return;
        }
        dispatched := true;
        assert old(done) + acts[..i] + [acts[i]] == old(done) + acts[..i + 1];
      }
      assert acts[..|acts|] == acts;
      r := Done;
    }

    /** An input action from its checks to its report, and what its caller is told. */
    method Execute(operation: Operation) returns (outcome: Outcome)
      requires !dispatched && !sent && !tried
      modifies this
      ensures outcome.PlainFailure? ==> !sent
      ensures outcome.Success? ==> done == old(done) + Acts(operation)
      ensures outcome.OutcomeUnknown? ==> dispatched && tried
      // Nothing went wrong, a redrawn element aside, and there was time: it succeeds.
      ensures !outcome.Success? ==> Hindered()
      // The page was seen to have left: it does not.
      ensures departed && !old(departed) ==> !outcome.Success?
    {
      var checked := Document();
      if !checked.Stayed? {
        return PlainFailure;
      }
      var ran := Carry(Acts(operation));
      if ran.Done? {
        var settled := Ask();
        if !settled.Failed? {
          return Success;
        }
      }
      outcome := if dispatched || (ran.Threw? && ran.error.performing) then OutcomeUnknown else PlainFailure;
    }
  }

  datatype Operation =
    | ClickOn
    | TypeIn(clearFirst: bool, keys: nat)
    | FillForm(clearFirst: bool, fields: seq<nat>, submit: bool)
    | QuietOn

  /** The steps an action is made of: for a form, each field and then the click that submits it. */
  function Acts(operation: Operation): seq<Act> {
    match operation
    case ClickOn => [Click]
    case TypeIn(clearFirst, keys) => [Typing(clearFirst, keys)]
    case FillForm(clearFirst, fields, submit) =>
      seq(|fields|, i requires 0 <= i < |fields| => Typing(clearFirst, fields[i])) + (if submit then [Click] else [])
    case QuietOn => [Quiet]
  }

  /** A form has one step for each field, in order, and one click behind them when it is submitted. */
  lemma ActsAre(clearFirst: bool, fields: seq<nat>, submit: bool)
    ensures var acts := Acts(FillForm(clearFirst, fields, submit));
      && |acts| == |fields| + (if submit then 1 else 0)
      && (forall i :: 0 <= i < |fields| ==> acts[i] == Acts(TypeIn(clearFirst, fields[i]))[0])
      && (submit ==> acts[|fields|..] == Acts(ClickOn))
    ensures Acts(ClickOn) == [Click] && Acts(QuietOn) == [Quiet] && forall n: nat :: Acts(TypeIn(clearFirst, n)) == [Typing(clearFirst, n)]
  {
  }
}
