/** The imperative actor core: Actor (lib/revactor/actor.rb), its Mailbox,
    Timer and Filter (lib/revactor/mailbox.rb) and the Scheduler's run queue
    (lib/revactor/scheduler.rb).  They refer to one another, so they share a
    module.  `Actor.current` and the scheduler singleton are explicit
    parameters; a fiber suspension is the end of a `ReceiveCall.Pass`. */
module Actors {
  import opened Base
  import opened Values
  import opened Selective

  /** The process-wide registry of named actors (`@@registered`). */
  class Registry {
    var registered: map<Value, Actor>

    constructor()
      ensures registered == map[]
    {
      registered := map[];
    }

    /** `Actor[key]`: the registered actor, or nil. */
    function Lookup(key: Value): (r: Option<Actor>)
      reads this
      ensures r.Some? <==> key in registered
      ensures r.Some? ==> r.value == registered[key]
    {
      if key in registered then Some(registered[key]) else None
    }

    /** `Actor[key] = actor`: only actors may be registered; the newest
        registration for a key wins and no other key changes. */
    method Register(key: Value, candidate: object) returns (r: Result<Actor>)
      modifies this
      ensures !(candidate is Actor) ==>
                r == Err(ArgumentError("only actors may be registered")) &&
                registered == old(registered)
      ensures candidate is Actor ==>
                r == Ok(candidate as Actor) &&
                Lookup(key) == Some(candidate as Actor) &&
                registered == old(registered)[key := candidate as Actor]
    {
      if !(candidate is Actor) {
        return Err(ArgumentError("only actors may be registered"));
      }
      registered := registered[key := candidate as Actor];
      r := Ok(candidate as Actor);
    }

    /** `Actor.delete(key)`: removes the key and returns what it held. */
    method Delete(key: Value) returns (r: Option<Actor>)
      modifies this
      ensures r == old(Lookup(key))
      ensures Lookup(key).None?
      ensures registered == old(registered) - {key}
    {
      r := Lookup(key);
      registered := registered - {key};
    }
  }

  class Actor {
    /** `@_dead`, which `dead?` reads; the scheduler's `@dead` is taken to
        be the same flag. */
    var dead: bool
    const mailbox: Mailbox
    var dictionary: map<Value, Value>
    /** Actors to notify when this one exits, fixed when it is created. */
    const links: seq<Actor>
    const body: Action
    const args: seq<Value>

    constructor(body: Action, args: seq<Value>, links: seq<Actor>)
      ensures !dead && fresh(mailbox) && mailbox.queue == [] && mailbox.timer == null
      ensures dictionary == map[] && this.links == links && this.body == body && this.args == args
    {
      dead := false;
      mailbox := new Mailbox();
      dictionary := map[];
      this.links := links;
      this.body := body;
      this.args := args;
    }

    /** `Actor.new(*args, &block)`: a block is required; the new actor is
        alive, has an empty mailbox and dictionary, and is enqueued. */
    static method New(block: Option<Action>, args: seq<Value>, sched: Scheduler, current: Actor)
      returns (r: Result<Actor>)
      modifies sched
      ensures block.None? ==>
                r == Err(ArgumentError("no block given")) && sched.queue == old(sched.queue) &&
                sched.running == old(sched.running)
      ensures block.Some? ==>
                r.Ok? && fresh(r.value) && fresh(r.value.mailbox) && !r.value.dead &&
                r.value.mailbox.queue == [] && r.value.dictionary == map[] && r.value.links == [] &&
                r.value.body == block.value && r.value.args == args &&
                sched.queue == Enqueued(old(sched.queue), old(sched.running), r.value, current) && sched.running
      ensures sched.events == old(sched.events)
    {
      if block.None? {
        return Err(ArgumentError("no block given"));
      }
      var actor := new Actor(block.value, args, []);
      var _ := sched.Enqueue(actor, current);
      r := Ok(actor);
    }

    /** `actor[key]`: a missing key reads as nil. */
    function Get(key: Value): (r: Value)
      reads this
      ensures key in dictionary ==> r == dictionary[key]
      ensures key !in dictionary ==> r == Nil
    {
      if key in dictionary then dictionary[key] else Nil
    }

    /** `actor[key] = value`. */
    method Set(key: Value, value: Value)
      modifies this
      ensures Get(key) == value
      ensures dictionary == old(dictionary)[key := value]
      ensures dead == old(dead)
    {
      dictionary := dictionary[key := value];
    }

    /** `actor.delete(key)`: removes only that key, returning its value or nil. */
    method Delete(key: Value) returns (r: Value)
      modifies this
      ensures r == old(Get(key)) && key !in dictionary && Get(key) == Nil
      ensures dictionary == old(dictionary) - {key}
      ensures dead == old(dead)
    {
      r := Get(key);
      dictionary := dictionary - {key};
    }

    /** `actor << message`: a dead actor drops the message silently; a live
        one queues it at the mailbox tail and is enqueued.  Either way the
        message is returned. */
    method Send(message: Value, sched: Scheduler, current: Actor) returns (r: Value)
      modifies mailbox, sched
      ensures r == message
      ensures old(dead) ==>
                mailbox.queue == old(mailbox.queue) && sched.queue == old(sched.queue) &&
                sched.running == old(sched.running)
      ensures !old(dead) ==>
                mailbox.queue == old(mailbox.queue) + [message] &&
                sched.queue == Enqueued(old(sched.queue), old(sched.running), this, current) && sched.running
      ensures sched.events == old(sched.events)
      ensures mailbox.timer == old(mailbox.timer) && mailbox.timedOut == old(mailbox.timedOut) &&
              mailbox.timeoutAction == old(mailbox.timeoutAction)
    {
      if dead {
        return message;
      }
      mailbox.Append(message);
      var _ := sched.Enqueue(this, current);
      r := message;
    }
  }

  class Mailbox {
    var queue: seq<Value>
    var timer: Timer?
    var timedOut: bool
    var timeoutAction: Option<Action>

    constructor()
      ensures queue == [] && timer == null && !timedOut && timeoutAction.None?
    {
      queue := [];
      timer := null;
      timedOut := false;
      timeoutAction := None;
    }

    /** `mailbox << message`: appends at the tail, earlier messages intact. */
    method Append(message: Value)
      modifies this
      ensures queue == old(queue) + [message]
      ensures |queue| == |old(queue)| + 1 && queue[|queue| - 1] == message
      ensures forall i :: 0 <= i < |old(queue)| ==> queue[i] == old(queue)[i]
      ensures timer == old(timer) && timedOut == old(timedOut) && timeoutAction == old(timeoutAction)
    {
      queue := queue + [message];
    }

    /** The start of `receive`, up to the `yield filter`: a block is
        required; the timeout state is cleared and an empty filter bound to
        this mailbox is handed to the block. */
    method BeginReceive(blockGiven: bool) returns (r: Result<Filter>)
      modifies this
      ensures !blockGiven ==>
                r == Err(ArgumentError("no filter block given")) &&
                timedOut == old(timedOut) && timeoutAction == old(timeoutAction)
      ensures blockGiven ==>
                r.Ok? && fresh(r.value) && r.value.mailbox == this && r.value.ruleset == [] &&
                !r.value.timedOut && !timedOut && timeoutAction.None?
      ensures queue == old(queue) && timer == old(timer)
    {
      if !blockGiven {
        return Err(ArgumentError("no filter block given"));
      }
      timedOut := false;
      timeoutAction := None;
      var filter := new Filter(this);
      r := Ok(filter);
    }

    /** `raise ArgumentError, "empty filter" if filter.empty?`, then the scan
        starts with `processed_upto = 0`.  A filter holding only `after(0)`
        arms no timer and so is rejected here. */
    method StartScan(filter: Filter) returns (r: Result<ReceiveCall>)
      requires filter.mailbox == this
      ensures filter.Empty() ==> r == Err(ArgumentError("empty filter"))
      ensures !filter.Empty() ==>
                r.Ok? && fresh(r.value) && r.value.mailbox == this && r.value.filter == filter &&
                r.value.processedUpto == 0 && !r.value.done
    {
      if filter.Empty() {
        return Err(ArgumentError("empty filter"));
      }
      var call := new ReceiveCall(this, filter);
      r := Ok(call);
    }
  }

  /** `Mailbox::Timer`: a timer watcher owned by one actor. */
  class Timer {
    const owner: Actor
    const timeout: real
    var attached: bool

    constructor(timeout: real, owner: Actor)
      ensures this.timeout == timeout && this.owner == owner && !attached
    {
      this.timeout := timeout;
      this.owner := owner;
      attached := false;
    }

    /** `on_timer`: flags the owner's mailbox as timed out and enqueues the
        owner. */
    method OnTimer(sched: Scheduler, current: Actor)
      modifies owner.mailbox, sched
      ensures owner.mailbox.timedOut
      ensures owner.mailbox.queue == old(owner.mailbox.queue) &&
              owner.mailbox.timer == old(owner.mailbox.timer) &&
              owner.mailbox.timeoutAction == old(owner.mailbox.timeoutAction)
      ensures sched.queue == Enqueued(old(sched.queue), old(sched.running), owner, current) && sched.running
      ensures sched.events == old(sched.events)
    {
      owner.mailbox.timedOut := true;
      var _ := sched.Enqueue(owner, current);
    }
  }

  /** `Mailbox::Filter`: the rules built by one `receive` block. */
  class Filter {
    const mailbox: Mailbox
    var ruleset: seq<Rule>
    /** The Filter's own `@timed_out`, written by `after(0)` and read by
        nothing. */
    var timedOut: bool

    constructor(mailbox: Mailbox)
      ensures this.mailbox == mailbox && ruleset == [] && !timedOut
    {
      this.mailbox := mailbox;
      ruleset := [];
      timedOut := false;
    }

    /** `when(pattern, &action)`: a block is required; the rule goes last. */
    method When(pattern: Pattern, action: Option<Action>) returns (r: Result<()>)
      modifies this
      ensures action.None? ==> r == Err(ArgumentError("no block given")) && ruleset == old(ruleset)
      ensures action.Some? ==> r == Ok(()) && ruleset == old(ruleset) + [Rule(pattern, action.value)]
      ensures timedOut == old(timedOut)
    {
      if action.None? {
        return Err(ArgumentError("no block given"));
      }
      ruleset := ruleset + [Rule(pattern, action.value)];
      r := Ok(());
    }

    /** `after(timeout, &action)`: at most one timeout and never a negative
        one; the action defaults to a no-op.  A positive timeout arms an
        attached timer for the current actor.  A zero timeout arms none,
        sets the FILTER's `timedOut` (the mailbox's stays as it was) and
        enqueues the current actor. */
    method After(timeout: real, action: Option<Action>, current: Actor, sched: Scheduler)
      returns (r: Result<()>)
      modifies this, mailbox, sched
      ensures old(mailbox.timer) != null ==>
                r == Err(ArgumentError("timeout already specified")) &&
                mailbox.timeoutAction == old(mailbox.timeoutAction) &&
                sched.queue == old(sched.queue) && timedOut == old(timedOut)
      ensures old(mailbox.timer) == null && timeout < 0.0 ==>
                r == Err(ArgumentError("must be zero or positive")) &&
                mailbox.timer == null && mailbox.timeoutAction == old(mailbox.timeoutAction) &&
                sched.queue == old(sched.queue) && timedOut == old(timedOut)
      ensures old(mailbox.timer) == null && timeout > 0.0 ==>
                r == Ok(()) && mailbox.timeoutAction == Some(action.GetOr(NoOp)) &&
                mailbox.timer != null && fresh(mailbox.timer) && mailbox.timer.attached &&
                mailbox.timer.owner == current && mailbox.timer.timeout == timeout &&
                sched.queue == old(sched.queue) && timedOut == old(timedOut)
      ensures old(mailbox.timer) == null && timeout == 0.0 ==>
                r == Ok(()) && mailbox.timeoutAction == Some(action.GetOr(NoOp)) &&
                mailbox.timer == null && timedOut &&
                sched.queue == Enqueued(old(sched.queue), old(sched.running), current, current) && sched.running
      ensures ruleset == old(ruleset) && mailbox.queue == old(mailbox.queue) &&
              mailbox.timedOut == old(mailbox.timedOut) && sched.events == old(sched.events)
    {
      if mailbox.timer != null {
        return Err(ArgumentError("timeout already specified"));
      }
      if timeout < 0.0 {
        return Err(ArgumentError("must be zero or positive"));
      }
      mailbox.timeoutAction := Some(action.GetOr(NoOp));
      if timeout > 0.0 {
        var t := new Timer(timeout, current);
        t.attached := true;
        mailbox.timer := t;
      } else {
        timedOut := true;
        var _ := sched.Enqueue(current, current);
      }
      r := Ok(());
    }

    /** `match(message)`: the action of the first rule whose pattern matches. */
    function Match(message: Value): (r: Option<Action>)
      reads this
      ensures r.Some? <==> exists j :: 0 <= j < |ruleset| && Values.Match(ruleset[j].pattern, message)
      ensures r.Some? ==> exists j :: 0 <= j < |ruleset| && r.value == ruleset[j].action &&
                            Values.Match(ruleset[j].pattern, message) &&
                            forall i :: 0 <= i < j ==> !Values.Match(ruleset[i].pattern, message)
    {
      MatchAction(ruleset, message)
    }

    /** `empty?`: no rules and no timer armed on the mailbox. */
    predicate Empty()
      reads this, mailbox
    {
      ruleset == [] && mailbox.timer == null
    }
  }

  /** The state of one `receive` call between fiber suspensions: the scan
      position and whether an action has been chosen. */
  class ReceiveCall {
    const mailbox: Mailbox
    const filter: Filter
    var processedUpto: nat
    var done: bool

    constructor(mailbox: Mailbox, filter: Filter)
      ensures this.mailbox == mailbox && this.filter == filter && processedUpto == 0 && !done
    {
      this.mailbox := mailbox;
      this.filter := filter;
      processedUpto := 0;
      done := false;
    }

    /** The `each_with_index` loop over `@queue[processed_upto..]`: each
        message no rule matches bumps `processedUpto`; the first match stops
        the loop with `matched_index = processed_upto + index`. */
    method Scan() returns (action: Option<Action>, matchedIndex: nat)
      requires filter.mailbox == mailbox && processedUpto <= |mailbox.queue|
      modifies this`processedUpto
      ensures var s := ScanPass(mailbox.queue, old(processedUpto), filter.ruleset);
              processedUpto == s.processed &&
              (s.hit.None? ==> action.None?) &&
              (s.hit.Some? ==> action == Some(s.hit.value.action) && matchedIndex == s.hit.value.index)
    {
      var q := mailbox.queue;
      var p0 := processedUpto;
      var slice := q[processedUpto..];
      ghost var rules := filter.ruleset;
      action := None;
      matchedIndex := 0;
      var index := 0;
      var found := false;
      while index < |slice| && !found
        invariant index <= |slice|
        invariant processedUpto == p0 + index
        invariant forall k :: p0 <= k < p0 + index ==> !Matches(rules, q[k])
        invariant !found ==> action.None?
        invariant found ==> index < |slice| && Matches(rules, q[p0 + index]) &&
                            action == MatchAction(rules, q[p0 + index]) &&
                            matchedIndex == processedUpto + index
        decreases |slice| - index, if found then 0 else 1
      {
        action := filter.Match(slice[index]);
        if action.None? {
          processedUpto := processedUpto + 1;
          index := index + 1;
        } else {
          matchedIndex := processedUpto + index;
          found := true;
        }
      }
      if found {
        FirstMatchUnique(q, p0, rules, p0 + index);
      } else {
        assert FirstMatchFrom(q, p0, rules).None?;
      }
    }

    /** One iteration of `while action.nil?`.  On `Suspended` the fiber would
        `reschedule`; messages appended and timers fired meanwhile are seen
        by the next pass.  Once an action is chosen the timer is detached
        and cleared, and the action is called, as PassSpec states. */
    method Pass() returns (r: PassResult)
      requires !done && filter.mailbox == mailbox && processedUpto <= |mailbox.queue|
      modifies this, mailbox, mailbox.timer
      ensures var e := PassSpec(old(mailbox.queue), old(processedUpto), filter.ruleset,
                                old(mailbox.timedOut), old(mailbox.timeoutAction));
              r == e.result && mailbox.queue == e.queue && processedUpto == e.processed
      ensures old(processedUpto) <= processedUpto <= |old(mailbox.queue)|
      ensures done <==> r.Invoke?
      ensures r.Invoke? ==>
                mailbox.timer == null && (old(mailbox.timer) != null ==> !old(mailbox.timer).attached)
      ensures r.Suspended? ==>
                mailbox.timer == old(mailbox.timer) &&
                (mailbox.timer != null ==> mailbox.timer.attached == old(mailbox.timer.attached))
      ensures mailbox.timedOut == old(mailbox.timedOut) && mailbox.timeoutAction == old(mailbox.timeoutAction)
    {
      var action, matchedIndex := Scan();
      if mailbox.timedOut && action.None? {
        action := mailbox.timeoutAction;
      }
      if action.None? {
        return Suspended;
      }
      var timer := mailbox.timer;
      if timer != null {
        if timer.attached {
          timer.attached := false;
        }
        mailbox.timer := null;
      }
      done := true;
      if mailbox.timedOut {
        return Invoke(action.value, None);
      }
      var (m, rest) := DeleteAt(mailbox.queue, matchedIndex);
      mailbox.queue := rest;
      r := Invoke(action.value, Some(m));
    }

    /** The pass with both defects corrected: the matching message itself
        (at `processedUpto`, where the scan stopped) is removed and handed
        to its action, and the timeout action runs only when nothing
        matched. */
    method PassIntended() returns (r: PassResult)
      requires !done && filter.mailbox == mailbox && processedUpto <= |mailbox.queue|
      modifies this, mailbox, mailbox.timer
      ensures var e := IntendedPass(old(mailbox.queue), old(processedUpto), filter.ruleset,
                                    old(mailbox.timedOut), old(mailbox.timeoutAction));
              r == e.result && mailbox.queue == e.queue && processedUpto == e.processed
      ensures done <==> r.Invoke?
      ensures r.Invoke? ==>
                mailbox.timer == null && (old(mailbox.timer) != null ==> !old(mailbox.timer).attached)
      ensures r.Suspended? ==>
                mailbox.timer == old(mailbox.timer) &&
                (mailbox.timer != null ==> mailbox.timer.attached == old(mailbox.timer.attached))
      ensures mailbox.timedOut == old(mailbox.timedOut) && mailbox.timeoutAction == old(mailbox.timeoutAction)
    {
      var action, _ := Scan();
      var matched := action.Some?;
      if !matched && mailbox.timedOut {
        action := mailbox.timeoutAction;
      }
      if action.None? {
        return Suspended;
      }
      var timer := mailbox.timer;
      if timer != null {
        if timer.attached {
          timer.attached := false;
        }
        mailbox.timer := null;
      }
      done := true;
      if !matched {
        return Invoke(action.value, None);
      }
      var (m, rest) := DeleteAt(mailbox.queue, processedUpto);
      mailbox.queue := rest;
      r := Invoke(action.value, Some(m));
    }
  }

  /** The run queue after `self << actor` from `current`: the actor unless
      it is already the last entry, then, when the scheduler is not running,
      `current` without that check. */
  function Enqueued(queue: seq<Actor>, running: bool, actor: Actor, current: Actor): (r: seq<Actor>)
    ensures queue <= r && |r| <= |queue| + 2 && actor in r
    ensures running ==> r[|r| - 1] == actor && |r| <= |queue| + 1
    ensures !running ==> |r| >= 2 && r[|r| - 2] == actor && r[|r| - 1] == current
    ensures |r| == |queue| + (if |queue| > 0 && queue[|queue| - 1] == actor then 0 else 1) +
                          (if running then 0 else 1)
  {
    if running then Pushed(queue, actor) else Pushed(queue, actor) + [current]
  }

  /** How one `actor.fiber.resume` ended. */
  datatype Outcome = Yielded | Finished | FiberError | Raised(ex: Error)

  /** The resume oracle's answer: the outcome and the actors the resumed
      code handed to `Scheduler#<<` meanwhile, in order. */
  datatype Resume = Resume(outcome: Outcome, enqueued: seq<Actor>)

  /** What `handle_exit` reports: an exception logged to standard error, or
      `link.notify_exited(actor, ex)`. */
  datatype ExitEvent = Logged(actor: Actor, error: Error) | Notified(link: Actor, actor: Actor, ex: Option<Error>)

  /** The events `handle_exit(actor, ex)` emits, read from the actor's links. */
  function ExitEvents(actor: Actor, ex: Option<Error>): (r: seq<ExitEvent>)
    ensures actor.links == [] ==> r == (if ex.Some? then [Logged(actor, ex.value)] else [])
    ensures actor.links != [] ==>
              |r| == |actor.links| &&
              forall i :: 0 <= i < |r| ==> r[i] == Notified(actor.links[i], actor, ex)
  {
    if actor.links == [] then
      if ex.Some? then [Logged(actor, ex.value)] else []
    else
      seq(|actor.links|, i requires 0 <= i < |actor.links| => Notified(actor.links[i], actor, ex))
  }

  /** The events of the exits recorded during a pass, in order; `exits[i]`
      is the exception handed to `handle_exit` at step i, if it was called. */
  function PassEvents(resumed: seq<Actor>, exits: seq<Option<Option<Error>>>): seq<ExitEvent>
    requires |resumed| == |exits|
  {
    if resumed == [] then []
    else
      var last := |resumed| - 1;
      PassEvents(resumed[..last], exits[..last]) +
      (if exits[last].Some? then ExitEvents(resumed[last], exits[last].value) else [])
  }

  /** The scheduler: its run queue, whether `run` has started, and the exit
      events it has emitted. */
  class Scheduler {
    var queue: seq<Actor>
    var running: bool
    var events: seq<ExitEvent>

    constructor()
      ensures queue == [] && !running && events == []
    {
      queue := [];
      running := false;
      events := [];
    }

    /** `Scheduler#<<`: only actors; the scheduler is running afterwards. */
    method Enqueue(x: object, current: Actor) returns (r: Result<()>)
      modifies this
      ensures !(x is Actor) ==>
                r == Err(ArgumentError("must be an Actor")) &&
                queue == old(queue) && running == old(running)
      ensures x is Actor ==>
                r == Ok(()) && queue == Enqueued(old(queue), old(running), x as Actor, current) && running
      ensures events == old(events)
    {
      if !(x is Actor) {
        return Err(ArgumentError("must be an Actor"));
      }
      queue := Pushed(queue, x as Actor);
      if !running {
        queue := queue + [current];
        var _ := Start();
      }
      r := Ok(());
    }

    /** The head of `run`: `return if @running`, otherwise start running. */
    method Start() returns (started: bool)
      modifies this
      ensures started == !old(running) && running
      ensures queue == old(queue) && events == old(events)
    {
      if running {
        return false;
      }
      running := true;
      started := true;
    }

    /** `handle_exit(actor, ex)`: the actor is dead; with no links the
        exception, if any, is logged; otherwise every link in order is
        notified and enqueued. */
    method HandleExit(actor: Actor, ex: Option<Error>)
      requires running
      modifies this, actor`dead
      ensures actor.dead && running
      ensures events == old(events) + ExitEvents(actor, ex)
      ensures queue == PushAll(old(queue), actor.links)
    {
      actor.dead := true;
      if actor.links == [] {
        if ex.Some? {
          events := events + [Logged(actor, ex.value)];
        }
      } else {
        var i := 0;
        while i < |actor.links|
          modifies this
          invariant i <= |actor.links| && running
          invariant events == old(events) + ExitEvents(actor, ex)[..i]
          invariant queue == PushAll(old(queue), actor.links[..i])
        {
          var link := actor.links[i];
          events := events + [Notified(link, actor, ex)];
          assert ExitEvents(actor, ex)[..i + 1] == ExitEvents(actor, ex)[..i] + [Notified(link, actor, ex)];
          assert actor.links[..i + 1][..i] == actor.links[..i];
          queue := Pushed(queue, link);
          i := i + 1;
        }
        assert actor.links[..i] == actor.links;
      }
    }

    /** The exception `handle_exit` is given for an outcome, if it is called;
        `wasDead` is the actor's dead flag before the resume, which `dead?`
        still reads after a mere yield. */
    static function ExitFor(o: Outcome, wasDead: bool): (r: Option<Option<Error>>)
      ensures o.Finished? || o.FiberError? ==> r == Some(None)
      ensures o.Raised? ==> r == Some(Some(o.ex))
      ensures o.Yielded? ==> (r.Some? <==> wasDead) && (r.Some? ==> r.value.None?)
    {
      match o
      case Yielded => if wasDead then Some(None) else None
      case Finished => Some(None)
      case FiberError => Some(None)
      case Raised(ex) => Some(Some(ex))
    }

    /** The body of `@queue.each` for the actor at position i, given how its
        resume ended: a finished body or a FiberError marks it dead, and a
        dead actor or a raised exception goes to `handle_exit`.  `exit` is
        the exception handed to `handle_exit`, if it was called. */
    method Step(i: nat, actor: Actor, step: Resume, ghost actors: set<Actor>)
      returns (exit: Option<Option<Error>>)
      requires running && i < |queue| && queue[i] == actor
      requires forall a :: a in queue ==> a in actors
      requires forall a, l :: a in actors && l in a.links ==> l in actors
      requires forall x :: x in step.enqueued ==> x in actors
      modifies this, actor`dead
      ensures running && old(queue) <= queue
      ensures queue == StepQueue(old(queue), step, actor, exit)
      ensures forall a :: a in queue ==> a in actors
      ensures forall x :: x in step.enqueued ==> x in queue[i..]
      ensures exit.Some? ==> forall l :: l in actor.links ==> l in queue[i..]
      ensures exit == ExitFor(step.outcome, old(actor.dead))
      ensures actor.dead == (old(actor.dead) || exit.Some?)
      ensures (exit.Some? || !step.outcome.Yielded?) ==> actor.dead
      ensures events == old(events) + (if exit.Some? then ExitEvents(actor, exit.value) else [])
    {
      PushAllLater(queue, step.enqueued, i, actors);
      queue := PushAll(queue, step.enqueued);
      exit := None;
      match step.outcome {
        case Yielded =>
          if actor.dead {
            exit := Some(None);
          }
        case Finished =>
          actor.dead := true;
          exit := Some(None);
        case FiberError =>
          actor.dead := true;
          exit := Some(None);
        case Raised(ex) =>
          exit := Some(Some(ex));
      }
      if exit.Some? {
        ghost var before := queue;
        PushAllLater(queue, actor.links, i, actors);
        HandleExit(actor, exit.value);
        SuffixesGrow(before, queue, i, step.enqueued);
      }
    }

    /** One turn of the `@queue.each` loop: the step at position i, with the
        record of the pass so far extended by it.  `dead0` holds the actors
        that were dead when the pass began. */
    method Visit(i: nat, actor: Actor, resume: nat -> Resume, ghost actors: set<Actor>,
                 ghost dead0: set<Actor>, ghost resumed: seq<Actor>,
                 ghost exits: seq<Option<Option<Error>>>, ghost start: seq<ExitEvent>,
                 ghost q0: seq<Actor>)
      returns (exit: Option<Option<Error>>)
      requires running && i == |resumed| < |queue| && queue[i] == actor
      requires PassSoFar(queue, resume, actors, dead0, resumed, exits)
      requires queue == PassQueue(q0, resume, resumed, exits)
      requires DeadSoFar(actors, dead0, resumed, exits)
      requires forall a, l :: a in actors && l in a.links ==> l in actors
      requires forall x :: x in resume(i).enqueued ==> x in actors
      requires events == start + PassEvents(resumed, exits)
      modifies this, actor`dead
      ensures running && old(queue) <= queue
      ensures PassSoFar(queue, resume, actors, dead0, resumed + [actor], exits + [exit])
      ensures DeadSoFar(actors, dead0, resumed + [actor], exits + [exit])
      ensures events == start + PassEvents(resumed + [actor], exits + [exit])
      ensures queue == PassQueue(q0, resume, resumed + [actor], exits + [exit])
    {
      ghost var before := queue;
      ghost var beforeEvents := events;
      assert actor in actors;
      ghost var wasDead := actor.dead;
      assert wasDead == (actor in dead0 || actor in Killed(resumed, exits, i));
      exit := Step(i, actor, resume(i), actors);
      PassSoFarStep(before, queue, resume, actors, dead0, resumed, exits, actor, exit);
      DeadSoFarStep(actors, dead0, resumed, exits, actor, exit, wasDead);
      PassEventsStep(start, beforeEvents, events, resumed, exits, actor, exit);
      PassQueueSnoc(q0, resume, resumed, exits, actor, exit);
    }

    /** Whether the dead flags of `actors` are those before the pass
        (`dead0`) plus the actors whose step so far called `handle_exit`. */
    static ghost predicate DeadSoFar(actors: set<Actor>, dead0: set<Actor>,
                              resumed: seq<Actor>, exits: seq<Option<Option<Error>>>)
      reads actors
      requires |resumed| == |exits|
    {
      forall a :: a in actors ==> (a.dead <==> a in dead0 || a in Killed(resumed, exits, |resumed|))
    }

    /** The `@queue.each` loop: resumes the actor at each position in turn,
        re-reading the queue's length, so actors appended meanwhile are
        visited too; stops after `budget` resumes.  An actor's dead flag
        before its j-th step is its flag before the pass or an exit earlier
        in the pass. */
    method ResumeAll(resume: nat -> Resume, budget: nat, ghost actors: set<Actor>)
      returns (resumed: seq<Actor>, exits: seq<Option<Option<Error>>>)
      requires running
      requires forall a :: a in queue ==> a in actors
      requires forall a, l :: a in actors && l in a.links ==> l in actors
      requires forall i, x :: x in resume(i).enqueued ==> x in actors
      modifies this, actors
      ensures running && |resumed| == |exits| <= budget && |resumed| <= |queue|
      ensures old(queue) <= queue && resumed == queue[..|resumed|]
      ensures |resumed| < budget ==> |resumed| == |queue|
      ensures queue == PassQueue(old(queue), resume, resumed, exits)
      ensures EnqueuedLater(queue, resume, |resumed|)
      ensures ExitLinksLater(queue, resumed, exits, |resumed|)
      ensures forall j :: 0 <= j < |resumed| ==> resumed[j] in actors
      ensures forall j :: 0 <= j < |resumed| ==>
                exits[j] == ExitFor(resume(j).outcome, old(resumed[j].dead) || resumed[j] in Killed(resumed, exits, j))
      ensures forall j :: 0 <= j < |resumed| ==>
                (exits[j].Some? || !resume(j).outcome.Yielded?) ==> resumed[j].dead
      ensures forall a :: a in actors ==> (a.dead <==> old(a.dead) || a in Killed(resumed, exits, |resumed|))
      ensures events == old(events) + PassEvents(resumed, exits)
    {
      var i := 0;
      resumed := [];
      exits := [];
      ghost var dead0 := set a | a in actors && a.dead;
      while i < |queue| && i < budget
        invariant running && i == |resumed| && i <= budget && old(queue) <= queue
        invariant PassSoFar(queue, resume, actors, dead0, resumed, exits)
        invariant DeadSoFar(actors, dead0, resumed, exits)
        invariant events == old(events) + PassEvents(resumed, exits)
        invariant queue == PassQueue(old(queue), resume, resumed, exits)
        decreases budget - i
      {
        var actor := queue[i];
        var exit := Visit(i, actor, resume, actors, dead0, resumed, exits, old(events), old(queue));
        resumed := resumed + [actor];
        exits := exits + [exit];
        i := i + 1;
      }
      PassSoFarEnd(queue, resume, actors, dead0, resumed, exits);
      forall j | 0 <= j < |resumed|
        ensures (exits[j].Some? || !resume(j).outcome.Yielded?) ==> resumed[j].dead
      {
        KilledAt(resumed, exits, j);
      }
    }

    /** One pass of `run`'s `while true`: `@queue.each` resumes actors in
        order, including those appended during the pass, and handles their
        exits; then the queue is cleared.  `resume(i)` is the oracle for the
        i-th resume.  At most `budget` actors are resumed: `complete` says
        whether the pass reached the end of the queue (and cleared it). */
    method RunPass(resume: nat -> Resume, budget: nat, ghost actors: set<Actor>)
      returns (resumed: seq<Actor>, exits: seq<Option<Option<Error>>>, complete: bool)
      requires running
      requires forall a :: a in queue ==> a in actors
      requires forall a, l :: a in actors && l in a.links ==> l in actors
      requires forall i, x :: x in resume(i).enqueued ==> x in actors
      modifies this, actors
      ensures running && |resumed| == |exits| <= budget
      ensures forall i :: 0 <= i < |old(queue)| && i < |resumed| ==> resumed[i] == old(queue)[i]
      ensures complete ==> queue == [] && old(queue) <= resumed
      ensures !complete ==> |resumed| == budget && resumed < queue
      ensures (if complete then resumed else queue) == PassQueue(old(queue), resume, resumed, exits)
      ensures forall i :: 0 <= i < |resumed| ==> resumed[i] in old(queue) || Contributed(resumed[i], resume, resumed, exits)
      ensures forall i, x :: 0 <= i < |resumed| && x in resume(i).enqueued ==>
                x in (if complete then resumed else queue)[i..]
      ensures ExitLinksLater(if complete then resumed else queue, resumed, exits, |resumed|)
      ensures forall i :: 0 <= i < |resumed| ==> resumed[i] in actors
      ensures forall i :: 0 <= i < |resumed| ==>
                exits[i] == ExitFor(resume(i).outcome, old(resumed[i].dead) || resumed[i] in Killed(resumed, exits, i)) &&
                ((exits[i].Some? || !resume(i).outcome.Yielded?) ==> resumed[i].dead)
      ensures forall a :: a in actors ==> (a.dead <==> old(a.dead) || a in Killed(resumed, exits, |resumed|))
      ensures events == old(events) + PassEvents(resumed, exits)
    {
      resumed, exits := ResumeAll(resume, budget, actors);
      PassQueueOrigin(old(queue), resume, resumed, exits);
      complete := |resumed| == |queue|;
      if complete {
        assert resumed == queue;
        queue := [];
      }
    }
  }

  /** The queue after one step on q: the actors the resume enqueued are
      pushed, then, when the step called `handle_exit`, the actor's links. */
  function StepQueue(q: seq<Actor>, step: Resume, actor: Actor, exit: Option<Option<Error>>): (r: seq<Actor>)
    ensures q <= r
    ensures forall x :: x in r ==> x in q || x in step.enqueued || (exit.Some? && x in actor.links)
  {
    var q1 := PushAll(q, step.enqueued);
    PushAllProps(q, step.enqueued);
    if exit.Some? then
      PushAllProps(q1, actor.links);
      PushAll(q1, actor.links)
    else q1
  }

  /** The run queue after the recorded steps of a pass that began on q0. */
  ghost function PassQueue(q0: seq<Actor>, resume: nat -> Resume,
                           resumed: seq<Actor>, exits: seq<Option<Option<Error>>>): seq<Actor>
    requires |resumed| == |exits|
    decreases |resumed|
  {
    if resumed == [] then q0
    else
      var n := |resumed| - 1;
      StepQueue(PassQueue(q0, resume, resumed[..n], exits[..n]), resume(n), resumed[n], exits[n])
  }

  lemma PassQueueSnoc(q0: seq<Actor>, resume: nat -> Resume,
                      resumed: seq<Actor>, exits: seq<Option<Option<Error>>>,
                      actor: Actor, exit: Option<Option<Error>>)
    requires |resumed| == |exits|
    ensures PassQueue(q0, resume, resumed + [actor], exits + [exit]) ==
            StepQueue(PassQueue(q0, resume, resumed, exits), resume(|resumed|), actor, exit)
  {
    assert (resumed + [actor])[..|resumed|] == resumed;
    assert (exits + [exit])[..|exits|] == exits;
  }

  /** A pass whose resumes enqueue nothing and whose exiting actors have no
      links leaves the run queue as it found it. */
  lemma {:induction false} PassQueueQuiet(q0: seq<Actor>, resume: nat -> Resume,
                                          resumed: seq<Actor>, exits: seq<Option<Option<Error>>>)
    requires |resumed| == |exits|
    requires forall j :: 0 <= j < |resumed| ==>
               resume(j).enqueued == [] && (exits[j].Some? ==> resumed[j].links == [])
    ensures PassQueue(q0, resume, resumed, exits) == q0
    decreases |resumed|
  {
    if resumed != [] {
      var n := |resumed| - 1;
      PassQueueQuiet(q0, resume, resumed[..n], exits[..n]);
    }
  }

  /** Whether x was enqueued by one of the recorded resumes, or is a link of
      an actor whose step called `handle_exit`. */
  ghost predicate Contributed(x: Actor, resume: nat -> Resume,
                              resumed: seq<Actor>, exits: seq<Option<Option<Error>>>)
  {
    exists j :: 0 <= j < |resumed| && j < |exits| &&
                (x in resume(j).enqueued || (exits[j].Some? && x in resumed[j].links))
  }

  /** Nothing enters the run queue during a pass but the actors the resumes
      enqueue and the links of the actors that exit. */
  lemma {:induction false} PassQueueOrigin(q0: seq<Actor>, resume: nat -> Resume,
                                           resumed: seq<Actor>, exits: seq<Option<Option<Error>>>)
    requires |resumed| == |exits|
    ensures forall x :: x in PassQueue(q0, resume, resumed, exits) ==> x in q0 || Contributed(x, resume, resumed, exits)
    decreases |resumed|
  {
    if resumed != [] {
      var n := |resumed| - 1;
      var r, e := resumed[..n], exits[..n];
      PassQueueOrigin(q0, resume, r, e);
      forall x | x in PassQueue(q0, resume, resumed, exits)
        ensures x in q0 || Contributed(x, resume, resumed, exits)
      {
        if x in PassQueue(q0, resume, r, e) {
          if Contributed(x, resume, r, e) {
            var j :| 0 <= j < |r| && j < |e| && (x in resume(j).enqueued || (e[j].Some? && x in r[j].links));
            assert resumed[j] == r[j] && exits[j] == e[j];
          }
        } else {
          assert x in resume(n).enqueued || (exits[n].Some? && x in resumed[n].links);
        }
      }
    }
  }

  /** The actors whose first n steps called `handle_exit`. */
  ghost function Killed(resumed: seq<Actor>, exits: seq<Option<Option<Error>>>, n: nat): set<Actor>
    requires n <= |resumed| && n <= |exits|
  {
    set k | 0 <= k < n && exits[k].Some? :: resumed[k]
  }

  /** An actor whose step called `handle_exit` is among those killed by the
      end of the steps. */
  lemma KilledAt(resumed: seq<Actor>, exits: seq<Option<Option<Error>>>, j: nat)
    requires j < |resumed| == |exits|
    ensures exits[j].Some? ==> resumed[j] in Killed(resumed, exits, |resumed|)
  {
  }

  /** One more step leaves the earlier prefixes' killed sets alone and adds
      the actor to the whole one when it exited. */
  lemma KilledSnoc(resumed: seq<Actor>, exits: seq<Option<Option<Error>>>,
                   actor: Actor, exit: Option<Option<Error>>)
    requires |resumed| == |exits|
    ensures forall n :: 0 <= n <= |resumed| ==>
              Killed(resumed + [actor], exits + [exit], n) == Killed(resumed, exits, n)
    ensures Killed(resumed + [actor], exits + [exit], |resumed| + 1) ==
            Killed(resumed, exits, |resumed|) + (if exit.Some? then {actor} else {})
  {
    var r, e := resumed + [actor], exits + [exit];
    forall n | 0 <= n <= |resumed|
      ensures Killed(r, e, n) == Killed(resumed, exits, n)
    {
      forall k | 0 <= k < n
        ensures r[k] == resumed[k] && e[k] == exits[k]
      {
      }
    }
    var both := Killed(resumed, exits, |resumed|) + (if exit.Some? then {actor} else {});
    forall a | a in Killed(r, e, |resumed| + 1)
      ensures a in both
    {
      var k :| 0 <= k < |resumed| + 1 && e[k].Some? && r[k] == a;
      if k < |resumed| {
        assert resumed[k] == a && exits[k].Some?;
      }
    }
    forall a | a in both
      ensures a in Killed(r, e, |resumed| + 1)
    {
      if a in Killed(resumed, exits, |resumed|) {
        var k :| 0 <= k < |resumed| && exits[k].Some? && resumed[k] == a;
        assert r[k] == a && e[k].Some?;
      } else {
        assert r[|resumed|] == a && e[|resumed|].Some?;
      }
    }
  }

  /** The record of a pass over q after |resumed| steps: the actors resumed
      are the head of the queue, every actor queued is known, whatever the
      j-th resume enqueued and, on an exit, the j-th actor's links sit at or
      after position j, and `exits[j]` is what the j-th outcome hands to
      `handle_exit`, given the actor's dead flag before that step. */
  ghost predicate PassSoFar(q: seq<Actor>, resume: nat -> Resume, actors: set<Actor>, dead0: set<Actor>,
                            resumed: seq<Actor>, exits: seq<Option<Option<Error>>>)
  {
    |resumed| == |exits| <= |q| && resumed == q[..|resumed|] &&
    (forall a :: a in q ==> a in actors) &&
    EnqueuedLater(q, resume, |resumed|) &&
    ExitLinksLater(q, resumed, exits, |resumed|) &&
    forall j :: 0 <= j < |exits| ==>
      exits[j] == Scheduler.ExitFor(resume(j).outcome, resumed[j] in dead0 || resumed[j] in Killed(resumed, exits, j))
  }

  lemma PassSoFarStep(before: seq<Actor>, after: seq<Actor>, resume: nat -> Resume, actors: set<Actor>,
                      dead0: set<Actor>, resumed: seq<Actor>, exits: seq<Option<Option<Error>>>,
                      actor: Actor, exit: Option<Option<Error>>)
    requires PassSoFar(before, resume, actors, dead0, resumed, exits)
    requires |resumed| < |before| && before[|resumed|] == actor && before <= after
    requires forall a :: a in after ==> a in actors
    requires forall x :: x in resume(|resumed|).enqueued ==> x in after[|resumed|..]
    requires exit.Some? ==> forall l :: l in actor.links ==> l in after[|resumed|..]
    requires exit == Scheduler.ExitFor(resume(|resumed|).outcome,
                                       actor in dead0 || actor in Killed(resumed, exits, |resumed|))
    ensures PassSoFar(after, resume, actors, dead0, resumed + [actor], exits + [exit])
  {
    var i := |resumed|;
    EnqueuedLaterGrows(before, after, resume, i);
    ExitLinksLaterGrows(before, after, resumed, exits, actor, exit);
    KilledSnoc(resumed, exits, actor, exit);
    assert after[..i + 1] == resumed + [actor];
    assert (exits + [exit])[i] == exit;
  }

  /** The dead flags after one more step: the actor's flag gains its exit,
      and no other actor's changes. */
  lemma DeadSoFarStep(actors: set<Actor>, dead0: set<Actor>,
                      resumed: seq<Actor>, exits: seq<Option<Option<Error>>>,
                      actor: Actor, exit: Option<Option<Error>>, wasDead: bool)
    requires |resumed| == |exits| && actor in actors
    requires forall a :: a in actors && a != actor ==>
               (a.dead <==> a in dead0 || a in Killed(resumed, exits, |resumed|))
    requires wasDead == (actor in dead0 || actor in Killed(resumed, exits, |resumed|))
    requires actor.dead == (wasDead || exit.Some?)
    ensures Scheduler.DeadSoFar(actors, dead0, resumed + [actor], exits + [exit])
  {
    KilledSnoc(resumed, exits, actor, exit);
  }

  /** At the end of the loop the pass record gives the method's promises. */
  lemma PassSoFarEnd(q: seq<Actor>, resume: nat -> Resume, actors: set<Actor>, dead0: set<Actor>,
                     resumed: seq<Actor>, exits: seq<Option<Option<Error>>>)
    requires PassSoFar(q, resume, actors, dead0, resumed, exits)
    ensures EnqueuedLater(q, resume, |resumed|) && ExitLinksLater(q, resumed, exits, |resumed|)
    ensures forall j :: 0 <= j < |resumed| ==> resumed[j] in actors
  {
    forall j | 0 <= j < |resumed|
      ensures resumed[j] in actors
    {
      assert resumed[j] == q[j];
    }
  }

  /** On an exit at step j, each of the j-th actor's links sits in the queue
      at or after position j. */
  ghost predicate ExitLinksLater(q: seq<Actor>, resumed: seq<Actor>, exits: seq<Option<Option<Error>>>, n: nat)
  {
    n <= |q| && n <= |resumed| && n <= |exits| &&
    forall j, l :: 0 <= j < n && exits[j].Some? && l in resumed[j].links ==> l in q[j..]
  }

  lemma ExitLinksLaterGrows(before: seq<Actor>, after: seq<Actor>,
                            resumed: seq<Actor>, exits: seq<Option<Option<Error>>>,
                            actor: Actor, exit: Option<Option<Error>>)
    requires before <= after && |resumed| == |exits| < |before|
    requires ExitLinksLater(before, resumed, exits, |resumed|)
    requires exit.Some? ==> forall l :: l in actor.links ==> l in after[|resumed|..]
    ensures ExitLinksLater(after, resumed + [actor], exits + [exit], |resumed| + 1)
  {
    var r, e := resumed + [actor], exits + [exit];
    forall j, l | 0 <= j < |resumed| + 1 && e[j].Some? && l in r[j].links
      ensures l in after[j..]
    {
      if j < |resumed| {
        assert r[j] == resumed[j] && e[j] == exits[j];
        SuffixGrows(before, after, j, l);
      }
    }
  }

  /** Each actor enqueued by the j-th resume sits in the queue at or after
      position j. */
  ghost predicate EnqueuedLater(q: seq<Actor>, resume: nat -> Resume, n: nat) {
    n <= |q| && forall j, x :: 0 <= j < n && x in resume(j).enqueued ==> x in q[j..]
  }

  lemma EnqueuedLaterGrows(before: seq<Actor>, after: seq<Actor>, resume: nat -> Resume, i: nat)
    requires before <= after && i < |before|
    requires EnqueuedLater(before, resume, i)
    requires forall x :: x in resume(i).enqueued ==> x in after[i..]
    ensures EnqueuedLater(after, resume, i + 1)
  {
    forall j, x | 0 <= j < i + 1 && x in resume(j).enqueued
      ensures x in after[j..]
    {
      if j < i {
        SuffixGrows(before, after, j, x);
      }
    }
  }

  /** Pushing known actors onto a queue of known actors extends it with
      known actors only, each pushed one at or after any position i. */
  lemma PushAllLater(q: seq<Actor>, xs: seq<Actor>, i: nat, actors: set<Actor>)
    requires i < |q|
    requires forall a :: a in q ==> a in actors
    requires forall x :: x in xs ==> x in actors
    ensures q <= PushAll(q, xs)
    ensures forall a :: a in PushAll(q, xs) ==> a in actors
    ensures forall x :: x in xs ==> x in PushAll(q, xs)[i..]
  {
    PushAllProps(q, xs);
    var r := PushAll(q, xs);
    forall x | x in xs
      ensures x in r[i..]
    {
      var m :| 0 <= m < |xs| && xs[m] == x;
      if x in r[|q|..] {
        LaterSuffix(r, i, |q|, x);
      } else {
        assert r[|q| - 1] == x;
      }
    }
  }

  lemma SuffixesGrow<T>(a: seq<T>, b: seq<T>, j: nat, xs: seq<T>)
    requires a <= b && j <= |a|
    requires forall x :: x in xs ==> x in a[j..]
    ensures forall x :: x in xs ==> x in b[j..]
  {
    forall x | x in xs
      ensures x in b[j..]
    {
      SuffixGrows(a, b, j, x);
    }
  }

  /** An element of a suffix is in every longer suffix. */
  lemma LaterSuffix<T>(b: seq<T>, i: nat, k: nat, x: T)
    requires i <= k <= |b| && x in b[k..]
    ensures x in b[i..]
  {
    var m :| k <= m < |b| && b[m] == x;
    assert b[i..][m - i] == x;
  }

  /** An element of a suffix stays in that suffix when the sequence grows. */
  lemma SuffixGrows<T>(a: seq<T>, b: seq<T>, j: nat, x: T)
    requires a <= b && j <= |a| && x in a[j..]
    ensures x in b[j..]
  {
    var k :| j <= k < |a| && a[k] == x;
    assert b[k] == x;
  }

  /** The exit events of one more step extend those of the pass so far. */
  lemma PassEventsStep(start: seq<ExitEvent>, before: seq<ExitEvent>, after: seq<ExitEvent>,
                       resumed: seq<Actor>, exits: seq<Option<Option<Error>>>,
                       actor: Actor, exit: Option<Option<Error>>)
    requires |resumed| == |exits| && before == start + PassEvents(resumed, exits)
    requires after == before + (if exit.Some? then ExitEvents(actor, exit.value) else [])
    ensures after == start + PassEvents(resumed + [actor], exits + [exit])
  {
    PassEventsSnoc(resumed, exits, actor, exit);
    ConcatAssoc(start, PassEvents(resumed, exits), if exit.Some? then ExitEvents(actor, exit.value) else []);
  }

  /** Sequence concatenation regroups; stated once over abstract operands,
      which keeps the solver from unfolding `PassEvents` to see it. */
  lemma ConcatAssoc<T>(a: seq<T>, b: seq<T>, c: seq<T>)
    ensures (a + b) + c == a + (b + c)
  {
  }

  lemma PassEventsSnoc(resumed: seq<Actor>, exits: seq<Option<Option<Error>>>,
                       actor: Actor, exit: Option<Option<Error>>)
    requires |resumed| == |exits|
    ensures PassEvents(resumed + [actor], exits + [exit]) ==
            PassEvents(resumed, exits) + (if exit.Some? then ExitEvents(actor, exit.value) else [])
  {
    assert (resumed + [actor])[..|resumed|] == resumed;
    assert (exits + [exit])[..|exits|] == exits;
  }
}
