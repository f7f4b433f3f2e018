/**
  `debounce` of src/lib/layout-state.ts, together with the host's timers: a timeout that is not cleared
  runs its callback once, some time after it is due.
*/
module Debounce {
  import opened Wrappers

  /** `scheduled` holds the due time of every timeout the host will still run. */
  datatype State<A> =
    State(timer: Option<nat>, pending: Option<A>, scheduled: map<nat, nat>, nextId: nat, delivered: seq<A>)

  datatype Event<A> = Call(args: A, at: nat) | Fire(id: nat, at: nat) | Flush(at: nat)

  function Start<A>(): State<A> {
    State(None, None, map[], 0, [])
  }

  /** A pending call, if any, is handed to the wrapped function. */
  function Deliver<A>(s: State<A>): State<A> {
    s.(pending := None, delivered := if s.pending.Some? then s.delivered + [s.pending.value] else s.delivered)
  }

  function Clear<A>(s: State<A>): State<A> {
    if s.timer.Some? then s.(scheduled := s.scheduled - {s.timer.value}) else s
  }

  function Step<A>(s: State<A>, e: Event<A>, delay: nat): State<A> {
    match e
    case Call(args, at) =>
      var t := Clear(s);
      t.(pending := Some(args), timer := Some(t.nextId),
         nextId := t.nextId + 1, scheduled := t.scheduled[t.nextId := at + delay])
    case Fire(id, _) => Deliver(s.(scheduled := s.scheduled - {id}, timer := None))
    case Flush(_) => Deliver(Clear(s).(timer := None))
  }

  function Run<A>(evs: seq<Event<A>>, delay: nat): State<A> {
    if evs == [] then Start() else Step(Run(evs[..|evs| - 1], delay), evs[|evs| - 1], delay)
  }

  /** What the host may do: run a timeout that is scheduled and due. */
  ghost predicate Possible<A>(s: State<A>, e: Event<A>) {
    e.Fire? ==> e.id in s.scheduled && s.scheduled[e.id] <= e.at
  }

  ghost predicate Happens<A>(evs: seq<Event<A>>, delay: nat) {
    evs == [] || (Happens(evs[..|evs| - 1], delay) && Possible(Run(evs[..|evs| - 1], delay), evs[|evs| - 1]))
  }

  // ----- What the runs look like from outside -----

  function Calls<A>(evs: seq<Event<A>>): nat {
    if evs == [] then 0 else Calls(evs[..|evs| - 1]) + if evs[|evs| - 1].Call? then 1 else 0
  }

  /** The last call of every burst: those that something other than a call comes right after. */
  function BurstEnds<A>(evs: seq<Event<A>>): seq<A> {
    if |evs| < 2 then []
    else
      var a, b := evs[|evs| - 2], evs[|evs| - 1];
      BurstEnds(evs[..|evs| - 1]) + if a.Call? && !b.Call? then [a.args] else []
  }

  /** The state that a history leaves behind. */
  ghost predicate Describes<A>(s: State<A>, evs: seq<Event<A>>, delay: nat) {
    && s.nextId == Calls(evs)
    && s.delivered == BurstEnds(evs)
    && if evs != [] && evs[|evs| - 1].Call?
       then
         var last := evs[|evs| - 1];
         && s.pending == Some(last.args) && s.timer == Some(s.nextId - 1)
         && s.scheduled == map[s.nextId - 1 := last.at + delay]
       else s.pending == None && s.timer == None && s.scheduled == map[]
  }

  /**
    After every history that can happen: a timer runs exactly while a call is pending, and then it is the one
    armed by the newest call; what has been delivered is the last call of each finished burst, in order.
  */
  lemma {:induction false} RunIs<A>(evs: seq<Event<A>>, delay: nat)
    requires Happens(evs, delay)
    ensures Describes(Run(evs, delay), evs, delay)
  {
    if evs != [] {
      var front, e := evs[..|evs| - 1], evs[|evs| - 1];
      RunIs(front, delay);
      var s := Run(front, delay);
      if |evs| >= 2 {
        assert evs[|evs| - 2] == front[|front| - 1];
      } else {
        assert front == [];
      }
      match e
      case Call(_, at) =>
        assert Clear(s).scheduled == map[];
      case Fire(id, _) =>
        assert s.scheduled - {id} == map[];
      case Flush(_) =>
        assert Clear(s).scheduled == map[];
    }
  }

  /** A timeout only ever runs directly behind the call that armed it, and after the whole delay has passed since. */
  lemma {:induction false} FireIff<A>(evs: seq<Event<A>>, id: nat, at: nat, delay: nat)
    requires Happens(evs, delay)
    ensures Happens(evs + [Fire(id, at)], delay) <==>
            && evs != [] && evs[|evs| - 1].Call?
            && id == Calls(evs) - 1 && evs[|evs| - 1].at + delay <= at
  {
    var longer := evs + [Fire(id, at)];
    assert longer[..|longer| - 1] == evs;
    RunIs(evs, delay);
  }

  /** Once the timer runs or `flush` is called, nothing is pending and the newest call was the last one delivered. */
  lemma {:induction false} NewestDelivered<A>(evs: seq<Event<A>>, e: Event<A>, delay: nat)
    requires Happens(evs + [e], delay) && !e.Call? && evs != [] && evs[|evs| - 1].Call?
    ensures var s := Run(evs + [e], delay);
            s.pending == None && s.delivered == BurstEnds(evs) + [evs[|evs| - 1].args]
  {
    var longer := evs + [e];
    assert longer[..|longer| - 1] == evs && longer[|longer| - 2] == evs[|evs| - 1];
    RunIs(longer, delay);
  }

  /** Arguments of the calls, in order. */
  function CallArgs<A>(evs: seq<Event<A>>): seq<A> {
    if evs == [] then [] else CallArgs(evs[..|evs| - 1]) + if evs[|evs| - 1].Call? then [evs[|evs| - 1].args] else []
  }

  /** `a` is `b` with some elements left out. */
  ghost predicate Subsequence<A>(a: seq<A>, b: seq<A>)
    decreases |b|
  {
    if b == [] then a == []
    else
      || Subsequence(a, b[..|b| - 1])
      || (a != [] && a[|a| - 1] == b[|b| - 1] && Subsequence(a[..|a| - 1], b[..|b| - 1]))
  }

  lemma {:induction false} BurstsAreCalls<A>(evs: seq<Event<A>>)
    ensures Subsequence(BurstEnds(evs), CallArgs(evs))
    ensures evs != [] && evs[|evs| - 1].Call? ==> Subsequence(BurstEnds(evs), CallArgs(evs[..|evs| - 1]))
  {
    if evs != [] {
      var front, e := evs[..|evs| - 1], evs[|evs| - 1];
      BurstsAreCalls(front);
      if |evs| < 2 {
        assert front == [];
      } else if e.Call? {
        assert BurstEnds(evs) == BurstEnds(front);
        assert CallArgs(evs)[..|CallArgs(evs)| - 1] == CallArgs(front);
      } else if front[|front| - 1].Call? {
        var last := front[|front| - 1];
        assert evs[|evs| - 2] == last;
        assert CallArgs(evs) == CallArgs(front) == CallArgs(front[..|front| - 1]) + [last.args];
        assert CallArgs(front)[..|CallArgs(front)| - 1] == CallArgs(front[..|front| - 1]);
        assert BurstEnds(evs) == BurstEnds(front) + [last.args];
        assert BurstEnds(evs)[..|BurstEnds(evs)| - 1] == BurstEnds(front);
      } else {
        assert evs[|evs| - 2] == front[|front| - 1];
        assert CallArgs(evs) == CallArgs(front) && BurstEnds(evs) == BurstEnds(front);
      }
    }
  }

  /** What has been delivered is calls, each at most once and in their order. */
  lemma {:induction false} DeliveredInOrder<A>(evs: seq<Event<A>>, delay: nat)
    requires Happens(evs, delay)
    ensures Subsequence(Run(evs, delay).delivered, CallArgs(evs))
  {
    RunIs(evs, delay);
    BurstsAreCalls(evs);
  }

  // ----- The closure -----

  /** The captured variables, and the host's timers. */
  class Debounced<A> {
    const delay: nat
    var timer: Option<nat>
    var pending: Option<A>
    var scheduled: map<nat, nat>
    var nextId: nat
    var delivered: seq<A>

    constructor (delay: nat)
      ensures this.delay == delay && View() == Start()
    {
      this.delay := delay;
      timer := None;
      pending := None;
      scheduled := map[];
      nextId := 0;
      delivered := [];
    }

    ghost function View(): State<A>
      reads this
    {
      State(timer, pending, scheduled, nextId, delivered)
    }

    method SetTimeout(due: nat) returns (id: nat)
      modifies this`scheduled, this`nextId
      ensures id == old(nextId) && nextId == old(nextId) + 1 && scheduled == old(scheduled)[id := due]
    {
      id := nextId;
      nextId := nextId + 1;
      scheduled := scheduled[id := due];
    }

    method Call(args: A, now: nat)
      modifies this
      ensures View() == Step(old(View()), Event.Call(args, now), delay)
    {
      if timer.Some? {
        scheduled := scheduled - {timer.value};
      }
      pending := Some(args);
      var id := SetTimeout(now + delay);
      timer := Some(id);
    }

    /** The host runs a timeout's callback. */
    method Fire(id: nat, now: nat)
      requires pending.Some?
      modifies this
      ensures View() == Step(old(View()), Event.Fire(id, now), delay)
    {
      scheduled := scheduled - {id};
      timer := None;
      var args := pending.value;
      pending := None;
      delivered := delivered + [args];
    }

    method Flush(now: nat)
      modifies this
      ensures View() == Step(old(View()), Event.Flush(now), delay)
    {
      if timer.Some? {
        scheduled := scheduled - {timer.value};
        timer := None;
      }
      if pending.Some? {
        var args := pending.value;
        pending := None;
        delivered := delivered + [args];
      }
    }
  }
}
