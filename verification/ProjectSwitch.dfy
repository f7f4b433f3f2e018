/**
  The token debounce behind `projects:active-changed`, src-tauri/src/lib.rs: every event takes the next
  token and spawns a task that sleeps, then reconciles only if its token is still the newest.
*/
module ProjectSwitch {
  import opened Wrappers

  const SLEEP := 250

  datatype Task = Task(token: nat, active: string, due: nat, done: bool)

  /** A reconcile that passed the check. */
  datatype Pass = Pass(token: nat, active: string)

  datatype State = State(counter: nat, tasks: seq<Task>, passed: seq<Pass>)

  /** An event, whose payload may name no project, or the wake-up of a task. */
  datatype Event = Changed(id: Option<string>, at: nat) | Wake(task: nat, at: nat)

  const START := State(0, [], [])

  function Step(s: State, e: Event): State {
    match e
    case Changed(None, _) => s
    case Changed(Some(active), at) =>
      var token := s.counter + 1;
      s.(counter := token, tasks := s.tasks + [Task(token, active, at + SLEEP, false)])
    case Wake(n, _) =>
      if n >= |s.tasks| then s
      else
        var task := s.tasks[n];
        var t := s.(tasks := s.tasks[n := task.(done := true)]);
        if s.counter != task.token then t else t.(passed := s.passed + [Pass(task.token, task.active)])
  }

  function Run(evs: seq<Event>): State {
    if evs == [] then START else Step(Run(evs[..|evs| - 1]), evs[|evs| - 1])
  }

  /** Each task wakes once, when its sleep is over; tasks wake in any order. */
  ghost predicate Possible(s: State, e: Event) {
    e.Wake? ==> e.task < |s.tasks| && !s.tasks[e.task].done && s.tasks[e.task].due <= e.at
  }

  ghost predicate Happens(evs: seq<Event>) {
    evs == [] || (Happens(evs[..|evs| - 1]) && Possible(Run(evs[..|evs| - 1]), evs[|evs| - 1]))
  }

  /** A switch to a named project, and when it came. */
  datatype Switch = Switch(active: string, at: nat)

  /** The switches, oldest first. */
  function Switches(evs: seq<Event>): seq<Switch> {
    if evs == [] then []
    else
      var front, e := Switches(evs[..|evs| - 1]), evs[|evs| - 1];
      if e.Changed? && e.id.Some? then front + [Switch(e.id.value, e.at)] else front
  }

  ghost predicate Increasing(passed: seq<Pass>) {
    forall i, j :: 0 <= i < j < |passed| ==> passed[i].token < passed[j].token
  }

  /** What holds after every history: one task per switch, tokens counting them, and passes that tell the truth. */
  ghost predicate Inv(s: State, switches: seq<Switch>) {
    && s.counter == |s.tasks| == |switches|
    && (forall i :: 0 <= i < |s.tasks| ==> TaskOk(s.tasks[i], i, switches[i]))
    && Increasing(s.passed)
    && (forall k :: 0 <= k < |s.passed| ==> PassOk(s.passed[k], s.tasks))
    && (s.tasks != [] && s.tasks[|s.tasks| - 1].done ==> s.passed != [] && s.passed[|s.passed| - 1].token == s.counter)
  }

  ghost predicate TaskOk(task: Task, i: nat, switch: Switch) {
    task.token == i + 1 && task.active == switch.active && task.due == switch.at + SLEEP
  }

  ghost predicate PassOk(p: Pass, tasks: seq<Task>) {
    1 <= p.token <= |tasks| && p.active == tasks[p.token - 1].active && tasks[p.token - 1].done
  }

  lemma {:induction false} StepKeeps(s: State, switches: seq<Switch>, e: Event)
    requires Inv(s, switches) && Possible(s, e)
    ensures Inv(Step(s, e), if e.Changed? && e.id.Some? then switches + [Switch(e.id.value, e.at)] else switches)
  {
    if e.Wake? && s.counter == s.tasks[e.task].token {
      assert forall k :: 0 <= k < |s.passed| ==> s.passed[k].token - 1 != e.task;
    }
  }

  lemma {:induction false} RunKeeps(evs: seq<Event>)
    requires Happens(evs)
    ensures Inv(Run(evs), Switches(evs))
  {
    hide Inv, Step;
    if evs == [] {
      assert Inv(START, []) by { StartInv(); }
    } else {
      RunKeeps(evs[..|evs| - 1]);
      StepKeeps(Run(evs[..|evs| - 1]), Switches(evs[..|evs| - 1]), evs[|evs| - 1]);
    }
  }

  lemma {:induction false} StartInv()
    ensures Inv(START, [])
  {
  }

  /** In every interleaving of switches and wake-ups, tasks pass the check in strictly increasing token order. */
  lemma {:induction false} PassesIncrease(evs: seq<Event>)
    requires Happens(evs)
    ensures Increasing(Run(evs).passed)
    ensures forall k :: 0 <= k < |Run(evs).passed| ==>
                          var p := Run(evs).passed[k];
                          1 <= p.token <= |Switches(evs)| && p.active == Switches(evs)[p.token - 1].active
  {
    RunKeeps(evs);
  }

  /** A task that wakes passes exactly if its switch is the newest so far; that switch is at least the sleep old. */
  lemma {:induction false} PassIff(evs: seq<Event>, n: nat, at: nat)
    requires Happens(evs + [Wake(n, at)])
    ensures var before, after := Run(evs).passed, Run(evs + [Wake(n, at)]).passed;
            && n < |Switches(evs)| && Switches(evs)[n].at + 250 <= at
            && after == if n == |Switches(evs)| - 1 then before + [Pass(n + 1, Switches(evs)[n].active)] else before
  {
    assert (evs + [Wake(n, at)])[..|evs|] == evs;
    RunKeeps(evs);
  }

  /** Once the newest switch's task has woken, the last pass is that switch: the project that was chosen last. */
  lemma {:induction false} NewestPasses(evs: seq<Event>)
    requires Happens(evs) && Switches(evs) != []
    ensures var s, newest := Run(evs), |Switches(evs)|;
            && |s.tasks| == newest
            && (s.tasks[newest - 1].done <==>
                  s.passed != [] && s.passed[|s.passed| - 1] == Pass(newest, Switches(evs)[newest - 1].active))
  {
    RunKeeps(evs);
  }

  /** However many switches came, the newest task still asleep can wake and then passes. */
  lemma {:induction false} NewestCanPass(evs: seq<Event>)
    requires Happens(evs) && Run(evs).tasks != [] && !Run(evs).tasks[|Run(evs).tasks| - 1].done
    ensures Switches(evs) != []
    ensures var n := |Switches(evs)| - 1;
            var longer := evs + [Wake(n, Switches(evs)[n].at + 250)];
            Happens(longer) && Run(longer).passed == Run(evs).passed + [Pass(n + 1, Switches(evs)[n].active)]
  {
    RunKeeps(evs);
    var n: nat := |Switches(evs)| - 1;
    var e := Wake(n, Switches(evs)[n].at + SLEEP);
    assert (evs + [e])[..|evs|] == evs;
    PassIff(evs, n, e.at);
  }

  // ----- The listener -----

  class Listener {
    var counter: nat
    var tasks: seq<Task>
    var passed: seq<Pass>

    constructor ()
      ensures View() == START
    {
      counter := 0;
      tasks := [];
      passed := [];
    }

    ghost function View(): State
      reads this
    {
      State(counter, tasks, passed)
    }

    method FetchAdd() returns (before: nat)
      modifies this`counter
      ensures before == old(counter) && counter == before + 1
    {
      before := counter;
      counter := counter + 1;
    }

    method ActiveChanged(id: Option<string>, now: nat)
      modifies this
      ensures View() == Step(old(View()), Changed(id, now))
    {
      if id.Some? {
        var before := FetchAdd();
        var token := before + 1;
        tasks := tasks + [Task(token, id.value, now + SLEEP, false)];
      }
    }

    /** The body of a spawned task, after its sleep. */
    method Awake(n: nat, now: nat) returns (reconciles: bool)
      requires n < |tasks|
      modifies this
      ensures View() == Step(old(View()), Wake(n, now))
      ensures reconciles <==> passed != old(passed)
    {
      var task := tasks[n];
      tasks := tasks[n := task.(done := true)];
      if counter != task.token {
        return false;
      }
      passed := passed + [Pass(task.token, task.active)];
      reconciles := true;
    }
  }
}
