/**
  The two-tier store of src/lib/layout-state.ts: every save and delete changes localStorage at once and
  queues a statement for SQLite, which takes effect later, or never.
*/
module LayoutStore {
  import opened Wrappers

  /** A parsed JSON value; `null` is told apart because a fallback load cannot return it. */
  datatype Json = Null | Value(text: string)

  type Tier = map<string, Json>

  /** Saving a value under a key, or deleting the key. */
  datatype Change = Change(key: string, value: Option<Json>)

  function Apply(t: Tier, c: Change): Tier {
    match c.value case Some(v) => t[c.key := v] case None => t - {c.key}
  }

  function ApplyAll(t: Tier, cs: seq<Change>): Tier {
    if cs == [] then t else Apply(ApplyAll(t, cs[..|cs| - 1]), cs[|cs| - 1])
  }

  /** `queue` holds the statements on their way to SQLite, oldest first. */
  datatype State = State(local: Tier, sql: Tier, queue: seq<Change>)

  datatype Event =
    | Make(change: Change, localOk: bool) // localStorage may refuse: quota, disabled
    | Land // the oldest statement takes effect
    | Lose // the oldest statement fails, or there is no database

  function Step(s: State, e: Event): State {
    match e
    case Make(c, localOk) => s.(local := if localOk then Apply(s.local, c) else s.local, queue := s.queue + [c])
    case Land => if s.queue == [] then s else s.(sql := Apply(s.sql, s.queue[0]), queue := s.queue[1..])
    case Lose => if s.queue == [] then s else s.(queue := s.queue[1..])
  }

  function Run(s: State, evs: seq<Event>): State {
    if evs == [] then s else Step(Run(s, evs[..|evs| - 1]), evs[|evs| - 1])
  }

  // ----- Loading -----

  function LoadLocal(local: Tier, key: string, fallback: Json): Json {
    if key in local && local[key] != Null then local[key] else fallback
  }

  /** `loadLayoutState`; `answers` says whether SQLite could be read. */
  function Load(s: State, key: string, fallback: Json, answers: bool): Json {
    if answers && key in s.sql then s.sql[key] else LoadLocal(s.local, key, fallback)
  }

  // ----- Histories -----

  /** All changes that were made. */
  function Made(evs: seq<Event>): seq<Change> {
    if evs == [] then []
    else
      var e, front := evs[|evs| - 1], Made(evs[..|evs| - 1]);
      if e.Make? then front + [e.change] else front
  }

  /** The changes localStorage took. */
  function Kept(evs: seq<Event>): seq<Change> {
    if evs == [] then []
    else
      var e, front := evs[|evs| - 1], Kept(evs[..|evs| - 1]);
      if e.Make? && e.localOk then front + [e.change] else front
  }

  /** The fates of the statements so far, oldest first: whether each took effect.  A fate needs a statement. */
  function Fates(evs: seq<Event>): seq<bool> {
    if evs == [] then []
    else
      var e, front := evs[|evs| - 1], evs[..|evs| - 1];
      if !e.Make? && |Fates(front)| < |Made(front)| then Fates(front) + [e.Land?] else Fates(front)
  }

  /** Those changes whose fate is to take effect. */
  function Landed(cs: seq<Change>, fates: seq<bool>): seq<Change>
    requires |fates| <= |cs|
  {
    if fates == [] then []
    else
      var n := |fates| - 1;
      if fates[n] then Landed(cs, fates[..n]) + [cs[n]] else Landed(cs, fates[..n])
  }

  lemma {:induction false} LandedPrefix(cs: seq<Change>, more: seq<Change>, fates: seq<bool>)
    requires |fates| <= |cs|
    ensures Landed(cs + more, fates) == Landed(cs, fates)
  {
    if fates != [] {
      LandedPrefix(cs, more, fates[..|fates| - 1]);
    }
  }

  /**
    After any history, localStorage holds exactly the changes it took, SQLite exactly those whose statement
    took effect, each in the order they were made, and the queue holds those without a fate yet.
  */
  lemma {:induction false} RunIs(s: State, evs: seq<Event>)
    requires s.queue == []
    ensures |Fates(evs)| <= |Made(evs)|
    ensures Run(s, evs).local == ApplyAll(s.local, Kept(evs))
    ensures Run(s, evs).sql == ApplyAll(s.sql, Landed(Made(evs), Fates(evs)))
    ensures Run(s, evs).queue == Made(evs)[|Fates(evs)|..]
  {
    hide Apply;
    if evs != [] {
      var front, e := evs[..|evs| - 1], evs[|evs| - 1];
      RunIs(s, front);
      var made, fates := Made(front), Fates(front);
      match e
      case Make(c, localOk) =>
        LandedPrefix(made, [c], fates);
        ApplyOneMore(s.local, Kept(front), c);
      case Land =>
        if |fates| < |made| {
          FateAdds(made, fates, true);
          ApplyOneMore(s.sql, Landed(made, fates), made[|fates|]);
        }
      case Lose =>
        if |fates| < |made| {
          FateAdds(made, fates, false);
        }
    }
  }

  lemma {:induction false} FateAdds(cs: seq<Change>, fates: seq<bool>, lands: bool)
    requires |fates| < |cs|
    ensures Landed(cs, fates + [lands]) == if lands then Landed(cs, fates) + [cs[|fates|]] else Landed(cs, fates)
    ensures cs[|fates|..][0] == cs[|fates|] && cs[|fates|..][1..] == cs[|fates| + 1..]
  {
    assert (fates + [lands])[..|fates|] == fates;
  }

  lemma {:induction false} ApplyOneMore(t: Tier, cs: seq<Change>, c: Change)
    ensures ApplyAll(t, cs + [c]) == Apply(ApplyAll(t, cs), c)
  {
    assert (cs + [c])[..|cs|] == cs;
  }

  // ----- Keys -----

  function At(t: Tier, key: string): Option<Json> {
    if key in t then Some(t[key]) else None
  }

  /** What the changes leave under a key: the last of them for that key decides. */
  function Last(start: Option<Json>, cs: seq<Change>, key: string): Option<Json> {
    if cs == [] then start
    else if cs[|cs| - 1].key == key then cs[|cs| - 1].value
    else Last(start, cs[..|cs| - 1], key)
  }

  lemma {:induction false} ApplyAllAt(t: Tier, cs: seq<Change>, key: string)
    ensures At(ApplyAll(t, cs), key) == Last(At(t, key), cs, key)
  {
    if cs != [] {
      ApplyAllAt(t, cs[..|cs| - 1], key);
    }
  }

  /** The position of the last change to a key. */
  ghost predicate LastAt(cs: seq<Change>, key: string, n: nat) {
    n < |cs| && cs[n].key == key && forall m :: n < m < |cs| ==> cs[m].key != key
  }

  /**
    If localStorage refuses nothing, a key's two copies agree as soon as the newest statement on it has
    taken effect, whatever was lost before; and without a change to it they stay as they were.
  */
  lemma {:induction false} TiersAgree(s: State, evs: seq<Event>, key: string)
    requires s.queue == [] && At(s.local, key) == At(s.sql, key)
    requires Kept(evs) == Made(evs)
    requires (forall n :: 0 <= n < |Made(evs)| ==> Made(evs)[n].key != key)
             || (exists n: nat :: LastAt(Made(evs), key, n) && n < |Fates(evs)| && Fates(evs)[n])
    ensures At(Run(s, evs).local, key) == At(Run(s, evs).sql, key)
  {
    RunIs(s, evs);
    var made, fates := Made(evs), Fates(evs);
    ApplyAllAt(s.local, made, key);
    ApplyAllAt(s.sql, Landed(made, fates), key);
    if n: nat :| LastAt(made, key, n) && n < |fates| && fates[n] {
      LastIs(At(s.local, key), made, key, n);
      LandedLast(At(s.sql, key), made, fates, key, n);
    } else {
      LastNone(At(s.local, key), made, key);
      LandedNone(At(s.sql, key), made, fates, key);
    }
  }

  lemma {:induction false} LastIs(start: Option<Json>, cs: seq<Change>, key: string, n: nat)
    requires LastAt(cs, key, n)
    ensures Last(start, cs, key) == cs[n].value
  {
    if n < |cs| - 1 {
      LastIs(start, cs[..|cs| - 1], key, n);
    }
  }

  lemma {:induction false} LastNone(start: Option<Json>, cs: seq<Change>, key: string)
    requires forall n :: 0 <= n < |cs| ==> cs[n].key != key
    ensures Last(start, cs, key) == start
  {
    if cs != [] {
      LastNone(start, cs[..|cs| - 1], key);
    }
  }

  lemma {:induction false} LastSkips(start: Option<Json>, cs: seq<Change>, c: Change, key: string)
    ensures Last(start, cs + [c], key) == if c.key == key then c.value else Last(start, cs, key)
  {
    assert (cs + [c])[..|cs|] == cs;
  }

  lemma {:induction false} LandedLast(start: Option<Json>, cs: seq<Change>, fates: seq<bool>, key: string, n: nat)
    requires |fates| <= |cs| && n < |fates| && fates[n]
    requires cs[n].key == key && forall m :: n < m < |fates| ==> cs[m].key != key
    ensures Last(start, Landed(cs, fates), key) == cs[n].value
  {
    var m := |fates| - 1;
    if fates[m] {
      LastSkips(start, Landed(cs, fates[..m]), cs[m], key);
    }
    if n < m {
      LandedLast(start, cs, fates[..m], key, n);
    }
  }

  lemma {:induction false} LandedNone(start: Option<Json>, cs: seq<Change>, fates: seq<bool>, key: string)
    requires |fates| <= |cs| && forall m :: 0 <= m < |cs| ==> cs[m].key != key
    ensures Last(start, Landed(cs, fates), key) == start
  {
    if fates != [] {
      var m := |fates| - 1;
      LandedNone(start, cs, fates[..m], key);
      if fates[m] {
        LastSkips(start, Landed(cs, fates[..m]), cs[m], key);
      }
    }
  }

  /**
    A load answers the newest change to its key, as soon as that has taken effect: from SQLite the saved value,
    from localStorage too unless it is `null`; a deleted key and a `null` there answer the fallback.
  */
  lemma {:induction false} LoadsNewest(s: State, evs: seq<Event>, key: string, fallback: Json, n: nat)
    requires s.queue == [] && Kept(evs) == Made(evs) && LastAt(Made(evs), key, n)
    requires n < |Fates(evs)| && Fates(evs)[n]
    ensures var saved := Made(evs)[n].value;
            && Load(Run(s, evs), key, fallback, true) == (if saved.Some? then saved.value else fallback)
            && Load(Run(s, evs), key, fallback, false)
               == (if saved.Some? && saved.value != Null then saved.value else fallback)
  {
    RunIs(s, evs);
    var made, fates := Made(evs), Fates(evs);
    ApplyAllAt(s.local, made, key);
    ApplyAllAt(s.sql, Landed(made, fates), key);
    LastIs(At(s.local, key), made, key, n);
    LandedLast(At(s.sql, key), made, fates, key, n);
  }

  /** Until then a load that reaches SQLite answers what SQLite had, and one that does not already answers the new value. */
  lemma {:induction false} LoadsOld(s: State, key: string, saved: Json, fallback: Json)
    ensures var next := Step(s, Make(Change(key, Some(saved)), true));
            && (key in s.sql ==> Load(next, key, fallback, true) == s.sql[key])
            && (key !in s.sql ==> Load(next, key, fallback, true) == if saved != Null then saved else fallback)
            && Load(next, key, fallback, false) == if saved != Null then saved else fallback
  {
  }

  /** Where the copies agree, a fallback load answers the same, except that a stored `null` becomes the fallback. */
  lemma {:induction false} FallbackIff(s: State, key: string, fallback: Json)
    requires At(s.local, key) == At(s.sql, key)
    ensures Load(s, key, fallback, true) == Load(s, key, fallback, false)
       <==> At(s.sql, key) != Some(Null) || fallback == Null
  {
  }

  /**
    When nothing was refused or lost and nothing is under way, the two tiers are equal, so every load
    answers the same with and without SQLite, unless `null` was stored.
  */
  lemma {:induction false} DrainedTiersEqual(s: State, evs: seq<Event>, key: string, fallback: Json)
    requires s.queue == [] && s.local == s.sql
    requires forall n :: 0 <= n < |evs| ==> evs[n] != Lose && (evs[n].Make? ==> evs[n].localOk)
    requires Run(s, evs).queue == []
    ensures var t := Run(s, evs);
            && t.local == t.sql
            && (Load(t, key, fallback, true) == Load(t, key, fallback, false)
                <==> At(t.sql, key) != Some(Null) || fallback == Null)
  {
    hide Run, Apply;
    RunIs(s, evs);
    AllKept(evs);
    AllLand(Made(evs), Fates(evs));
    assert Made(evs)[..|Fates(evs)|] == Made(evs);
    FallbackIff(Run(s, evs), key, fallback);
  }

  lemma {:induction false} AllKept(evs: seq<Event>)
    requires forall n :: 0 <= n < |evs| ==> evs[n] != Lose && (evs[n].Make? ==> evs[n].localOk)
    ensures Kept(evs) == Made(evs) && forall n :: 0 <= n < |Fates(evs)| ==> Fates(evs)[n]
  {
    if evs != [] {
      AllKept(evs[..|evs| - 1]);
    }
  }

  lemma {:induction false} AllLand(cs: seq<Change>, fates: seq<bool>)
    requires |fates| <= |cs| && forall n :: 0 <= n < |fates| ==> fates[n]
    ensures Landed(cs, fates) == cs[..|fates|]
  {
    if fates != [] {
      AllLand(cs, fates[..|fates| - 1]);
    }
  }

  /** A saved `null` is the one value that a load from SQLite and a load from localStorage tell apart. */
  lemma {:induction false} NullIsLost(key: string, fallback: Json)
    requires fallback != Null
    ensures var s := Run(State(map[], map[], []), [Make(Change(key, Some(Null)), true), Land]);
            s.local == s.sql && Load(s, key, fallback, true) == Null && Load(s, key, fallback, false) == fallback
  {
    var evs := [Make(Change(key, Some(Null)), true), Land];
    assert evs[..1] == [evs[0]] && evs[..1][..0] == [];
    assert Run(State(map[], map[], []), evs[..1]) == Step(Run(State(map[], map[], []), []), evs[0]);
  }

  // ----- The module's state -----

  /** Both stores and the statements under way. */
  class Layout {
    var local: Tier
    var sql: Tier
    var queue: seq<Change>

    constructor (local: Tier, sql: Tier)
      ensures View() == State(local, sql, [])
    {
      this.local := local;
      this.sql := sql;
      queue := [];
    }

    ghost function View(): State
      reads this
    {
      State(local, sql, queue)
    }

    /** localStorage first, then the statement. */
    method Save(key: string, value: Json, localOk: bool)
      modifies this
      ensures View() == Step(old(View()), Make(Change(key, Some(value)), localOk))
    {
      if localOk {
        local := local[key := value];
      }
      queue := queue + [Change(key, Some(value))];
    }

    method Delete(key: string, localOk: bool)
      modifies this
      ensures View() == Step(old(View()), Make(Change(key, None), localOk))
    {
      if localOk {
        local := local - {key};
      }
      queue := queue + [Change(key, None)];
    }

    /** The oldest statement completes, or fails. */
    method Settle(lands: bool)
      modifies this
      ensures View() == Step(old(View()), if lands then Land else Lose)
    {
      if queue != [] {
        if lands {
          sql := Apply(sql, queue[0]);
        }
        queue := queue[1..];
      }
    }

    method LoadState(key: string, fallback: Json, answers: bool) returns (value: Json)
      ensures value == Load(View(), key, fallback, answers)
    {
      if answers {
        if key in sql {
          return sql[key];
        }
      }
      if key in local {
        var shadow := local[key];
        if shadow != Null {
          return shadow;
        }
      }
      return fallback;
    }
  }
}
