/**
 Callers of one key share one execution. They interleave freely: a step is whatever happens
 between two points where another caller may get in. Results, exceptions included, are
 values of the type parameter.
 */
module SingleFlight {
  import opened Wrappers

  /** The shared work: not started, running, or over. */
  datatype Phase<R> = Created | Running | Done(result: R)

  /** A lazy value and its task; `hooked` once the removal is to follow its completion. */
  datatype Flight<R> = Flight(key: string, phase: Phase<R>, starts: nat, hooked: bool, removed: bool)

  /** Where one call stands: about to force the lazy value, to hook its removal, waiting, or over. */
  datatype Caller<R> =
    | Forcing(flight: nat, creator: bool)
    | Hooking(flight: nat)
    | Waiting(flight: nat)
    | Returned(flight: nat, result: R)
    | Cancelled(flight: nat)

  datatype State<R> = State(inFlight: map<string, nat>, flights: seq<Flight<R>>, callers: map<nat, Caller<R>>)

  datatype Action<R> =
    | Arrive(caller: nat, key: string)
    | Force(caller: nat)
    | Hook(caller: nat)
    | Complete(flight: nat, result: R)
    | Remove(flight: nat)
    | Return(caller: nat)
    | Cancel(caller: nat)

  // ----- The steps

  predicate Enabled<R>(s: State<R>, a: Action<R>) {
    match a
    case Arrive(c, _) => c !in s.callers
    case Force(c) => c in s.callers && s.callers[c].Forcing? && s.callers[c].flight < |s.flights|
    case Hook(c) => c in s.callers && s.callers[c].Hooking? && s.callers[c].flight < |s.flights|
    case Complete(f, _) => f < |s.flights| && s.flights[f].phase.Running?
    case Remove(f) => f < |s.flights| && s.flights[f].phase.Done? && s.flights[f].hooked && !s.flights[f].removed
    case Return(c) =>
      c in s.callers && s.callers[c].Waiting? && s.callers[c].flight < |s.flights|
      && s.flights[s.callers[c].flight].phase.Done?
    case Cancel(c) => c in s.callers && s.callers[c].Waiting?
  }

  function Next<R>(s: State<R>, a: Action<R>): State<R>
    requires Enabled(s, a)
  {
    match a
    case Arrive(c, key) =>
      if key in s.inFlight then s.(callers := s.callers[c := Forcing(s.inFlight[key], false)])
      else
        var f := |s.flights|;
        State(s.inFlight[key := f], s.flights + [Flight(key, Created, 0, false, false)],
              s.callers[c := Forcing(f, true)])
    case Force(c) =>
      var f := s.callers[c].flight;
      var flight := s.flights[f];
      var flight' := if flight.phase.Created? then flight.(phase := Running, starts := flight.starts + 1) else flight;
      s.(flights := s.flights[f := flight'],
         callers := s.callers[c := if s.callers[c].creator then Hooking(f) else Waiting(f)])
    case Hook(c) =>
      var f := s.callers[c].flight;
      s.(flights := s.flights[f := s.flights[f].(hooked := true)], callers := s.callers[c := Waiting(f)])
    case Complete(f, r) => s.(flights := s.flights[f := s.flights[f].(phase := Done(r))])
    case Remove(f) =>
      var key := s.flights[f].key;
      State(if key in s.inFlight && s.inFlight[key] == f then s.inFlight - {key} else s.inFlight,
            s.flights[f := s.flights[f].(removed := true)], s.callers)
    case Return(c) =>
      var f := s.callers[c].flight;
      s.(callers := s.callers[c := Returned(f, s.flights[f].phase.result)])
    case Cancel(c) => s.(callers := s.callers[c := Cancelled(s.callers[c].flight)])
  }

  // ----- What every interleaving keeps

  ghost predicate FlightOk<R>(s: State<R>, f: nat)
    requires f < |s.flights|
  {
    var flight := s.flights[f];
    && (flight.removed || (flight.key in s.inFlight && s.inFlight[flight.key] == f))
    && (flight.removed ==> flight.phase.Done? && flight.hooked)
    && (flight.hooked ==> !flight.phase.Created?)
    && flight.starts == (if flight.phase.Created? then 0 else 1)
  }

  ghost predicate CallerOk<R>(s: State<R>, caller: Caller<R>) {
    && caller.flight < |s.flights|
    && var flight := s.flights[caller.flight];
       && (caller.Forcing? || !flight.phase.Created?)
       && (caller.Forcing? && caller.creator ==> !flight.hooked)
       && (caller.Hooking? ==> !flight.hooked)
       && (caller.Returned? ==> flight.phase == Done(caller.result))
  }

  /** The call that created a flight, until it has hooked the flight's removal. */
  predicate Owns<R>(caller: Caller<R>, f: nat) {
    caller.flight == f && (caller.Hooking? || (caller.Forcing? && caller.creator))
  }

  ghost predicate HasOwner<R>(s: State<R>, f: nat) {
    exists c :: c in s.callers && Owns(s.callers[c], f)
  }

  ghost predicate FlightsOk<R>(s: State<R>) {
    && (forall f {:trigger FlightOk(s, f)} :: 0 <= f < |s.flights| ==> FlightOk(s, f))
    && (forall f {:trigger HasOwner(s, f)} :: 0 <= f < |s.flights| && !s.flights[f].hooked ==> HasOwner(s, f))
  }

  ghost predicate MapOk<R>(s: State<R>) {
    forall key :: key in s.inFlight ==>
      s.inFlight[key] < |s.flights| && s.flights[s.inFlight[key]].key == key && !s.flights[s.inFlight[key]].removed
  }

  ghost predicate CallersOk<R>(s: State<R>) {
    && (forall c :: c in s.callers ==> CallerOk(s, s.callers[c]))
    && (forall c, d, f :: c in s.callers && d in s.callers && Owns(s.callers[c], f) && Owns(s.callers[d], f) ==> c == d)
  }

  ghost predicate Valid<R>(s: State<R>) {
    MapOk(s) && FlightsOk(s) && CallersOk(s)
  }

  function Init<R>(): State<R> {
    State(map[], [], map[])
  }

  /** A call that owned a flight before and still does keeps it owned. */
  lemma OwnerCarriesOver<R>(s: State<R>, t: State<R>, f: nat)
    requires HasOwner(s, f)
    requires forall c :: c in s.callers && Owns(s.callers[c], f) ==> c in t.callers && Owns(t.callers[c], f)
    ensures HasOwner(t, f)
  {
    var c :| c in s.callers && Owns(s.callers[c], f);
    assert Owns(t.callers[c], f);
  }

  lemma ArriveKeepsValid<R>(s: State<R>, c: nat, key: string)
    requires Valid(s) && Enabled(s, Arrive(c, key))
    ensures Valid(Next(s, Arrive(c, key)))
  {
    var t := Next(s, Arrive(c, key));
    forall f | 0 <= f < |t.flights| ensures FlightOk(t, f) && (!t.flights[f].hooked ==> HasOwner(t, f)) {
      if f < |s.flights| {
        assert FlightOk(s, f);
        if !t.flights[f].hooked {
          OwnerCarriesOver(s, t, f);
        }
      } else {
        assert Owns(t.callers[c], f);
      }
    }
    forall d | d in t.callers ensures CallerOk(t, t.callers[d]) {
      if d != c {
        assert CallerOk(s, s.callers[d]);
      } else if key in s.inFlight {
        assert FlightOk(s, s.inFlight[key]);
      }
    }
    forall d | d in s.callers ensures !Owns(s.callers[d], |s.flights|) {
      assert CallerOk(s, s.callers[d]);
    }
  }

  /** One flight changes, and at most one call: the other calls and flights stay well formed. */
  lemma ForceKeepsValid<R>(s: State<R>, c: nat)
    requires Valid(s) && Enabled(s, Force(c))
    ensures Valid(Next(s, Force(c)))
  {
    var t, g := Next(s, Force(c)), s.callers[c].flight;
    assert CallerOk(s, s.callers[c]) && FlightOk(s, g);
    forall f | 0 <= f < |t.flights| ensures FlightOk(t, f) && (!t.flights[f].hooked ==> HasOwner(t, f)) {
      assert FlightOk(s, f);
      if !t.flights[f].hooked {
        OwnerCarriesOver(s, t, f);
      }
    }
    forall d | d in t.callers ensures CallerOk(t, t.callers[d]) {
      assert CallerOk(s, s.callers[d]);
    }
    assert forall d, f :: d in t.callers && Owns(t.callers[d], f) ==> Owns(s.callers[d], f);
  }

  lemma HookKeepsValid<R>(s: State<R>, c: nat)
    requires Valid(s) && Enabled(s, Hook(c))
    ensures Valid(Next(s, Hook(c)))
  {
    var t, g := Next(s, Hook(c)), s.callers[c].flight;
    assert CallerOk(s, s.callers[c]) && FlightOk(s, g) && Owns(s.callers[c], g);
    forall f | 0 <= f < |t.flights| ensures FlightOk(t, f) && (!t.flights[f].hooked ==> HasOwner(t, f)) {
      assert FlightOk(s, f);
      if !t.flights[f].hooked {
        OwnerCarriesOver(s, t, f);
      }
    }
    forall d | d in t.callers ensures CallerOk(t, t.callers[d]) {
      assert CallerOk(s, s.callers[d]);
      assert d != c ==> !Owns(s.callers[d], g);
    }
    assert forall d, f :: d in t.callers && Owns(t.callers[d], f) ==> Owns(s.callers[d], f);
  }

  lemma CompleteKeepsValid<R>(s: State<R>, g: nat, r: R)
    requires Valid(s) && Enabled(s, Complete(g, r))
    ensures Valid(Next(s, Complete(g, r)))
  {
    var t := Next(s, Complete(g, r));
    forall f | 0 <= f < |t.flights| ensures FlightOk(t, f) && (!t.flights[f].hooked ==> HasOwner(t, f)) {
      assert FlightOk(s, f);
      if !t.flights[f].hooked {
        OwnerCarriesOver(s, t, f);
      }
    }
    forall d | d in t.callers ensures CallerOk(t, t.callers[d]) {
      assert CallerOk(s, s.callers[d]);
    }
  }

  lemma RemoveKeepsValid<R>(s: State<R>, g: nat)
    requires Valid(s) && Enabled(s, Remove(g))
    ensures Valid(Next(s, Remove(g)))
  {
    var t := Next(s, Remove(g));
    assert FlightOk(s, g);
    forall f | 0 <= f < |t.flights| ensures FlightOk(t, f) && (!t.flights[f].hooked ==> HasOwner(t, f)) {
      assert FlightOk(s, f);
      if !t.flights[f].hooked {
        OwnerCarriesOver(s, t, f);
      }
    }
    forall d | d in t.callers ensures CallerOk(t, t.callers[d]) {
      assert CallerOk(s, s.callers[d]);
    }
  }

  /** Returning and cancelling touch nothing but the call's own record. */
  lemma LeaveKeepsValid<R>(s: State<R>, c: nat, after: Caller<R>)
    requires Valid(s) && c in s.callers && s.callers[c].Waiting? && after.flight == s.callers[c].flight
    requires after.Cancelled? || (after.Returned? && s.callers[c].flight < |s.flights|
                                  && s.flights[after.flight].phase == Done(after.result))
    ensures Valid(s.(callers := s.callers[c := after]))
  {
    var t := s.(callers := s.callers[c := after]);
    forall f | 0 <= f < |t.flights| ensures FlightOk(t, f) && (!t.flights[f].hooked ==> HasOwner(t, f)) {
      assert FlightOk(s, f);
      if !t.flights[f].hooked {
        OwnerCarriesOver(s, t, f);
      }
    }
    forall d | d in t.callers ensures CallerOk(t, t.callers[d]) {
      assert CallerOk(s, s.callers[d]);
    }
    assert forall d, f :: d in t.callers && Owns(t.callers[d], f) ==> Owns(s.callers[d], f);
  }

  lemma StepKeepsValid<R>(s: State<R>, a: Action<R>)
    requires Valid(s) && Enabled(s, a)
    ensures Valid(Next(s, a))
  {
    hide Valid;
    match a
    case Arrive(c, key) => ArriveKeepsValid(s, c, key);
    case Force(c) => ForceKeepsValid(s, c);
    case Hook(c) => HookKeepsValid(s, c);
    case Complete(f, r) => CompleteKeepsValid(s, f, r);
    case Remove(f) => RemoveKeepsValid(s, f);
    case Return(c) =>
      LeaveKeepsValid(s, c, Returned(s.callers[c].flight, s.flights[s.callers[c].flight].phase.result));
    case Cancel(c) => LeaveKeepsValid(s, c, Cancelled(s.callers[c].flight));
  }

  // ----- Whole runs

  /** Every action is enabled when its turn comes. */
  predicate CanRun<R>(s: State<R>, actions: seq<Action<R>>)
    decreases |actions|
  {
    actions == [] || (Enabled(s, actions[0]) && CanRun(Next(s, actions[0]), actions[1..]))
  }

  function After<R>(s: State<R>, actions: seq<Action<R>>): State<R>
    requires CanRun(s, actions)
    decreases |actions|
  {
    if actions == [] then s else After(Next(s, actions[0]), actions[1..])
  }

  lemma {:induction false} RunKeepsValid<R>(s: State<R>, actions: seq<Action<R>>)
    requires Valid(s) && CanRun(s, actions)
    ensures Valid(After(s, actions))
    decreases |actions|
  {
    hide Valid;
    if actions != [] {
      StepKeepsValid(s, actions[0]);
      RunKeepsValid(Next(s, actions[0]), actions[1..]);
    }
  }

  lemma InitIsValid<R>()
    ensures Valid(Init<R>())
  {
  }

  /**
   In every interleaving, work not yet over is the map's entry for its key, so one key has
   at most one; and no factory is started twice.
   */
  lemma OneExecutionPerKey<R>(actions: seq<Action<R>>, f: nat, g: nat)
    requires CanRun(Init<R>(), actions)
    requires var s := After(Init<R>(), actions); f < |s.flights| && g < |s.flights|
    ensures var s := After(Init<R>(), actions);
            && s.flights[f].starts <= 1
            && (!s.flights[f].phase.Done? ==>
                  s.flights[f].key in s.inFlight && s.inFlight[s.flights[f].key] == f)
            && (!s.flights[f].phase.Done? && !s.flights[g].phase.Done? && s.flights[f].key == s.flights[g].key ==> f == g)
  {
    var s := After(Init<R>(), actions);
    InitIsValid<R>();
    RunKeepsValid(Init<R>(), actions);
    assert FlightOk(s, f) && FlightOk(s, g);
  }

  /** Every call that returned did so with its flight's one result. */
  lemma CallersShareTheResult<R>(actions: seq<Action<R>>, c: nat, d: nat)
    requires CanRun(Init<R>(), actions)
    requires var s := After(Init<R>(), actions);
             c in s.callers && s.callers[c].Returned? && d in s.callers && s.callers[d].Returned?
    ensures var s := After(Init<R>(), actions);
            && s.callers[c].flight < |s.flights| && s.flights[s.callers[c].flight].starts == 1
            && s.flights[s.callers[c].flight].phase == Done(s.callers[c].result)
            && (s.callers[c].flight == s.callers[d].flight ==> s.callers[c].result == s.callers[d].result)
  {
    var s := After(Init<R>(), actions);
    InitIsValid<R>();
    RunKeepsValid(Init<R>(), actions);
    assert CallerOk(s, s.callers[c]) && CallerOk(s, s.callers[d]);
    assert FlightOk(s, s.callers[c].flight);
  }

  /**
   The conditional removal always finds its own entry: no later flight can have been
   installed while this one is registered.
   */
  lemma RemovalFindsItself<R>(actions: seq<Action<R>>, f: nat)
    requires CanRun(Init<R>(), actions) && Enabled(After(Init<R>(), actions), Remove(f))
    ensures var s := After(Init<R>(), actions);
            s.flights[f].key in s.inFlight && s.inFlight[s.flights[f].key] == f
            && s.flights[f].key !in Next(s, Remove(f)).inFlight
  {
    InitIsValid<R>();
    RunKeepsValid(Init<R>(), actions);
    assert FlightOk(After(Init<R>(), actions), f);
  }

  /** No call waits for ever by design: its flight can complete, or the call can return. */
  lemma WaitersCanProceed<R>(actions: seq<Action<R>>, c: nat, r: R)
    requires CanRun(Init<R>(), actions)
    requires var s := After(Init<R>(), actions); c in s.callers && s.callers[c].Waiting?
    ensures var s := After(Init<R>(), actions);
            Enabled(s, Return(c)) || (Enabled(s, Complete(s.callers[c].flight, r))
                                      && Enabled(Next(s, Complete(s.callers[c].flight, r)), Return(c)))
  {
    var s := After(Init<R>(), actions);
    InitIsValid<R>();
    RunKeepsValid(Init<R>(), actions);
    assert CallerOk(s, s.callers[c]);
  }

  /** Work that is over leaves the map once the call that created it gets to its hook. */
  lemma FinishedFlightsGetRemoved<R>(actions: seq<Action<R>>, f: nat)
    requires CanRun(Init<R>(), actions)
    requires var s := After(Init<R>(), actions); f < |s.flights| && s.flights[f].phase.Done? && !s.flights[f].removed
    ensures var s := After(Init<R>(), actions);
            || Enabled(s, Remove(f))
            || (exists c :: Enabled(s, Force(c)) && Owns(s.callers[c], f))
            || (exists c :: Enabled(s, Hook(c)) && Owns(s.callers[c], f))
  {
    var s := After(Init<R>(), actions);
    InitIsValid<R>();
    RunKeepsValid(Init<R>(), actions);
    assert FlightOk(s, f);
    if !s.flights[f].hooked {
      assert HasOwner(s, f);
      var c :| c in s.callers && Owns(s.callers[c], f);
      assert Enabled(s, Force(c)) || Enabled(s, Hook(c));
    }
  }

  // ----- Cancelling

  function Actor<R>(a: Action<R>): Option<nat> {
    match a
    case Arrive(c, _) => Some(c)
    case Force(c) => Some(c)
    case Hook(c) => Some(c)
    case Complete(_, _) => None
    case Remove(_) => None
    case Return(c) => Some(c)
    case Cancel(c) => Some(c)
  }

  /** The two states differ at most in how far the one call has got. */
  ghost predicate SameButFor<R>(c: nat, s: State<R>, t: State<R>) {
    && s.inFlight == t.inFlight && s.flights == t.flights
    && c in s.callers && c in t.callers && s.callers - {c} == t.callers - {c}
  }

  lemma SameCallers<R>(c: nat, s: State<R>, t: State<R>)
    requires SameButFor(c, s, t)
    ensures forall d :: d != c ==> (d in s.callers <==> d in t.callers)
    ensures forall d :: d != c && d in s.callers ==> s.callers[d] == t.callers[d]
  {
    forall d | d != c ensures d in s.callers <==> d in t.callers {
      assert d in s.callers - {c} <==> d in s.callers;
      assert d in t.callers - {c} <==> d in t.callers;
    }
    forall d | d != c && d in s.callers ensures s.callers[d] == t.callers[d] {
      assert s.callers[d] == (s.callers - {c})[d];
      assert t.callers[d] == (t.callers - {c})[d];
    }
  }

  lemma StepIgnoresOthers<R>(c: nat, s: State<R>, t: State<R>, a: Action<R>)
    requires SameButFor(c, s, t) && Enabled(s, a) && Actor(a) != Some(c)
    ensures Enabled(t, a) && SameButFor(c, Next(s, a), Next(t, a))
  {
    SameCallers(c, s, t);
    var s', t' := Next(s, a), Next(t, a);
    assert s'.callers - {c} == t'.callers - {c};
  }

  lemma {:induction false} RunIgnoresOthers<R>(c: nat, s: State<R>, t: State<R>, actions: seq<Action<R>>)
    requires SameButFor(c, s, t) && CanRun(s, actions)
    requires forall a :: a in actions ==> Actor(a) != Some(c)
    ensures CanRun(t, actions) && SameButFor(c, After(s, actions), After(t, actions))
    decreases |actions|
  {
    if actions != [] {
      StepIgnoresOthers(c, s, t, actions[0]);
      RunIgnoresOthers(c, Next(s, actions[0]), Next(t, actions[0]), actions[1..]);
    }
  }

  /**
   A call that gives up changes nothing for anybody else: whatever happens after it could
   have happened without it, leaving the same map, flights and other calls.
   */
  lemma CancellingIsInvisible<R>(s: State<R>, c: nat, actions: seq<Action<R>>)
    requires Enabled(s, Cancel(c)) && CanRun(Next(s, Cancel(c)), actions)
    requires forall a :: a in actions ==> Actor(a) != Some(c)
    ensures CanRun(s, actions) && SameButFor(c, After(Next(s, Cancel(c)), actions), After(s, actions))
  {
    assert Next(s, Cancel(c)).callers - {c} == s.callers - {c};
    RunIgnoresOthers(c, Next(s, Cancel(c)), s, actions);
  }

  // ----- The shared object

  /** The dictionary of lazy values, the values themselves, and the calls in progress. */
  class SingleFlight<R> {
    var inFlight: map<string, nat>
    var flights: seq<Flight<R>>
    var callers: map<nat, Caller<R>>

    ghost function View(): State<R>
      reads this
    {
      State(inFlight, flights, callers)
    }

    constructor ()
      ensures View() == Init() && Valid(View())
    {
      inFlight, flights, callers := map[], [], map[];
      new;
      InitIsValid<R>();
    }

    /** `GetOrAdd`: joins the entry under the key, or installs a new one. */
    method GetOrAdd(caller: nat, key: string) returns (flight: nat, created: bool)
      requires Valid(View()) && caller !in callers
      modifies this
      ensures View() == Next(old(View()), Arrive(caller, key)) && Valid(View())
      ensures created == (key !in old(inFlight)) && key in inFlight && flight == inFlight[key]
    {
      StepKeepsValid(View(), Arrive(caller, key));
      created := key !in inFlight;
      if created {
        flight := |flights|;
        inFlight := inFlight[key := flight];
        flights := flights + [Flight(key, Created, 0, false, false)];
      } else {
        flight := inFlight[key];
      }
      callers := callers[caller := Forcing(flight, created)];
    }

    /** `lazy.Value`: whoever comes first starts the factory. */
    method ForceValue(caller: nat) returns (started: bool)
      requires Valid(View()) && Enabled(View(), Force(caller))
      modifies this
      ensures View() == Next(old(View()), Force(caller)) && Valid(View())
      ensures started == old(flights)[old(callers)[caller].flight].phase.Created?
    {
      StepKeepsValid(View(), Force(caller));
      var f := callers[caller].flight;
      started := flights[f].phase.Created?;
      if started {
        flights := flights[f := flights[f].(phase := Running, starts := flights[f].starts + 1)];
      }
      callers := callers[caller := if callers[caller].creator then Hooking(f) else Waiting(f)];
    }

    /** `ContinueWith`: the removal will follow the completion. */
    method HookRemoval(caller: nat)
      requires Valid(View()) && Enabled(View(), Hook(caller))
      modifies this
      ensures View() == Next(old(View()), Hook(caller)) && Valid(View())
    {
      StepKeepsValid(View(), Hook(caller));
      var f := callers[caller].flight;
      flights := flights[f := flights[f].(hooked := true)];
      callers := callers[caller := Waiting(f)];
    }

    method CompleteWork(flight: nat, result: R)
      requires Valid(View()) && Enabled(View(), Complete(flight, result))
      modifies this
      ensures View() == Next(old(View()), Complete(flight, result)) && Valid(View())
    {
      StepKeepsValid(View(), Complete(flight, result));
      flights := flights[flight := flights[flight].(phase := Done(result))];
    }

    /** `TryRemove` of exactly this entry. */
    method TryRemove(flight: nat) returns (removed: bool)
      requires Valid(View()) && Enabled(View(), Remove(flight))
      modifies this
      ensures View() == Next(old(View()), Remove(flight)) && Valid(View())
      ensures removed
    {
      StepKeepsValid(View(), Remove(flight));
      assert FlightOk(View(), flight);
      var key := flights[flight].key;
      removed := key in inFlight && inFlight[key] == flight;
      if removed {
        inFlight := inFlight - {key};
      }
      flights := flights[flight := flights[flight].(removed := true)];
    }

    /** The wait ends with the shared result. */
    method ReturnResult(caller: nat) returns (result: R)
      requires Valid(View()) && Enabled(View(), Return(caller))
      modifies this
      ensures View() == Next(old(View()), Return(caller)) && Valid(View())
      ensures flights[callers[caller].flight].phase == Done(result)
    {
      StepKeepsValid(View(), Return(caller));
      var f := callers[caller].flight;
      result := flights[f].phase.result;
      callers := callers[caller := Returned(f, result)];
    }

    /** The caller's own token ends its wait; nothing shared changes. */
    method CancelWait(caller: nat)
      requires Valid(View()) && Enabled(View(), Cancel(caller))
      modifies this`callers
      ensures View() == Next(old(View()), Cancel(caller)) && Valid(View())
    {
      StepKeepsValid(View(), Cancel(caller));
      callers := callers[caller := Cancelled(callers[caller].flight)];
    }
  }
}
