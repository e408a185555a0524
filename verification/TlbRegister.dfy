/** Registering a set of definitions that may need each other, in whatever order a map is iterated. */
module TlbRegister {
  import opened Counting
  import opened Wrappers
  import opened TlbTypes
  import opened TlbSettings
  import opened TlbCompile
  import opened TlbRegistry
  import opened TlbAgain
  import opened DefinitionRounds
  import opened Graphs

  /** One pass over the definitions: what is registered after it, and what was put off. */
  datatype RoundResult = Done(reg: Registry, left: set<string>) | Stopped(why: Outcome, reg: Registry)

  /** `order` is the order in which the pass meets the definitions. */
  ghost function Round(nm: Naming, reg: Registry, defs: Registry, order: seq<string>): RoundResult
    requires forall n :: n in order ==> n in defs
  {
    if order == [] then Done(reg, {})
    else
      var n := order[|order| - 1];
      match Round(nm, reg, defs, order[..|order| - 1])
      case Stopped(why, r) => Stopped(why, r)
      case Done(r, left) =>
        match Meaning(nm, r, defs[n])
        case Missing(_) => Done(r, left + {n})
        case Type(t) => if t == StructOf([]) then Stopped(Panic, r) else Done(r[n := defs[n]], left)
        case why => Stopped(why, r)
  }

  datatype RegisterResult = Registered(reg: Registry) | Unresolved(names: set<string>, reg: Registry) | Aborted(why: Outcome, reg: Registry)

  /** How registering ends after a pass, if no other pass follows. */
  function EndOf(p: RoundResult, depth: nat): Option<RegisterResult> {
    match p
    case Stopped(why, r) => Some(Aborted(why, r))
    case Done(r, left) =>
      if left == {} then Some(Registered(r)) else if depth > MAX_DEPTH then Some(Unresolved(left, r)) else None
  }

  /** Under the iteration orders of `schedule`, one per pass, registering `defs` gives `result`. */
  ghost predicate Registers(nm: Naming, reg: Registry, defs: Registry, depth: nat, schedule: seq<seq<string>>, result: RegisterResult)
    decreases |schedule|, 1
  {
    && schedule != [] && IsOrder(schedule[0], defs.Keys)
    && RegistersAfter(nm, defs, Round(nm, reg, defs, schedule[0]), depth, schedule[1..], result)
  }

  /** What follows a pass that ended as `p`. */
  ghost predicate RegistersAfter(nm: Naming, defs: Registry, p: RoundResult, depth: nat, rest: seq<seq<string>>, result: RegisterResult)
    decreases |rest|, 2
  {
    match EndOf(p, depth)
    case Some(end) => result == end
    case None => Registers(nm, p.reg, Restrict(defs, p.left), depth + 1, rest, result)
  }

  /** The order in which a map is iterated: any order of its keys. */
  method IterationOrder(names: set<string>) returns (order: seq<string>)
    ensures IsOrder(order, names)
  {
    order := [];
    var todo := names;
    while todo != {}
      invariant todo <= names
      invariant forall n :: n in order <==> n in names && n !in todo
      invariant Distinct(order)
      decreases |todo|
    {
      var n :| n in todo;
      assert (order + [n])[..|order|] == order;
      todo := todo - {n};
      order := order + [n];
    }
  }

  /** Over the definitions `met`, a pass registered `done` and put off `noDef`. */
  ghost predicate Passed(nm: Naming, reg: Registry, defs: Registry, met: seq<string>, now: Registry, noDef: Registry, done: set<string>) {
    && (forall n :: n in met ==> n in defs)
    && Grounded(now) && now == After(reg, defs, done)
    && Splits(defs, met, noDef, done)
    && Round(nm, reg, defs, met) == Done(now, noDef.Keys)
  }

  lemma OneMorePassed(nm: Naming, reg: Registry, defs: Registry, met: seq<string>, dn: string,
                      before: Registry, now: Registry, noDef: Registry, done: set<string>)
    requires Passed(nm, reg, defs, met, before, noDef, done) && dn in defs && dn !in met && Grounded(now)
    requires var t := Meaning(nm, before, defs[dn]);
             now == if t.Type? && t.ty != StructOf([]) then before[dn := defs[dn]] else before
    ensures forall n :: n in met + [dn] ==> n in defs
    ensures var t := Meaning(nm, before, defs[dn]);
            if t.Missing? then Passed(nm, reg, defs, met + [dn], now, noDef[dn := defs[dn]], done)
            else if t.Type? && t.ty != StructOf([]) then Passed(nm, reg, defs, met + [dn], now, noDef, done + {dn})
            else Round(nm, reg, defs, met + [dn]) == Stopped(if t.Type? then Panic else t, now)
  {
    RoundStep(nm, reg, defs, met, dn);
    AfterOneMore(reg, defs, done, dn);
    SplitsOn(defs, met, noDef, done, dn);
  }

  lemma PassedAll(nm: Naming, reg: Registry, defs: Registry, order: seq<string>, now: Registry, noDef: Registry, done: set<string>)
    requires Passed(nm, reg, defs, order, now, noDef, done) && IsOrder(order, defs.Keys) && Harmless(reg, defs)
    ensures Harmless(now, noDef)
  {
    assert done == defs.Keys - noDef.Keys;
    HarmlessRest(reg, defs, noDef.Keys);
  }

  class Definitions {
    var registered: Registry

    constructor ()
      ensures registered == map[] && Grounded(registered)
    {
      registered := map[];
      new;
      assert Ranks(CallsOf(registered), n => 0);
    }

    /**
     Compiles one definition and registers it if it is a struct with fields.  A name that is registered
     already must not be led back to by its new definition, or later calls may not return.
     */
    method RegisterOne(nm: Naming, dn: string, d: Schema) returns (dt: Outcome)
      requires Grounded(registered) && (dn in registered ==> !Leads(CallsOf(registered), Calls(d), dn))
      modifies this
      ensures dt == Meaning(nm, old(registered), d)
      ensures registered == if dt.Type? && dt.ty != StructOf([]) then old(registered)[dn := d] else old(registered)
      ensures Grounded(registered)
    {
      ghost var fuel := MeaningTerminates(nm, registered, d);
      AfterNothing(nm, registered, fuel, d, false);
      var t, _ := ParseDesc(nm, registered, fuel, [], d, false);
      dt := t;
      if dt.Type? && dt.ty != StructOf([]) {
        CompiledHasDeps(nm, registered, fuel, d);
        KeepsGrounded(registered, dn, d);
        registered := registered[dn := d];
      }
    }

    /** The body of the loop; `met` are the definitions met before, `reg` is what was registered before them. */
    method MeetOne(nm: Naming, definitions: Registry, dn: string, noDef: Registry, ghost reg: Registry, ghost met: seq<string>, ghost done: set<string>)
      returns (putOff: Registry, failed: Option<Outcome>, ghost did: set<string>)
      requires Harmless(reg, definitions) && dn in definitions && dn !in met
      requires Passed(nm, reg, definitions, met, registered, noDef, done)
      modifies this
      ensures Grounded(registered) && forall n :: n in met + [dn] ==> n in definitions
      ensures if failed.None? then Passed(nm, reg, definitions, met + [dn], registered, putOff, did)
              else Round(nm, reg, definitions, met + [dn]) == Stopped(failed.value, registered)
    {
      HarmlessOne(reg, definitions, done, dn);
      ghost var before := registered;
      var dt := RegisterOne(nm, dn, definitions[dn]);
      OneMorePassed(nm, reg, definitions, met, dn, before, registered, noDef, done);
      putOff, failed, did := noDef, None, done;
      if dt.Missing? {
        putOff := noDef[dn := definitions[dn]];
      } else if !dt.Type? || dt.ty == StructOf([]) {
        failed := Some(if dt.Type? then Panic else dt);
      } else {
        did := done + {dn};
      }
    }

    /** The loop over the definitions; what misses a definition is put off. */
    method OnePass(nm: Naming, definitions: Registry, order: seq<string>)
      returns (noDef: Registry, failed: Option<Outcome>)
      requires Grounded(registered) && Harmless(registered, definitions) && IsOrder(order, definitions.Keys)
      modifies this
      ensures Grounded(registered)
      ensures failed.None? ==> noDef == Restrict(definitions, noDef.Keys) && Harmless(registered, noDef)
      ensures Round(nm, old(registered), definitions, order)
           == if failed.Some? then Stopped(failed.value, registered) else Done(registered, noDef.Keys)
    {
      noDef, failed := map[], None;
      ghost var reg, done := registered, {};
      RestrictNone(reg, definitions);
      for i := 0 to |order|
        invariant failed.None? && Passed(nm, reg, definitions, order[..i], registered, noDef, done)
      {
        DistinctAt(order, i);
        noDef, failed, done := MeetOne(nm, definitions, order[i], noDef, reg, order[..i], done);
        if failed.Some? {
          AbortedWhatever(nm, reg, definitions, order, i + 1);
          return;
        }
      }
      AllOf(order);
      PassedAll(nm, reg, definitions, order, registered, noDef, done);
    }

    /** Whether registering ends after a pass, and how. */
    method Conclude(noDef: Registry, failed: Option<Outcome>, depth: nat) returns (end: Option<RegisterResult>)
      ensures end == EndOf(if failed.Some? then Stopped(failed.value, registered) else Done(registered, noDef.Keys), depth)
    {
      if failed.Some? {
        return Some(Aborted(failed.value, registered));
      }
      if noDef.Keys == {} {
        return Some(Registered(registered));
      }
      if depth > MAX_DEPTH {
        return Some(Unresolved(noDef.Keys, registered));
      }
      end := None;
    }

    /** One pass, and whether registering ends with it; what is left otherwise is put off. */
    method PassAndConclude(nm: Naming, definitions: Registry, depth: nat)
      returns (noDef: Registry, end: Option<RegisterResult>, ghost order: seq<string>)
      requires Grounded(registered) && Harmless(registered, definitions)
      modifies this
      ensures Grounded(registered) && IsOrder(order, definitions.Keys)
      ensures end.Some? ==> registered == end.value.reg && Registers(nm, old(registered), definitions, depth, [order], end.value)
      ensures end.None? ==>
                && Round(nm, old(registered), definitions, order) == Done(registered, noDef.Keys)
                && noDef == Restrict(definitions, noDef.Keys) && Harmless(registered, noDef)
                && EndOf(Done(registered, noDef.Keys), depth).None?
    {
      ghost var reg := registered;
      var names := IterationOrder(definitions.Keys);
      var failed;
      noDef, failed := OnePass(nm, definitions, names);
      end := Conclude(noDef, failed, depth);
      order := names;
      if end.Some? {
        PassEnds(nm, reg, definitions, depth, order, end.value);
      }
    }

    /** `schedule` records the orders in which the maps happened to be iterated. */
    method RegisterDefinitions(nm: Naming, definitions: Registry, depth: nat)
      returns (r: RegisterResult, ghost schedule: seq<seq<string>>)
      requires Grounded(registered) && Harmless(registered, definitions)
      modifies this
      ensures Registers(nm, old(registered), definitions, depth, schedule, r)
      ensures registered == r.reg && Grounded(registered)
      decreases MAX_DEPTH + 2 - depth
    {
      ghost var reg := registered;
      var noDef, end, order := PassAndConclude(nm, definitions, depth);
      if end.Some? {
        return end.value, [order];
      }
      ghost var mid, rest := registered, [];
      r, rest := RegisterDefinitions(nm, noDef, depth + 1);
      schedule := [order] + rest;
      PassGoesOn(nm, reg, definitions, depth, order, mid, noDef, rest, r);
    }
  }

  /** A pass after which registering ends. */
  lemma PassEnds(nm: Naming, reg: Registry, defs: Registry, depth: nat, order: seq<string>, result: RegisterResult)
    requires IsOrder(order, defs.Keys) && EndOf(Round(nm, reg, defs, order), depth) == Some(result)
    ensures Registers(nm, reg, defs, depth, [order], result)
  {
  }

  /** A pass, and what follows it. */
  lemma PassGoesOn(nm: Naming, reg: Registry, defs: Registry, depth: nat, order: seq<string>, mid: Registry, noDef: Registry,
                   rest: seq<seq<string>>, result: RegisterResult)
    requires IsOrder(order, defs.Keys) && Round(nm, reg, defs, order) == Done(mid, noDef.Keys) && noDef == Restrict(defs, noDef.Keys)
    requires EndOf(Done(mid, noDef.Keys), depth).None? && Registers(nm, mid, noDef, depth + 1, rest, result)
    ensures Registers(nm, reg, defs, depth, [order] + rest, result)
  {
    assert ([order] + rest)[1..] == rest;
  }

  lemma RoundStep(nm: Naming, reg: Registry, defs: Registry, order: seq<string>, n: string)
    requires forall m :: m in order ==> m in defs
    requires n in defs && Round(nm, reg, defs, order).Done?
    ensures forall m :: m in order + [n] ==> m in defs
    ensures var before := Round(nm, reg, defs, order);
            var t := Meaning(nm, before.reg, defs[n]);
            Round(nm, reg, defs, order + [n]) ==
              if t.Missing? then Done(before.reg, before.left + {n})
              else if t.Type? && t.ty != StructOf([]) then Done(before.reg[n := defs[n]], before.left)
              else Stopped(if t.Type? then Panic else t, before.reg)
  {
    var longer := order + [n];
    assert longer[..|longer| - 1] == order && longer[|longer| - 1] == n;
  }

  /** A pass that stops does not meet the definitions after that. */
  lemma {:induction false} AbortedWhatever(nm: Naming, reg: Registry, defs: Registry, order: seq<string>, i: nat)
    requires i <= |order| && forall n :: n in order ==> n in defs
    requires Round(nm, reg, defs, order[..i]).Stopped?
    ensures Round(nm, reg, defs, order) == Round(nm, reg, defs, order[..i])
    decreases |order|
  {
    if i < |order| {
      assert order[..|order| - 1][..i] == order[..i];
      AbortedWhatever(nm, reg, defs, order[..|order| - 1], i);
    } else {
      assert order[..i] == order;
    }
  }
}
