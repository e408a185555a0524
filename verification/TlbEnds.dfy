/** How registering any definitions ends, sound or not: what is registered by then, and what it ended for. */
module TlbEnds {
  import opened Counting
  import opened TlbTypes
  import opened TlbSettings
  import opened TlbCompile
  import opened TlbRegistry
  import opened TlbAgain
  import opened DefinitionRounds
  import opened TlbRegister
  import opened Wrappers

  /** Compiling fails, and not for a missing definition, or gives a struct without fields, of which the first is then asked for. */
  ghost predicate FailsFor(nm: Naming, reg: Registry, schema: Schema, why: Outcome) {
    if Meaning(nm, reg, schema) == Type(StructOf([])) then why == Panic
    else why == Meaning(nm, reg, schema) && !why.Type? && !why.Missing?
  }

  ghost predicate SomeFails(nm: Naming, reg: Registry, defs: Registry, names: set<string>, why: Outcome) {
    exists n :: n in names && n in defs && FailsFor(nm, reg, defs[n], why)
  }

  /** Compiling gives a struct with fields. */
  ghost predicate HasFields(nm: Naming, reg: Registry, schema: Schema) {
    Meaning(nm, reg, schema).Type? && Meaning(nm, reg, schema) != Type(StructOf([]))
  }

  /** Some of the definitions are registered in `r` besides what was registered before. */
  ghost predicate Between(reg: Registry, defs: Registry, r: Registry) {
    exists part: set<string> :: part <= defs.Keys && r == After(reg, defs, part)
  }

  /** With some of the others registered, the definition gives a struct with fields. */
  ghost predicate Compiles(nm: Naming, reg: Registry, defs: Registry, n: string) {
    n in defs && exists r: Registry :: Between(reg, defs, r) && HasFields(nm, r, defs[n])
  }

  ghost predicate AllCompile(nm: Naming, reg: Registry, defs: Registry, names: set<string>) {
    forall n :: n in names ==> Compiles(nm, reg, defs, n)
  }

  /** Those `done` are registered, as they were given, and nothing else changed. */
  ghost predicate EndsWith(nm: Naming, reg: Registry, defs: Registry, done: set<string>, result: RegisterResult) {
    && done <= defs.Keys && result.reg == After(reg, defs, done) && AllCompile(nm, reg, defs, done)
    && (result.Registered? ==> done == defs.Keys)
    && (result.Unresolved? ==> result.names == defs.Keys - done && result.names != {})
    && (result.Aborted? ==> SomeFails(nm, result.reg, defs, defs.Keys - done, result.why))
  }

  /** A round over the names met: those in `done` are registered. */
  ghost predicate RoundEnds(nm: Naming, reg: Registry, defs: Registry, met: set<string>, done: set<string>, p: RoundResult) {
    && done <= met <= defs.Keys && p.reg == After(reg, defs, done) && AllCompile(nm, reg, defs, done)
    && (p.Done? ==> p.left == met - done)
    && (p.Stopped? ==> SomeFails(nm, p.reg, defs, defs.Keys - done, p.why))
  }

  lemma OneMoreInRound(nm: Naming, reg: Registry, defs: Registry, order: seq<string>, met: set<string>, n: string, before: set<string>)
    returns (done: set<string>)
    requires n in defs && n !in met && forall m :: m in order ==> m in defs
    requires RoundEnds(nm, reg, defs, met, before, Round(nm, reg, defs, order)) && Round(nm, reg, defs, order).Done?
    ensures forall m :: m in order + [n] ==> m in defs
    ensures RoundEnds(nm, reg, defs, met + {n}, done, Round(nm, reg, defs, order + [n]))
  {
    var r := Round(nm, reg, defs, order).reg;
    var t := Meaning(nm, r, defs[n]);
    RoundStep(nm, reg, defs, order, n);
    done := before;
    if t.Type? && t.ty != StructOf([]) {
      AfterOneMore(reg, defs, before, n);
      assert Between(reg, defs, r) && HasFields(nm, r, defs[n]);
      done := before + {n};
    } else if !t.Missing? {
      assert n in defs.Keys - done && FailsFor(nm, r, defs[n], if t.Type? then Panic else t);
    }
  }

  lemma {:induction false} RoundKeeps(nm: Naming, reg: Registry, defs: Registry, order: seq<string>) returns (done: set<string>)
    requires Distinct(order) && forall n :: n in order ==> n in defs
    ensures RoundEnds(nm, reg, defs, (set n | n in order), done, Round(nm, reg, defs, order))
  {
    if order == [] {
      done := {};
      RestrictNone(reg, defs);
    } else {
      var init, n := order[..|order| - 1], order[|order| - 1];
      assert order == init + [n];
      done := RoundKeeps(nm, reg, defs, init);
      assert (set m | m in order) == (set m | m in init) + {n};
      if Round(nm, reg, defs, init).Done? {
        done := OneMoreInRound(nm, reg, defs, init, (set m | m in init), n, done);
      }
    }
  }

  lemma NothingLeft(names: set<string>, done: set<string>)
    requires done <= names && names - done == {}
    ensures done == names
  {
    assert forall n :: n in names ==> n in done || n in names - done;
  }

  /** What a later round registers, of what an earlier one put off. */
  lemma AfterLater(reg: Registry, defs: Registry, before: set<string>, done: set<string>)
    requires before <= defs.Keys && done <= defs.Keys - before
    ensures After(After(reg, defs, before), Restrict(defs, defs.Keys - before), done) == After(reg, defs, before + done)
  {
  }

  lemma LaterBetween(reg: Registry, defs: Registry, before: set<string>, r: Registry)
    requires before <= defs.Keys && Between(After(reg, defs, before), Restrict(defs, defs.Keys - before), r)
    ensures Between(reg, defs, r)
  {
    var part: set<string> :| part <= defs.Keys - before && r == After(After(reg, defs, before), Restrict(defs, defs.Keys - before), part);
    AfterLater(reg, defs, before, part);
  }

  lemma LaterCompiles(nm: Naming, reg: Registry, defs: Registry, before: set<string>, n: string)
    requires before <= defs.Keys
    requires Compiles(nm, After(reg, defs, before), Restrict(defs, defs.Keys - before), n)
    ensures Compiles(nm, reg, defs, n)
  {
    var r: Registry :| Between(After(reg, defs, before), Restrict(defs, defs.Keys - before), r) && HasFields(nm, r, defs[n]);
    LaterBetween(reg, defs, before, r);
  }

  lemma LaterCompileToo(nm: Naming, reg: Registry, defs: Registry, before: set<string>, done: set<string>)
    requires before <= defs.Keys
    requires AllCompile(nm, After(reg, defs, before), Restrict(defs, defs.Keys - before), done)
    ensures AllCompile(nm, reg, defs, done)
  {
    forall n | n in done
      ensures Compiles(nm, reg, defs, n)
    {
      LaterCompiles(nm, reg, defs, before, n);
    }
  }

  lemma LaterEndsToo(nm: Naming, reg: Registry, defs: Registry, before: set<string>, done: set<string>, result: RegisterResult)
    requires before <= defs.Keys
    requires EndsWith(nm, After(reg, defs, before), Restrict(defs, defs.Keys - before), done, result)
    requires AllCompile(nm, reg, defs, before)
    ensures EndsWith(nm, reg, defs, before + done, result)
  {
    var rest := Restrict(defs, defs.Keys - before);
    assert rest.Keys == defs.Keys - before;
    AfterLater(reg, defs, before, done);
    LaterCompileToo(nm, reg, defs, before, done);
    if result.Aborted? {
      var n :| n in rest.Keys - done && n in rest && FailsFor(nm, result.reg, rest[n], result.why);
      assert n in defs.Keys - (before + done) && FailsFor(nm, result.reg, defs[n], result.why);
    }
  }

  lemma EndsNow(nm: Naming, reg: Registry, defs: Registry, depth: nat, done: set<string>, p: RoundResult, result: RegisterResult)
    requires RoundEnds(nm, reg, defs, defs.Keys, done, p) && EndOf(p, depth) == Some(result)
    ensures EndsWith(nm, reg, defs, done, result)
  {
    if p.Done? && p.left == {} {
      NothingLeft(defs.Keys, done);
    }
  }

  /**
   Whatever the definitions, registering ends in one of three ways: all of them are registered; or those
   named are not and the others are; or one that is not registered fails for good in the registry as it is.
   */
  lemma {:induction false} RegistersKeeps(nm: Naming, reg: Registry, defs: Registry, depth: nat, schedule: seq<seq<string>>, result: RegisterResult)
    returns (done: set<string>)
    requires Registers(nm, reg, defs, depth, schedule, result)
    ensures EndsWith(nm, reg, defs, done, result)
    decreases |schedule|
  {
    var order := schedule[0];
    var p := Round(nm, reg, defs, order);
    done := RoundKeeps(nm, reg, defs, order);
    assert (set n | n in order) == defs.Keys;
    if EndOf(p, depth).Some? {
      EndsNow(nm, reg, defs, depth, done, p, result);
    } else {
      var later := RegistersKeeps(nm, p.reg, Restrict(defs, p.left), depth + 1, schedule[1..], result);
      LaterEndsToo(nm, reg, defs, done, later, result);
      done := done + later;
    }
  }
}
