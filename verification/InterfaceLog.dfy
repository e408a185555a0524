/** What the query of an account's type changes reports, and what it leaves out. */
module InterfaceLog {
  import opened Interfaces
  import opened Wrappers

  // ------------------------------------------------------------------------- the query of the log

  predicate HasAll(names: seq<Name>, wanted: seq<Name>) {
    forall n :: n in wanted ==> n in names
  }

  /** Whether the query reports the step from one state's types to the next one's. */
  predicate Reported(names: seq<Name>, next: seq<Name>) {
    || !(HasAll(names, next) && HasAll(names, next))
    || (|names| == 0 && |next| != 0)
    || (|names| != 0 && |next| == 0)
  }

  /** A recorded state: its time and its types. */
  datatype State = State(lt: nat, names: seq<Name>)

  function RowOf(s: State): Row {
    Row(s.lt, Types(s.names))
  }

  /** The reported steps, as the state stepped to; and the last state. */
  function Steps(states: seq<State>): seq<Row> {
    if states == [] then []
    else if |states| == 1 then [RowOf(states[0])]
    else (if Reported(states[0].names, states[1].names) then [RowOf(states[1])] else []) + Steps(states[1..])
  }

  /** What the query returns: the first state, then the steps. */
  function Log(states: seq<State>): seq<Row> {
    if states == [] then [] else [RowOf(states[0])] + Steps(states)
  }

  ghost predicate OrderedStates(states: seq<State>) {
    && (forall i :: 0 <= i < |states| ==> 0 < states[i].lt < MAX_LT)
    && (forall i, j :: 0 <= i < j < |states| ==> states[i].lt < states[j].lt)
  }

  /** A change by which names only drop out of, or move within, a list that stays non-empty. */
  predicate Silent(s: State, t: State) {
    s.names != t.names && t.names != [] && forall n :: n in t.names ==> n in s.names
  }

  /** Exactly such changes are not reported. */
  lemma SilentExactly(s: State, t: State)
    ensures Silent(s, t) <==> s.names != t.names && !Reported(s.names, t.names)
  {
    if s.names == [] && t.names != [] {
      assert t.names[0] in t.names;
    }
  }

  /** The types in force at `q`: those of the last state at or before it. */
  ghost predicate InForce(states: seq<State>, i: nat, q: nat) {
    i < |states| && states[i].lt <= q && (i + 1 < |states| ==> q < states[i + 1].lt)
  }

  // ------------------------------------------------------------------------- from the front

  lemma {:induction false} LatestOfBoth(a: seq<Row>, b: seq<Row>, q: nat)
    ensures LatestTypes(a + b, q) == if LatestTypes(b, q).Some? then LatestTypes(b, q) else LatestTypes(a, q)
    decreases |b|
  {
    if b == [] {
      assert a + b == a;
    } else {
      var init := b[..|b| - 1];
      assert (a + b)[..|a + b| - 1] == a + init;
      LatestOfBoth(a, init, q);
    }
  }

  /** The log from the second state on, its first row left out when the step to it is not reported. */
  lemma LogFromSecond(states: seq<State>)
    requires |states| >= 2
    ensures Log(states) == [RowOf(states[0])] + if Reported(states[0].names, states[1].names) then Log(states[1..]) else Steps(states[1..])
  {
    var rest := Steps(states[1..]);
    assert states[1..][0] == states[1];
    if Reported(states[0].names, states[1].names) {
      assert Steps(states) == [RowOf(states[1])] + rest == Log(states[1..]);
    } else {
      assert Steps(states) == [] + rest == rest;
    }
  }

  ghost predicate NotBefore(rows: seq<Row>, lt: nat) {
    forall i :: 0 <= i < |rows| ==> rows[i].lt >= lt
  }

  lemma {:induction false} StepsAreLater(states: seq<State>)
    requires OrderedStates(states) && states != []
    ensures NotBefore(Steps(states), states[if |states| == 1 then 0 else 1].lt)
  {
    if |states| >= 2 {
      StepsAreLater(states[1..]);
      assert states[1..][if |states[1..]| == 1 then 0 else 1].lt >= states[1].lt;
    }
  }

  lemma {:induction false} LogOrdered(states: seq<State>)
    requires OrderedStates(states)
    ensures OrderedRows(Log(states))
  {
    if |states| >= 2 {
      LogOrdered(states[1..]);
      StepsOrdered(states, Log(states[1..]));
      StepsAreLater(states);
      PrependOrdered(RowOf(states[0]), Steps(states));
    }
  }

  lemma StepsOrdered(states: seq<State>, rest: seq<Row>)
    requires |states| >= 2 && rest == Log(states[1..]) && OrderedRows(rest)
    ensures OrderedRows(Steps(states))
  {
    SuffixOrdered(rest);
    assert rest[1..] == Steps(states[1..]);
    assert Steps(states) == if Reported(states[0].names, states[1].names) then rest else rest[1..];
  }

  lemma SuffixOrdered(rows: seq<Row>)
    requires OrderedRows(rows) && rows != []
    ensures OrderedRows(rows[1..])
  {
  }

  lemma PrependOrdered(row: Row, rows: seq<Row>)
    requires OrderedRows(rows) && 0 < row.lt < MAX_LT && NotBefore(rows, row.lt + 1)
    ensures OrderedRows([row] + rows)
  {
  }

  lemma {:induction false} NothingBefore(rows: seq<Row>, q: nat)
    requires forall i :: 0 <= i < |rows| ==> rows[i].lt > q
    ensures LatestTypes(rows, q) == None
  {
    if rows != [] {
      NothingBefore(rows[..|rows| - 1], q);
    }
  }

  /** Unless the first step is a silent one and not the last, later times are told by the rest of the log. */
  lemma SameFromSecond(states: seq<State>, q: nat)
    requires OrderedStates(states) && |states| >= 2 && states[1].lt <= q
    requires |states| == 2 || !Silent(states[0], states[1])
    ensures LatestTypes(Log(states), q) == LatestTypes(Log(states[1..]), q)
  {
    var first, second, later := [RowOf(states[0])], [RowOf(states[1])], Steps(states[1..]);
    SilentExactly(states[0], states[1]);
    LogFromSecond(states);
    LatestOfBoth(second, later, q);
    LatestOfBoth(first, second + later, q);
    LatestOfBoth(first, later, q);
    assert LatestTypes(first, q) == Some(Types(states[0].names)) && LatestTypes(second, q) == Some(Types(states[1].names)) by {
      assert states[0].lt < states[1].lt;
    }
  }

  /** At the first time the log has the first state's types. */
  lemma AtFirst(states: seq<State>, q: nat)
    requires OrderedStates(states) && InForce(states, 0, q)
    ensures LatestTypes(Log(states), q) == Some(Types(states[0].names))
  {
    LatestOfBoth([RowOf(states[0])], Steps(states), q);
    StepsAreLater(states);
    if |states| >= 2 {
      NothingBefore(Steps(states), q);
    }
  }

  /** No change before the `n`th state is silent. */
  ghost predicate NoneSilent(states: seq<State>, n: int) {
    n <= |states| && forall j :: 0 < j < n ==> !Silent(states[j - 1], states[j])
  }

  lemma NoneSilentInRest(states: seq<State>, n: int)
    requires states != [] && NoneSilent(states, n)
    ensures NoneSilent(states[1..], n - 1)
  {
    forall j | 0 < j < n - 1
      ensures !Silent(states[1..][j - 1], states[1..][j])
    {
      assert !Silent(states[j], states[j + 1]);
    }
  }

  lemma RestInForce(states: seq<State>, i: nat, q: nat)
    requires OrderedStates(states) && InForce(states, i, q) && i > 0
    ensures |states| >= 2 && states[1].lt <= q && OrderedStates(states[1..]) && InForce(states[1..], i - 1, q)
  {
    assert states[1].lt <= states[i].lt;
  }

  lemma FirstIsNotSilent(states: seq<State>)
    requires NoneSilent(states, |states| - 1)
    ensures |states| > 2 ==> !Silent(states[0], states[1])
  {
  }

  lemma {:induction false} ToldIfNotSilent(states: seq<State>, i: nat, q: nat)
    requires OrderedStates(states) && InForce(states, i, q)
    requires NoneSilent(states, |states| - 1)
    ensures LatestTypes(Log(states), q) == Some(Types(states[i].names))
    decreases i
  {
    if i == 0 {
      AtFirst(states, q);
    } else {
      FirstIsNotSilent(states);
      RestInForce(states, i, q);
      SameFromSecond(states, q);
      NoneSilentInRest(states, |states| - 1);
      ToldIfNotSilent(states[1..], i - 1, q);
    }
  }

  lemma SilentStepIsMissed(states: seq<State>)
    requires OrderedStates(states) && |states| > 2 && !Reported(states[0].names, states[1].names)
    ensures LatestTypes(Log(states), states[1].lt) == Some(Types(states[0].names))
  {
    var q := states[1].lt;
    LogFromSecond(states);
    LatestOfBoth([RowOf(states[0])], Steps(states[1..]), q);
    StepsAreLater(states[1..]);
    assert states[1..][1].lt > q && states[0].lt < q;
    NothingBefore(Steps(states[1..]), q);
  }

  /** The first silent change, unless it is the last, is missed. */
  lemma {:induction false} SilentIsMissed(states: seq<State>, i: nat)
    requires OrderedStates(states) && 0 < i < |states| - 1 && Silent(states[i - 1], states[i]) && NoneSilent(states, i)
    ensures LatestTypes(Log(states), states[i].lt) == Some(Types(states[i - 1].names))
    decreases i
  {
    if i == 1 {
      SilentExactly(states[0], states[1]);
      SilentStepIsMissed(states);
    } else {
      assert !Silent(states[0], states[1]);
      SameFromSecond(states, states[i].lt);
      NoneSilentInRest(states, i);
      SilentIsMissed(states[1..], i - 1);
    }
  }

  lemma {:induction false} FirstSilent(states: seq<State>, i: nat) returns (first: nat)
    requires 0 < i < |states| && Silent(states[i - 1], states[i])
    ensures 0 < first <= i && Silent(states[first - 1], states[first]) && NoneSilent(states, first)
  {
    if j: nat :| 0 < j < i && Silent(states[j - 1], states[j]) {
      first := FirstSilent(states, j);
    } else {
      first := i;
    }
  }

  // ------------------------------------------------------------------------- exactness

  /** What is chosen from the updates at any time from the first state on are the types in force then. */
  ghost predicate Serve(updates: map<nat, Types>, states: seq<State>) {
    forall i: nat, q: nat :: InForce(states, i, q) ==> Chosen(updates, q, Types(states[i].names))
  }

  ghost predicate ChoosesInForce(states: seq<State>) {
    Serve(Dedup(Log(states)).updates, states)
  }

  lemma ChosenFromLog(states: seq<State>, i: nat, q: nat)
    requires OrderedStates(states) && InForce(states, i, q) && LatestTypes(Log(states), q).Some?
    ensures LatestTypes(Log(states), q).value != Nil ==>
      (Chosen(Dedup(Log(states)).updates, q, Types(states[i].names)) <==> LatestTypes(Log(states), q) == Some(Types(states[i].names)))
  {
    LogOrdered(states);
    DedupChoosesTheSame(Log(states), q, Types(states[i].names));
  }

  /** The log serves for every time if and only if no change before the last state is a silent one. */
  lemma LogExactly(states: seq<State>)
    requires OrderedStates(states)
    ensures ChoosesInForce(states) <==> NoneSilent(states, |states| - 1)
  {
    if NoneSilent(states, |states| - 1) {
      forall i: nat, q: nat | InForce(states, i, q)
        ensures Chosen(Dedup(Log(states)).updates, q, Types(states[i].names))
      {
        ToldIfNotSilent(states, i, q);
        ChosenFromLog(states, i, q);
      }
    } else {
      var i: nat :| 0 < i < |states| - 1 && Silent(states[i - 1], states[i]);
      var first := FirstSilent(states, i);
      SilentIsMissed(states, first);
      assert InForce(states, first, states[first].lt);
      ChosenFromLog(states, first, states[first].lt);
    }
  }

  // ------------------------------------------------------------------------- never too little

  /** `names` has at least the names of a state. */
  predicate AtLeast(names: seq<Name>, s: State) {
    forall n :: n in s.names ==> n in names
  }

  /** What the log tells at any time has at least the types in force then, whichever changes are silent. */
  lemma {:induction false} ToldAtLeast(states: seq<State>, i: nat, q: nat) returns (told: seq<Name>)
    requires OrderedStates(states) && InForce(states, i, q)
    ensures LatestTypes(Log(states), q) == Some(Types(told)) && AtLeast(told, states[i])
    decreases i
  {
    if i == 0 {
      AtFirst(states, q);
      told := states[0].names;
    } else {
      assert states[1].lt <= states[i].lt;
      told := ToldAtLeast(states[1..], i - 1, q);
      if |states| == 2 || !Silent(states[0], states[1]) {
        SameFromSecond(states, q);
      } else {
        told := ToldInstead(states, q, told);
      }
    }
  }

  /** After a silent first step that is not the last, the first state's types are told instead of the second's. */
  lemma ToldInstead(states: seq<State>, q: nat, told: seq<Name>) returns (told': seq<Name>)
    requires OrderedStates(states) && |states| > 2 && states[1].lt <= q && Silent(states[0], states[1])
    requires LatestTypes(Log(states[1..]), q) == Some(Types(told))
    ensures LatestTypes(Log(states), q) == Some(Types(told')) && forall n :: n in told ==> n in told'
  {
    var first, second, later := [RowOf(states[0])], [RowOf(states[1])], Steps(states[1..]);
    SilentExactly(states[0], states[1]);
    LogFromSecond(states);
    assert states[1..][0] == states[1] && Log(states[1..]) == second + later;
    LatestOfBoth(second, later, q);
    LatestOfBoth(first, later, q);
    assert states[0].lt < q && first[..0] == [] && second[..0] == [];
    told' := if LatestTypes(later, q).Some? then told else states[0].names;
  }

  /**
   The log never misses a type: at every time what is chosen from it has at least the types in force; only
   types that were taken away can be chosen too long.
   */
  lemma NeverTooLittle(states: seq<State>, i: nat, q: nat) returns (told: seq<Name>)
    requires OrderedStates(states) && InForce(states, i, q)
    ensures Chosen(Dedup(Log(states)).updates, q, Types(told)) && AtLeast(told, states[i])
  {
    told := ToldAtLeast(states, i, q);
    LogOrdered(states);
    DedupChoosesTheSame(Log(states), q, Types(told));
  }

  /** Some choice at `q` has at least the types of a state. */
  ghost predicate ChoosesAtLeast(updates: map<nat, Types>, q: nat, s: State) {
    exists told :: Chosen(updates, q, Types(told)) && AtLeast(told, s)
  }

  ghost predicate MissesNothing(updates: map<nat, Types>, states: seq<State>) {
    forall i: nat, q: nat :: InForce(states, i, q) ==> ChoosesAtLeast(updates, q, states[i])
  }

  /** Every update is what some recorded state had. */
  ghost predicate Recorded(updates: map<nat, Types>, states: seq<State>) {
    forall lt :: lt in updates ==> exists s :: s in states && RowOf(s) == Row(lt, updates[lt])
  }

  lemma {:induction false} StepsAreStates(states: seq<State>)
    ensures forall row :: row in Steps(states) ==> exists s :: s in states && RowOf(s) == row
  {
    if |states| == 1 {
      assert states[0] in states;
    } else if |states| >= 2 {
      StepsAreStates(states[1..]);
      assert states[1] in states && forall s :: s in states[1..] ==> s in states;
    }
  }

  lemma UpdatesAreRecorded(states: seq<State>)
    requires OrderedStates(states)
    ensures Recorded(Dedup(Log(states)).updates, states)
  {
    LogOrdered(states);
    DedupTells(Log(states));
    StepsAreStates(states);
    var updates := Dedup(Log(states)).updates;
    forall lt | lt in updates
      ensures exists s :: s in states && RowOf(s) == Row(lt, updates[lt])
    {
      var i :| 0 <= i < |Log(states)| && Log(states)[i] == Row(lt, updates[lt]);
      assert i == 0 ==> states[0] in states && RowOf(states[0]) == Log(states)[i];
      assert i > 0 ==> Log(states)[i] in Steps(states);
    }
  }

  /**
   The log of an account's types.  Its entries are types the account had at those times; at no time does it
   lead to fewer types than are in force; and it leads to exactly these at every time if and only if no
   change before the last state is a silent one.
   */
  method GetAllAccountInterfaces(states: seq<State>) returns (res: map<nat, Types>)
    ensures res == Dedup(Log(states)).updates
    ensures OrderedStates(states) ==> Recorded(res, states) && MissesNothing(res, states)
    ensures OrderedStates(states) ==> (Serve(res, states) <==> NoneSilent(states, |states| - 1))
  {
    res := Deduplicate(Log(states));
    if OrderedStates(states) {
      UpdatesAreRecorded(states);
      LogExactly(states);
      forall i: nat, q: nat | InForce(states, i, q)
        ensures ChoosesAtLeast(res, q, states[i])
      {
        ghost var told := NeverTooLittle(states, i, q);
      }
    }
  }

  /** A type taken away: later on the account counts as still having it. */
  lemma RemovalIsMissed()
    ensures var states := [State(1, [1, 2]), State(2, [1]), State(3, [1])];
            Chosen(Dedup(Log(states)).updates, 2, Types([1, 2]))
  {
    var states := [State(1, [1, 2]), State(2, [1]), State(3, [1])];
    assert states[0].names[0] == 1 && |states[0].names| != |states[1].names|;
    assert Silent(states[0], states[1]);
    SilentIsMissed(states, 1);
    LogOrdered(states);
    DedupChoosesTheSame(Log(states), 2, Types([1, 2]));
  }
}
