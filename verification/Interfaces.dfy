/** Which contract types an account had at some time, from its log of type changes. */
module Interfaces {
  import opened Wrappers

  /** A contract name; only equality of names matters. */
  type Name = nat

  /** A slice of names; a nil slice is not an empty one. */
  datatype Types = Nil | Types(names: seq<Name>)

  datatype Row = Row(lt: nat, types: Types)

  // ------------------------------------------------------------------------- removing repetitions

  /** The changes kept, and the types last kept. */
  datatype Kept = Kept(updates: map<nat, Types>, last: Option<Types>)

  function Dedup(rows: seq<Row>): Kept {
    if rows == [] then Kept(map[], None)
    else
      var k, row := Dedup(rows[..|rows| - 1]), rows[|rows| - 1];
      if k.last == Some(row.types) then k else Kept(k.updates[row.lt := row.types], Some(row.types))
  }

  method Deduplicate(rows: seq<Row>) returns (res: map<nat, Types>)
    ensures res == Dedup(rows).updates
  {
    res := map[];
    var lastInterfaces := None;
    var it := 0;
    while it < |rows|
      invariant it <= |rows| && Kept(res, lastInterfaces) == Dedup(rows[..it])
    {
      var row := rows[it];
      assert rows[..it + 1][..it] == rows[..it];
      it := it + 1;
      if lastInterfaces == Some(row.types) {
        continue;
      }
      res := res[row.lt := row.types];
      lastInterfaces := Some(row.types);
    }
    assert rows[..|rows|] == rows;
  }

  /** Every row, repetitions included. */
  function AllRows(rows: seq<Row>): map<nat, Types> {
    if rows == [] then map[]
    else AllRows(rows[..|rows| - 1])[rows[|rows| - 1].lt := rows[|rows| - 1].types]
  }

  // ------------------------------------------------------------------------- choosing

  const MAX_LT: nat := 0x8000_0000_0000_0000

  /** `m` is the latest time at or before `q`. */
  ghost predicate IsLatestKey(updates: map<nat, Types>, m: nat, q: nat) {
    m in updates && 0 < m <= q && forall k :: k in updates && 0 < k <= q ==> k <= m
  }

  ghost predicate IsFirstKey(updates: map<nat, Types>, m: nat) {
    m in updates && m < MAX_LT && forall k :: k in updates && k < MAX_LT ==> m <= k
  }

  /** The types at the latest time at or before `q`; without them, the types at the first time. */
  ghost predicate Chosen(updates: map<nat, Types>, q: nat, types: Types) {
    if exists m: nat :: IsLatestKey(updates, m, q) && updates[m] != Nil then
      exists m: nat :: IsLatestKey(updates, m, q) && updates[m] == types
    else if exists m: nat :: IsFirstKey(updates, m) then
      exists m: nat :: IsFirstKey(updates, m) && updates[m] == types
    else types == Nil
  }

  /** The first loop; the map is traversed in any order. */
  method LatestUpdate(updates: map<nat, Types>, txLT: nat) returns (maxLT: nat, ret: Types)
    ensures if maxLT == 0 then ret == Nil && forall k :: k in updates && k > 0 ==> k > txLT
            else IsLatestKey(updates, maxLT, txLT) && ret == updates[maxLT]
  {
    maxLT, ret := 0, Nil;
    var rest := updates.Keys;
    while rest != {}
      invariant rest <= updates.Keys
      invariant maxLT == 0 ==> ret == Nil
      invariant maxLT != 0 ==> maxLT in updates && maxLT !in rest && maxLT <= txLT && ret == updates[maxLT]
      invariant forall k :: k in updates && k !in rest && 0 < k <= txLT ==> k <= maxLT
      decreases |rest|
    {
      var updLT :| updLT in rest;
      rest := rest - {updLT};
      if updLT <= txLT && updLT > maxLT {
        maxLT := updLT;
        ret := updates[updLT];
      }
    }
  }

  /** The second loop. */
  method FirstUpdate(updates: map<nat, Types>) returns (minLT: nat, ret: Types)
    ensures if minLT == MAX_LT then ret == Nil && forall k :: k in updates ==> k >= MAX_LT
            else IsFirstKey(updates, minLT) && ret == updates[minLT]
  {
    minLT, ret := MAX_LT, Nil;
    var rest := updates.Keys;
    while rest != {}
      invariant rest <= updates.Keys && minLT <= MAX_LT
      invariant minLT == MAX_LT ==> ret == Nil
      invariant minLT != MAX_LT ==> minLT in updates && minLT !in rest && ret == updates[minLT]
      invariant forall k :: k in updates && k !in rest && k < MAX_LT ==> minLT <= k
      decreases |rest|
    {
      var updLT :| updLT in rest;
      rest := rest - {updLT};
      if updLT < minLT {
        minLT := updLT;
        ret := updates[updLT];
      }
    }
  }

  method ChooseInterfaces(updates: map<nat, Types>, txLT: nat) returns (ret: Types)
    ensures Chosen(updates, txLT, ret)
  {
    ret := Nil;
    if |updates| == 0 {
      assert forall k :: k !in updates;
      return;
    }
    var maxLT, minLT;
    maxLT, ret := LatestUpdate(updates, txLT);
    if ret != Nil {
      return;
    }
    minLT, ret := FirstUpdate(updates);
  }

  lemma ChosenIsUnique(updates: map<nat, Types>, q: nat, s: Types, t: Types)
    requires Chosen(updates, q, s) && Chosen(updates, q, t)
    ensures s == t
  {
    if m: nat :| IsLatestKey(updates, m, q) && updates[m] != Nil {
      var i: nat, j: nat :| IsLatestKey(updates, i, q) && updates[i] == s && IsLatestKey(updates, j, q) && updates[j] == t;
    } else if m: nat :| IsFirstKey(updates, m) {
      var i: nat, j: nat :| IsFirstKey(updates, i) && updates[i] == s && IsFirstKey(updates, j) && updates[j] == t;
    }
  }

  // ------------------------------------------------------------------------- repetitions do not matter

  /** Rows in the order of their times, each a time of the ledger; rows at one time agree. */
  ghost predicate OrderedRows(rows: seq<Row>) {
    && (forall i :: 0 <= i < |rows| ==> 0 < rows[i].lt < MAX_LT)
    && (forall i, j :: 0 <= i < j < |rows| ==> rows[i].lt < rows[j].lt || rows[i] == rows[j])
  }

  /** The types of the last row at or before `q`. */
  function LatestTypes(rows: seq<Row>, q: nat): Option<Types> {
    if rows == [] then None
    else if rows[|rows| - 1].lt <= q then Some(rows[|rows| - 1].types)
    else LatestTypes(rows[..|rows| - 1], q)
  }

  /** The types at `q` in the whole log, the first ones before it starts. */
  function TypesAt(rows: seq<Row>, q: nat): Types {
    var latest := LatestTypes(rows, q);
    if latest.Some? && latest.value != Nil then latest.value
    else if rows == [] then Nil
    else rows[0].types
  }

  /** The updates list rows of the log. */
  ghost predicate Lists(updates: map<nat, Types>, rows: seq<Row>) {
    forall k :: k in updates ==> exists i :: 0 <= i < |rows| && rows[i] == Row(k, updates[k])
  }

  /** The updates tell the latest types at `q`. */
  ghost predicate TellsAt(updates: map<nat, Types>, rows: seq<Row>, q: nat) {
    match LatestTypes(rows, q)
    case None => forall k :: k in updates ==> k > q
    case Some(t) => exists m: nat :: IsLatestKey(updates, m, q) && updates[m] == t
  }

  /** They list rows of the log: the first, and enough to tell the latest types at any time. */
  ghost predicate Tells(updates: map<nat, Types>, rows: seq<Row>) {
    && Lists(updates, rows)
    && (rows != [] ==> rows[0].lt in updates)
    && forall q: nat :: TellsAt(updates, rows, q)
  }

  lemma ChosenLatest(updates: map<nat, Types>, q: nat, m: nat)
    requires IsLatestKey(updates, m, q) && updates[m] != Nil
    ensures Chosen(updates, q, updates[m])
  {
  }

  lemma ChosenFirst(updates: map<nat, Types>, q: nat, m: nat)
    requires IsFirstKey(updates, m) && forall n: nat :: IsLatestKey(updates, n, q) ==> updates[n] == Nil
    ensures Chosen(updates, q, updates[m])
  {
  }

  /** The first row is the first update. */
  lemma FirstIsListed(updates: map<nat, Types>, rows: seq<Row>)
    requires OrderedRows(rows) && rows != [] && Lists(updates, rows) && rows[0].lt in updates
    ensures IsFirstKey(updates, rows[0].lt) && updates[rows[0].lt] == rows[0].types
  {
    forall k | k in updates
      ensures rows[0].lt <= k
    {
      var i :| 0 <= i < |rows| && rows[i] == Row(k, updates[k]);
    }
    var i :| 0 <= i < |rows| && rows[i] == Row(rows[0].lt, updates[rows[0].lt]);
    assert i > 0 ==> rows[0].lt < rows[i].lt || rows[0] == rows[i];
  }

  lemma TellsChosen(updates: map<nat, Types>, rows: seq<Row>, q: nat)
    requires OrderedRows(rows) && Lists(updates, rows) && (rows != [] ==> rows[0].lt in updates) && TellsAt(updates, rows, q)
    ensures Chosen(updates, q, TypesAt(rows, q))
  {
    var latest := LatestTypes(rows, q);
    if latest.Some? && latest.value != Nil {
      var m: nat :| IsLatestKey(updates, m, q) && updates[m] == latest.value;
      ChosenLatest(updates, q, m);
    } else if rows == [] {
      assert forall k :: k !in updates;
    } else {
      FirstIsListed(updates, rows);
      ChosenFirst(updates, q, rows[0].lt);
    }
  }

  lemma LatestAfterOneMore(updates: map<nat, Types>, rows: seq<Row>, row: Row, q: nat)
    requires Lists(updates, rows) && TellsAt(updates, rows, q) && OrderedRows(rows + [row])
    ensures TellsAt(updates[row.lt := row.types], rows + [row], q)
  {
    var updates' := updates[row.lt := row.types];
    assert (rows + [row])[..|rows|] == rows;
    OldKeys(updates, rows, row);
    assert (rows + [row])[|rows|] == row;
    if row.lt <= q {
      assert IsLatestKey(updates', row.lt, q);
    } else if LatestTypes(rows, q).Some? {
      var m: nat :| IsLatestKey(updates, m, q) && updates[m] == LatestTypes(rows, q).value;
      assert IsLatestKey(updates', m, q) && updates'[m] == updates[m];
    }
  }

  lemma ListsOneMore(updates: map<nat, Types>, rows: seq<Row>, row: Row)
    requires Lists(updates, rows)
    ensures Lists(updates[row.lt := row.types], rows + [row])
  {
    var rows', updates' := rows + [row], updates[row.lt := row.types];
    forall k | k in updates'
      ensures exists i :: 0 <= i < |rows'| && rows'[i] == Row(k, updates'[k])
    {
      if k == row.lt {
        assert rows'[|rows|] == Row(k, updates'[k]);
      } else {
        var i :| 0 <= i < |rows| && rows[i] == Row(k, updates[k]);
        assert rows'[i] == Row(k, updates'[k]);
      }
    }
  }

  lemma TellsOneMore(updates: map<nat, Types>, rows: seq<Row>, row: Row)
    requires Tells(updates, rows) && OrderedRows(rows + [row])
    ensures Tells(updates[row.lt := row.types], rows + [row])
  {
    var rows', updates' := rows + [row], updates[row.lt := row.types];
    ListsOneMore(updates, rows, row);
    forall q: nat
      ensures TellsAt(updates', rows', q)
    {
      assert TellsAt(updates, rows, q);
      LatestAfterOneMore(updates, rows, row, q);
    }
  }

  lemma OldKeys(updates: map<nat, Types>, rows: seq<Row>, row: Row)
    requires Lists(updates, rows) && OrderedRows(rows + [row])
    ensures forall k :: k in updates ==> 0 < k <= row.lt
  {
    forall k | k in updates
      ensures 0 < k <= row.lt
    {
      var i :| 0 <= i < |rows| && rows[i] == Row(k, updates[k]);
      assert (rows + [row])[i] == rows[i] && (rows + [row])[|rows|] == row;
    }
  }

  lemma TellsARepetition(updates: map<nat, Types>, rows: seq<Row>, row: Row)
    requires Tells(updates, rows) && OrderedRows(rows + [row])
    requires rows != [] && rows[|rows| - 1].types == row.types
    ensures Tells(updates, rows + [row])
  {
    var rows' := rows + [row];
    assert rows'[..|rows|] == rows && rows'[|rows|] == row;
    assert forall i :: 0 <= i < |rows| ==> rows'[i] == rows[i] && rows[i].lt <= row.lt;
    forall q: nat
      ensures TellsAt(updates, rows', q)
    {
      assert TellsAt(updates, rows, q) && LatestTypes(rows', q) == LatestTypes(rows, q);
    }
  }

  lemma {:induction false} DedupTells(rows: seq<Row>)
    requires OrderedRows(rows)
    ensures Tells(Dedup(rows).updates, rows)
    ensures Dedup(rows).last == if rows == [] then None else Some(rows[|rows| - 1].types)
  {
    if rows != [] {
      var init, row := rows[..|rows| - 1], rows[|rows| - 1];
      assert rows == init + [row];
      DedupTells(init);
      if Dedup(init).last == Some(row.types) {
        TellsARepetition(Dedup(init).updates, init, row);
      } else {
        TellsOneMore(Dedup(init).updates, init, row);
      }
    }
  }

  lemma {:induction false} AllRowsTell(rows: seq<Row>)
    requires OrderedRows(rows)
    ensures Tells(AllRows(rows), rows)
  {
    if rows != [] {
      var init, row := rows[..|rows| - 1], rows[|rows| - 1];
      assert rows == init + [row];
      AllRowsTell(init);
      TellsOneMore(AllRows(init), init, row);
    }
  }

  /** For every time, the deduplicated log leads to the same types as the whole log, those in force then. */
  lemma DedupChoosesTheSame(rows: seq<Row>, q: nat, types: Types)
    requires OrderedRows(rows)
    ensures Chosen(Dedup(rows).updates, q, types) <==> types == TypesAt(rows, q)
    ensures Chosen(AllRows(rows), q, types) <==> types == TypesAt(rows, q)
  {
    DedupTells(rows);
    AllRowsTell(rows);
    assert TellsAt(Dedup(rows).updates, rows, q) && TellsAt(AllRows(rows), rows, q);
    TellsChosen(Dedup(rows).updates, rows, q);
    TellsChosen(AllRows(rows), rows, q);
    if Chosen(Dedup(rows).updates, q, types) {
      ChosenIsUnique(Dedup(rows).updates, q, types, TypesAt(rows, q));
    }
    if Chosen(AllRows(rows), q, types) {
      ChosenIsUnique(AllRows(rows), q, types, TypesAt(rows, q));
    }
  }

  /** `k` is the key after `j`. */
  ghost predicate Follows(updates: map<nat, Types>, j: nat, k: nat) {
    j in updates && k in updates && j < k && forall l :: l in updates && j < l ==> k <= l
  }

  /** Types kept one after the other differ. */
  ghost predicate NoRepetition(updates: map<nat, Types>) {
    forall j, k :: Follows(updates, j, k) ==> updates[j] != updates[k]
  }

  ghost predicate IsLastKey(updates: map<nat, Types>, m: nat) {
    m in updates && forall k :: k in updates ==> k <= m
  }

  lemma FollowsInMore(updates: map<nat, Types>, lt: nat, types: Types, m: nat, j: nat, k: nat)
    requires IsLastKey(updates, m) && m < lt && Follows(updates[lt := types], j, k)
    ensures if k == lt then j == m else k in updates && j in updates && j != lt && Follows(updates, j, k)
  {
    var more := updates[lt := types];
    assert m in more && (j in updates || j == lt) && (k in updates || k == lt);
    if k != lt {
      forall l | l in updates && j < l
        ensures k <= l
      {
        assert l in more;
      }
    }
  }

  lemma NoRepetitionAdd(updates: map<nat, Types>, lt: nat, types: Types, m: nat)
    requires NoRepetition(updates) && IsLastKey(updates, m) && m < lt && updates[m] != types
    ensures NoRepetition(updates[lt := types])
  {
    var more := updates[lt := types];
    forall j: nat, k: nat | Follows(more, j, k)
      ensures more[j] != more[k]
    {
      FollowsInMore(updates, lt, types, m, j, k);
    }
  }

  lemma LastBefore(rows: seq<Row>, row: Row)
    requires rows != [] && OrderedRows(rows + [row]) && rows[|rows| - 1].types != row.types
    ensures OrderedRows(rows) && 0 < rows[|rows| - 1].lt < row.lt
  {
    var all := rows + [row];
    assert all[|rows|] == row && all[|rows| - 1] == rows[|rows| - 1];
    assert forall i :: 0 <= i < |rows| ==> all[i] == rows[i];
  }

  lemma NoRepetitionNext(updates: map<nat, Types>, rows: seq<Row>, row: Row)
    requires NoRepetition(updates) && OrderedRows(rows + [row]) && Tells(updates, rows)
    requires rows != [] ==> rows[|rows| - 1].types != row.types
    ensures NoRepetition(updates[row.lt := row.types])
  {
    if rows == [] {
      assert forall k :: k !in updates;
    } else {
      LastBefore(rows, row);
      KeysBefore(updates, rows, row.lt);
      assert TellsAt(updates, rows, row.lt) && LatestTypes(rows, row.lt) == Some(rows[|rows| - 1].types);
      var m: nat :| IsLatestKey(updates, m, row.lt) && updates[m] == rows[|rows| - 1].types;
      NoRepetitionAdd(updates, row.lt, row.types, m);
    }
  }

  lemma KeysBefore(updates: map<nat, Types>, rows: seq<Row>, lt: nat)
    requires Lists(updates, rows) && OrderedRows(rows) && rows != [] && rows[|rows| - 1].lt < lt
    ensures forall k :: k in updates ==> 0 < k < lt
  {
    forall k | k in updates
      ensures 0 < k < lt
    {
      var i :| 0 <= i < |rows| && rows[i] == Row(k, updates[k]);
      assert i < |rows| - 1 ==> rows[i].lt < rows[|rows| - 1].lt || rows[i] == rows[|rows| - 1];
    }
  }

  /** And no repetition is kept. */
  lemma {:induction false} DedupDoesNotRepeat(rows: seq<Row>)
    requires OrderedRows(rows)
    ensures NoRepetition(Dedup(rows).updates)
  {
    if rows != [] {
      var init, row := rows[..|rows| - 1], rows[|rows| - 1];
      assert rows == init + [row];
      DedupDoesNotRepeat(init);
      DedupTells(init);
      if Dedup(init).last != Some(row.types) {
        NoRepetitionNext(Dedup(init).updates, init, row);
      }
    }
  }
}
