/**
 * The `characters` table and the data-access operations over it.
 *
 * The key is auto-generated: a row handed in with key 0 is stored under the
 * next value of a counter that only grows (clearing the table does not reset
 * it); a row handed in with a non-zero key replaces the stored row with that
 * key, or is added under that key, and the counter moves past it. Rows read
 * back come in no guaranteed order, so reads promise contents (a multiset),
 * never order.
 */
module Dao {
  import opened Wrappers
  import opened Entity

  /** The abstract state of the table: its rows and the next key to hand out. */
  datatype TableState = TableState(rows: seq<CharacterEntity>, nextId: int)

  /** The result of inserting one row: the new table and the key the row is stored under. */
  datatype Inserted = Inserted(table: TableState, id: int)

  /** The result of inserting a list of rows: the new table and one key per input row. */
  datatype InsertOutcome = InsertOutcome(table: TableState, ids: seq<int>)

  function Max(a: int, b: int): int { if a < b then b else a }

  /** Some row of `rows` carries the key `id`. */
  predicate HasId(rows: seq<CharacterEntity>, id: int)
  {
    exists i :: 0 <= i < |rows| && rows[i].id == id
  }

  /** Some row of `rows` is stored under the key `id` and carries the domain fields of `e`. */
  predicate StoredAs(rows: seq<CharacterEntity>, id: int, e: CharacterEntity)
  {
    exists i :: 0 <= i < |rows| && rows[i].id == id && SameDomain(rows[i], e)
  }

  /**
   * The table invariant: the counter is positive and past every stored key,
   * no stored row has the unset key, and the key is a primary key.
   */
  predicate ValidTable(t: TableState)
  {
    && t.nextId > UnsetId
    && (forall i :: 0 <= i < |t.rows| ==> t.rows[i].id != UnsetId && t.rows[i].id < t.nextId)
    && (forall i, j :: 0 <= i < j < |t.rows| ==> t.rows[i].id != t.rows[j].id)
  }

  /** Every row whose key is `e.id` becomes `e`; every other row stays as it was. */
  function Overwrite(rows: seq<CharacterEntity>, e: CharacterEntity): (r: seq<CharacterEntity>)
    ensures |r| == |rows|
    ensures forall i :: 0 <= i < |rows| && rows[i].id == e.id ==> r[i] == e
    ensures forall i :: 0 <= i < |rows| && rows[i].id != e.id ==> r[i] == rows[i]
  {
    if rows == [] then []
    else [if rows[0].id == e.id then e else rows[0]] + Overwrite(rows[1..], e)
  }

  /**
   * One row inserted with conflict strategy REPLACE. A key of 0 takes the counter;
   * a key already present replaces that row (SQLite deletes and re-inserts it,
   * which has the same contents); any other key is added as given.
   */
  function InsertOne(t: TableState, e: CharacterEntity): (s: Inserted)
  {
    if e.id == UnsetId then
      Inserted(TableState(t.rows + [e.(id := t.nextId)], t.nextId + 1), t.nextId)
    else if HasId(t.rows, e.id) then
      Inserted(TableState(Overwrite(t.rows, e), Max(t.nextId, e.id + 1)), e.id)
    else
      Inserted(TableState(t.rows + [e], Max(t.nextId, e.id + 1)), e.id)
  }

  /** A list of rows inserted one after the other, in list order. */
  function InsertAll(t: TableState, es: seq<CharacterEntity>): (r: InsertOutcome)
    decreases |es|
  {
    if es == [] then InsertOutcome(t, [])
    else
      var prev := InsertAll(t, es[..|es| - 1]);
      var step := InsertOne(prev.table, es[|es| - 1]);
      InsertOutcome(step.table, prev.ids + [step.id])
  }

  /** A list of rows applied as updates by key, in list order; no row is added or removed. */
  function UpdateAll(rows: seq<CharacterEntity>, es: seq<CharacterEntity>): (r: seq<CharacterEntity>)
    ensures |r| == |rows|
    ensures forall i :: 0 <= i < |rows| ==> r[i].id == rows[i].id
    decreases |es|
  {
    if es == [] then rows
    else Overwrite(UpdateAll(rows, es[..|es| - 1]), es[|es| - 1])
  }

  /** Inserting one row keeps the table invariant, and the returned key is a stored, non-zero key. */
  lemma InsertOneValid(t: TableState, e: CharacterEntity)
    requires ValidTable(t)
    ensures var s := InsertOne(t, e);
      ValidTable(s.table) && s.id != UnsetId && HasId(s.table.rows, s.id)
  {
    var s := InsertOne(t, e);
    if e.id == UnsetId {
      assert s.table.rows[|t.rows|].id == s.id;
    } else if HasId(t.rows, e.id) {
      var k :| 0 <= k < |t.rows| && t.rows[k].id == e.id;
      assert s.table.rows[k].id == s.id;
      forall i | 0 <= i < |s.table.rows| ensures s.table.rows[i].id == t.rows[i].id { }
    } else {
      assert s.table.rows[|t.rows|].id == s.id;
    }
  }

  /**
   * What one REPLACE insert stores: the row's domain fields under the returned
   * key, which is the row's own key when it has one; no stored key is lost;
   * every row under another key stays; the counter never goes back.
   */
  lemma InsertOneStores(t: TableState, e: CharacterEntity)
    ensures var s := InsertOne(t, e);
      && (e.id != UnsetId ==> s.id == e.id)
      && StoredAs(s.table.rows, s.id, e)
      && (forall id :: HasId(t.rows, id) ==> HasId(s.table.rows, id))
      && (forall i :: 0 <= i < |t.rows| && t.rows[i].id != s.id ==> t.rows[i] in s.table.rows)
      && s.table.nextId >= t.nextId
  {
    var s := InsertOne(t, e);
    if e.id == UnsetId || !HasId(t.rows, e.id) {
      assert s.table.rows == t.rows + [s.table.rows[|t.rows|]];
      assert s.table.rows[|t.rows|].id == s.id && SameDomain(s.table.rows[|t.rows|], e);
      forall id | HasId(t.rows, id) ensures HasId(s.table.rows, id) {
        var k :| 0 <= k < |t.rows| && t.rows[k].id == id;
        assert s.table.rows[k] == t.rows[k];
      }
      forall i | 0 <= i < |t.rows| ensures t.rows[i] in s.table.rows {
        assert s.table.rows[i] == t.rows[i];
      }
    } else {
      var k :| 0 <= k < |t.rows| && t.rows[k].id == e.id;
      assert s.table.rows[k] == e;
      forall id | HasId(t.rows, id) ensures HasId(s.table.rows, id) {
        var j :| 0 <= j < |t.rows| && t.rows[j].id == id;
        assert s.table.rows[j].id == id;
      }
      forall i | 0 <= i < |t.rows| && t.rows[i].id != s.id ensures t.rows[i] in s.table.rows {
        assert s.table.rows[i] == t.rows[i];
      }
    }
  }

  /**
   * A list of inserts never loses a stored key, every returned key is stored
   * afterwards, and the counter never goes back.
   */
  lemma {:induction false} InsertAllKeepsKeys(t: TableState, es: seq<CharacterEntity>)
    ensures var r := InsertAll(t, es);
      && r.table.nextId >= t.nextId
      && (forall id :: HasId(t.rows, id) ==> HasId(r.table.rows, id))
      && (forall k :: 0 <= k < |r.ids| ==> HasId(r.table.rows, r.ids[k]))
    decreases |es|
  {
    if es != [] {
      var init := es[..|es| - 1];
      InsertAllKeepsKeys(t, init);
      var prev := InsertAll(t, init);
      InsertOneStores(prev.table, es[|es| - 1]);
      var step := InsertOne(prev.table, es[|es| - 1]);
      assert StoredAs(step.table.rows, step.id, es[|es| - 1]);
      var j :| 0 <= j < |step.table.rows| && step.table.rows[j].id == step.id && SameDomain(step.table.rows[j], es[|es| - 1]);
      assert HasId(step.table.rows, step.id);
      var r := InsertAll(t, es);
      forall k | 0 <= k < |r.ids| ensures HasId(r.table.rows, r.ids[k]) {
        if k < |prev.ids| {
          assert r.ids[k] == prev.ids[k];
          assert HasId(prev.table.rows, prev.ids[k]);
        } else {
          assert r.ids[k] == step.id;
        }
      }
    }
  }

  /** The table invariant survives any list of inserts: keys stay unique and non-zero. */
  lemma {:induction false} InsertAllValid(t: TableState, es: seq<CharacterEntity>)
    requires ValidTable(t)
    ensures ValidTable(InsertAll(t, es).table)
    decreases |es|
  {
    if es != [] {
      InsertAllValid(t, es[..|es| - 1]);
      InsertOneValid(InsertAll(t, es[..|es| - 1]).table, es[|es| - 1]);
    }
  }

  /** Inserting returns exactly one key per input row. */
  lemma {:induction false} InsertAllIdsLength(t: TableState, es: seq<CharacterEntity>)
    ensures |InsertAll(t, es).ids| == |es|
    decreases |es|
  {
    if es != [] {
      InsertAllIdsLength(t, es[..|es| - 1]);
    }
  }

  /**
   * Rows with key 0 are all added as new rows, in order, under consecutive keys
   * from the counter; the rows already stored are untouched, and nothing is
   * deduplicated by domain fields.
   */
  lemma {:induction false} InsertAllFresh(t: TableState, es: seq<CharacterEntity>)
    requires forall k :: 0 <= k < |es| ==> es[k].id == UnsetId
    ensures var r := InsertAll(t, es);
      && |r.table.rows| == |t.rows| + |es|
      && r.table.rows[..|t.rows|] == t.rows
      && r.table.nextId == t.nextId + |es|
      && |r.ids| == |es|
      && (forall k :: 0 <= k < |es| ==> r.ids[k] == t.nextId + k)
      && (forall k :: 0 <= k < |es| ==> r.table.rows[|t.rows| + k] == es[k].(id := t.nextId + k))
    decreases |es|
  {
    if es != [] {
      var init := es[..|es| - 1];
      InsertAllFresh(t, init);
      var prev := InsertAll(t, init);
      assert prev.table.rows[..|t.rows|] == t.rows;
      var r := InsertAll(t, es);
      assert r.table.rows == prev.table.rows + [es[|es| - 1].(id := prev.table.nextId)];
      forall k | 0 <= k < |es|
        ensures r.table.rows[|t.rows| + k] == es[k].(id := t.nextId + k)
      {
        if k < |init| {
          assert r.table.rows[|t.rows| + k] == prev.table.rows[|t.rows| + k];
          assert init[k] == es[k];
        }
      }
      forall k | 0 <= k < |es| ensures r.ids[k] == t.nextId + k {
        if k < |init| { assert r.ids[k] == prev.ids[k]; }
      }
      assert r.table.rows[..|t.rows|] == prev.table.rows[..|t.rows|];
    }
  }

  /**
   * The keys assigned to rows inserted with key 0 are never 0, are pairwise
   * distinct, and differ from every key already stored.
   */
  lemma FreshIdsAreNew(t: TableState, es: seq<CharacterEntity>)
    requires ValidTable(t)
    requires forall k :: 0 <= k < |es| ==> es[k].id == UnsetId
    ensures var r := InsertAll(t, es);
      && |r.ids| == |es|
      && (forall k :: 0 <= k < |es| ==> r.ids[k] != UnsetId && !HasId(t.rows, r.ids[k]))
      && (forall j, k :: 0 <= j < k < |es| ==> r.ids[j] != r.ids[k])
  {
    InsertAllFresh(t, es);
  }

  /**
   * A row whose key is already stored replaces that row and no other; the
   * table keeps its size and its counter.
   */
  lemma InsertReplacesExisting(t: TableState, e: CharacterEntity)
    requires ValidTable(t) && e.id != UnsetId && HasId(t.rows, e.id)
    ensures var s := InsertOne(t, e);
      && s.id == e.id
      && |s.table.rows| == |t.rows|
      && s.table.nextId == t.nextId
      && (forall i :: 0 <= i < |t.rows| ==> s.table.rows[i] == (if t.rows[i].id == e.id then e else t.rows[i]))
  {
    var k :| 0 <= k < |t.rows| && t.rows[k].id == e.id;
    assert e.id < t.nextId;
  }

  /**
   * Updating by key overwrites only rows whose key matches an input row, and
   * then with an input row carrying that key; rows that match nothing are left
   * alone; the size and every key stay as they were.
   */
  lemma {:induction false} UpdateAllFrame(rows: seq<CharacterEntity>, es: seq<CharacterEntity>)
    ensures var r := UpdateAll(rows, es);
      && |r| == |rows|
      && (forall i :: 0 <= i < |rows| ==> r[i].id == rows[i].id)
      && (forall i :: 0 <= i < |rows| && !HasId(es, rows[i].id) ==> r[i] == rows[i])
      && (forall i :: 0 <= i < |rows| && r[i] != rows[i] ==> r[i] in es)
    decreases |es|
  {
    if es != [] {
      var init := es[..|es| - 1];
      var last := es[|es| - 1];
      UpdateAllFrame(rows, init);
      var r := UpdateAll(rows, es);
      assert forall k :: 0 <= k < |init| ==> init[k] == es[k];
      assert last == es[|es| - 1];
      forall i | 0 <= i < |rows| && r[i] != rows[i] ensures r[i] in es {
        var p := UpdateAll(rows, init);
        if p[i] != rows[i] {
          assert p[i] in init;
          var k :| 0 <= k < |init| && init[k] == p[i];
          assert es[k] == init[k];
        }
        assert r[i] == last || r[i] == p[i];
        assert es[|es| - 1] == last;
      }
    }
  }

  /** `es[k]` is the last row of `es` carrying the key `id`. */
  predicate IsLastWithId(es: seq<CharacterEntity>, k: int, id: int)
  {
    0 <= k < |es| && es[k].id == id && forall k' :: k < k' < |es| ==> es[k'].id != id
  }

  lemma LastWithIdExtend(es: seq<CharacterEntity>, k: int, id: int)
    requires es != [] && IsLastWithId(es[..|es| - 1], k, id) && es[|es| - 1].id != id
    ensures IsLastWithId(es, k, id)
  {
    forall k' | k < k' < |es| ensures es[k'].id != id {
      if k' < |es| - 1 { assert es[k'] == es[..|es| - 1][k']; }
    }
  }

  /**
   * Updating by key overwrites every row whose key matches an input row: it
   * becomes the last input row carrying that key.
   */
  lemma {:induction false} UpdateAllOverwrites(rows: seq<CharacterEntity>, es: seq<CharacterEntity>)
    ensures var r := UpdateAll(rows, es);
      && |r| == |rows|
      && (forall i :: 0 <= i < |rows| && HasId(es, rows[i].id) ==>
            exists k :: IsLastWithId(es, k, rows[i].id) && r[i] == es[k])
    decreases |es|
  {
    if es != [] {
      var init := es[..|es| - 1];
      var last := es[|es| - 1];
      UpdateAllOverwrites(rows, init);
      var p := UpdateAll(rows, init);
      var r := UpdateAll(rows, es);
      assert r == Overwrite(p, last);
      forall i | 0 <= i < |rows| && HasId(es, rows[i].id)
        ensures exists k :: IsLastWithId(es, k, rows[i].id) && r[i] == es[k]
      {
        if last.id == rows[i].id {
          assert IsLastWithId(es, |es| - 1, rows[i].id);
          assert r[i] == es[|es| - 1];
        } else {
          var m :| 0 <= m < |es| && es[m].id == rows[i].id;
          assert init[m].id == rows[i].id;
          var k :| IsLastWithId(init, k, rows[i].id) && p[i] == init[k];
          LastWithIdExtend(es, k, rows[i].id);
          assert r[i] == es[k];
        }
      }
    }
  }

  /** The table invariant survives any list of updates. */
  lemma UpdateAllValid(t: TableState, es: seq<CharacterEntity>)
    requires ValidTable(t)
    ensures ValidTable(TableState(UpdateAll(t.rows, es), t.nextId))
  {
    UpdateAllFrame(t.rows, es);
  }

  /** The data-access object over the `characters` table. */
  class CharacterDao {
    var rows: seq<CharacterEntity>
    var nextId: int

    /** The table as a value. */
    function State(): TableState
      reads this
    {
      TableState(rows, nextId)
    }

    ghost predicate Valid()
      reads this
    {
      ValidTable(State())
    }

    /** A freshly created, empty table whose first generated key will be 1. */
    constructor ()
      ensures Valid() && rows == [] && nextId == 1
    {
      rows := [];
      nextId := 1;
    }

    /** The observed query: it denotes the current contents of the table, in no particular order. */
    function GetAllCharactersFlow(): (r: seq<CharacterEntity>)
      reads this
      ensures multiset(r) == multiset(rows)
    {
      rows
    }

    /** Read-all: exactly the stored rows, in no particular order, and the table is not changed. */
    method GetAllCharacters() returns (r: seq<CharacterEntity>)
      ensures multiset(r) == multiset(rows)
      ensures multiset(r) == multiset(GetAllCharactersFlow())
    {
      r := rows;
    }

    /** One row inserted with REPLACE on key conflict; returns the key it is stored under. */
    method InsertRow(e: CharacterEntity) returns (id: int)
      requires Valid()
      modifies this
      ensures Valid()
      ensures InsertOne(old(State()), e) == Inserted(State(), id)
    {
      InsertOneValid(State(), e);
      if e.id == UnsetId {
        id := nextId;
        rows := rows + [e.(id := id)];
        nextId := nextId + 1;
      } else {
        id := e.id;
        if HasId(rows, id) {
          rows := Overwrite(rows, e);
        } else {
          rows := rows + [e];
        }
        nextId := Max(nextId, e.id + 1);
      }
    }

    /** Insert with REPLACE on key conflict; returns the key of every input row, in order. */
    method InsertCharacters(es: seq<CharacterEntity>) returns (ids: seq<int>)
      requires Valid()
      modifies this
      ensures Valid()
      ensures InsertAll(old(State()), es) == InsertOutcome(State(), ids)
      ensures |ids| == |es|
    {
      ghost var t0 := State();
      ids := [];
      var i := 0;
      while i < |es|
        invariant 0 <= i <= |es|
        invariant ValidTable(State())
        invariant InsertAll(t0, es[..i]) == InsertOutcome(State(), ids)
        invariant |ids| == i
      {
        assert es[..i + 1][..i] == es[..i];
        var id := InsertRow(es[i]);
        ids := ids + [id];
        i := i + 1;
      }
      assert es[..|es|] == es;
    }

    /** Update by key: rows whose key matches an input row are overwritten, nothing is added. */
    method UpdateCharacters(es: seq<CharacterEntity>)
      requires Valid()
      modifies this
      ensures Valid()
      ensures rows == UpdateAll(old(rows), es) && nextId == old(nextId)
      ensures |rows| == |old(rows)|
      ensures forall i :: 0 <= i < |rows| && !HasId(es, old(rows)[i].id) ==> rows[i] == old(rows)[i]
      ensures forall i :: 0 <= i < |rows| && HasId(es, old(rows)[i].id) ==>
        exists k :: IsLastWithId(es, k, old(rows)[i].id) && rows[i] == es[k]
    {
      ghost var r0 := rows;
      UpdateAllValid(State(), es);
      UpdateAllFrame(r0, es);
      UpdateAllOverwrites(r0, es);
      var i := 0;
      while i < |es|
        invariant 0 <= i <= |es|
        invariant rows == UpdateAll(r0, es[..i]) && nextId == old(nextId)
      {
        assert es[..i + 1][..i] == es[..i];
        rows := Overwrite(rows, es[i]);
        i := i + 1;
      }
      assert es[..|es|] == es;
    }

    /** Delete all rows; the key counter is kept, so keys are never reused. */
    method ClearCharacters()
      requires Valid()
      modifies this
      ensures Valid()
      ensures rows == [] && nextId == old(nextId)
    {
      rows := [];
    }
  }
}
