/** The loops of stages/services/assignment.py, media.py, studio.py and stage.py that
    rewrite `parent_stage`, proved against the table commands. */
module AssignmentService {
  import opened Prelude
  import opened AssignmentSpec
  import opened AssignmentTable

  /** The table after a flush: deleted rows gone, the asset's rows at their current values. */
  function Flushed(rows: seq<Link>, asset: int, current: map<int, Link>, deleted: set<nat>): seq<Link> {
    if rows == [] then [] else
      var n := |rows| - 1;
      var front := Flushed(rows[..n], asset, current, deleted);
      if rows[n].id in deleted then front
      else if rows[n].asset == asset && rows[n].stage in current then front + [current[rows[n].stage]]
      else front + [rows[n]]
  }

  /** The row of a pair is the first exactly when no earlier row has the pair. */
  lemma FirstRowAt(rows: seq<Link>, k: nat, asset: int)
    requires k < |rows| && rows[k].asset == asset
    ensures FirstRow(rows[..k], rows[k].stage, asset).None? ==> FirstRow(rows, rows[k].stage, asset) == Some(rows[k])
    ensures FirstRow(rows, rows[k].stage, asset).Some?
  {
    FirstRowAppend(rows[..k], rows[k..], rows[k].stage, asset);
    assert rows == rows[..k] + rows[k..];
    FirstRowAppend([rows[k]], rows[k + 1..], rows[k].stage, asset);
    assert rows[k..] == [rows[k]] + rows[k + 1..];
    assert [rows[k]][..0] == [];
  }

  lemma {:induction false} FlushIsKept(was: seq<Link>, n: nat, asset: int, wanted: seq<Want>, current: map<int, Link>, deleted: set<nat>)
    requires n <= |was|
    requires forall k :: 0 <= k < |was| ==> (was[k].id in deleted <==> KeepRow(was[..k], was[k], asset, wanted) == [])
    requires forall k :: 0 <= k < |was| && was[k].asset == asset && was[k].id !in deleted ==>
      was[k].stage in current && FirstWant(wanted, was[k].stage).Some?
      && current[was[k].stage] == Overwrite(was[k], FirstWant(wanted, was[k].stage).value)
    ensures Flushed(was[..n], asset, current, deleted) == Kept(was[..n], asset, wanted)
  {
    if n > 0 {
      FlushIsKept(was, n - 1, asset, wanted, current, deleted);
      assert was[..n][..n - 1] == was[..n - 1];
    } else {
      assert was[..0] == [];
    }
  }

  lemma AppendAscending(rows: seq<Link>, added: seq<Link>, nextId: nat)
    requires Ascending(rows, nextId)
    requires forall i :: 0 <= i < |added| ==> added[i].id == nextId + i
    ensures Ascending(rows + added, nextId + |added|)
  {
  }

  /** Row `id` is the one kept for a stage that is no longer wanted. */
  ghost predicate UnwantedRow(current: map<int, Link>, seen: set<int>, stage: int, id: nat) {
    stage in current && stage !in seen && current[stage].id == id
  }

  lemma {:induction false} FirstRowIndex(rows: seq<Link>, stage: int, asset: int)
    requires FirstRow(rows, stage, asset).Some?
    ensures exists j :: 0 <= j < |rows| && rows[j] == FirstRow(rows, stage, asset).value
    ensures FirstRow(rows, stage, asset).value.stage == stage && FirstRow(rows, stage, asset).value.asset == asset
  {
    var n := |rows| - 1;
    if FirstRow(rows[..n], stage, asset).Some? {
      FirstRowIndex(rows[..n], stage, asset);
      var j :| 0 <= j < n && rows[..n][j] == FirstRow(rows[..n], stage, asset).value;
      assert rows[j] == FirstRow(rows, stage, asset).value;
    }
  }

  /** The three loops together delete exactly the rows a sync drops, and leave the rest at their wanted values. */
  lemma DeletedAreDropped(rows: seq<Link>, nextId: nat, asset: int, wanted: seq<Want>,
                          current: map<int, Link>, seen: set<int>, duplicates: set<nat>, deleted: set<nat>)
    requires Ascending(rows, nextId)
    requires forall st :: st in current <==> FirstRow(rows, st, asset).Some?
    requires forall st :: st in current ==>
      current[st] == (if FirstWant(wanted, st).Some? then Overwrite(FirstRow(rows, st, asset).value, FirstWant(wanted, st).value)
                      else FirstRow(rows, st, asset).value)
    requires forall st :: st in seen <==> FirstWant(wanted, st).Some?
    requires forall k :: 0 <= k < |rows| ==>
      (rows[k].id in duplicates <==> rows[k].asset == asset && FirstRow(rows[..k], rows[k].stage, asset).Some?)
    requires forall id :: id in deleted <==> id in duplicates || exists st :: UnwantedRow(current, seen, st, id)
    ensures forall k :: 0 <= k < |rows| ==> (rows[k].id in deleted <==> KeepRow(rows[..k], rows[k], asset, wanted) == [])
    ensures forall k :: 0 <= k < |rows| && rows[k].asset == asset && rows[k].id !in deleted ==>
      rows[k].stage in current && FirstWant(wanted, rows[k].stage).Some?
      && current[rows[k].stage] == Overwrite(rows[k], FirstWant(wanted, rows[k].stage).value)
  {
    forall k | 0 <= k < |rows|
      ensures rows[k].id in deleted <==> KeepRow(rows[..k], rows[k], asset, wanted) == []
      ensures rows[k].asset == asset && rows[k].id !in deleted ==>
        rows[k].stage in current && FirstWant(wanted, rows[k].stage).Some?
        && current[rows[k].stage] == Overwrite(rows[k], FirstWant(wanted, rows[k].stage).value)
    {
      var r := rows[k];
      if r.asset == asset {
        FirstRowAt(rows, k, asset);
        if r.id !in duplicates && r.stage !in seen {
          assert UnwantedRow(current, seen, r.stage, r.id);
        }
      }
      if st :| UnwantedRow(current, seen, st, r.id) {
        FirstRowIndex(rows, st, asset);
        var j :| 0 <= j < |rows| && rows[j] == FirstRow(rows, st, asset).value;
        assert j == k;
      }
    }
  }

  /** `[(stage_id, None, None) for stage_id in stage_ids]` */
  function PlainWants(stageIds: seq<int>): (r: seq<Want>)
    ensures |r| == |stageIds| && forall i :: 0 <= i < |stageIds| ==> r[i] == Want(stageIds[i], None, None)
  {
    seq(|stageIds|, i requires 0 <= i < |stageIds| => Want(stageIds[i], None, None))
  }

  class ParentStage {
    var rows: seq<Link>
    var nextId: nat

    ghost predicate Valid()
      reads this
    {
      Ascending(rows, nextId)
    }

    /** The first loop: the asset's rows by stage, the earliest of a pair kept, later ones deleted. */
    method CollectExisting(asset: int) returns (existing: map<int, Link>, keys: seq<int>, deleted: set<nat>)
      requires Valid()
      ensures forall k :: 0 <= k < |keys| ==> keys[k] in existing
      ensures forall st :: st in existing ==> st in keys
      ensures forall st :: st in existing <==> FirstRow(rows, st, asset).Some?
      ensures forall st :: st in existing ==> Some(existing[st]) == FirstRow(rows, st, asset)
      ensures forall k :: 0 <= k < |rows| ==>
        (rows[k].id in deleted <==> rows[k].asset == asset && FirstRow(rows[..k], rows[k].stage, asset).Some?)
    {
      existing, keys, deleted := map[], [], {};
      assert rows[..0] == [];
      for i := 0 to |rows|
        invariant forall k :: 0 <= k < |keys| ==> keys[k] in existing
        invariant forall st :: st in existing ==> st in keys
        invariant forall st :: st in existing <==> FirstRow(rows[..i], st, asset).Some?
        invariant forall st :: st in existing ==> Some(existing[st]) == FirstRow(rows[..i], st, asset)
        invariant forall k :: 0 <= k < |rows| ==>
          (rows[k].id in deleted <==> k < i && rows[k].asset == asset && FirstRow(rows[..k], rows[k].stage, asset).Some?)
      {
        var row := rows[i];
        assert rows[..i + 1] == rows[..i] + [row];
        forall st ensures FirstRow(rows[..i + 1], st, asset)
                       == if FirstRow(rows[..i], st, asset).Some? then FirstRow(rows[..i], st, asset)
                          else if row.stage == st && row.asset == asset then Some(row) else None {
          FirstRowSnoc(rows[..i], row, st, asset);
        }
        if row.asset == asset {
          if row.stage in existing {
            deleted := deleted + {row.id};
          } else {
            existing := existing[row.stage := row];
            keys := keys + [row.stage];
          }
        }
      }
      assert rows[..|rows|] == rows;
    }

    /** The second loop: wanted stages update the row they have or add one, once each. */
    method ApplyWanted(asset: int, wanted: seq<Want>, existing: map<int, Link>)
      returns (current: map<int, Link>, seen: set<int>, added: seq<Link>)
      requires Valid()
      requires forall st :: st in existing <==> FirstRow(rows, st, asset).Some?
      ensures current.Keys == existing.Keys
      ensures forall st :: st in existing ==>
        current[st] == (if FirstWant(wanted, st).Some? then Overwrite(existing[st], FirstWant(wanted, st).value) else existing[st])
      ensures forall st :: st in seen <==> FirstWant(wanted, st).Some?
      ensures added == Added(rows, asset, wanted, nextId)
    {
      current, seen, added := existing, {}, [];
      assert wanted[..0] == [];
      for i := 0 to |wanted|
        invariant current.Keys == existing.Keys
        invariant forall st :: st in existing ==>
          current[st] == (if FirstWant(wanted[..i], st).Some? then Overwrite(existing[st], FirstWant(wanted[..i], st).value)
                          else existing[st])
        invariant forall st :: st in seen <==> FirstWant(wanted[..i], st).Some?
        invariant added == Added(rows, asset, wanted[..i], nextId)
      {
        var w := wanted[i];
        assert wanted[..i + 1][..i] == wanted[..i];
        forall st ensures FirstWant(wanted[..i + 1], st)
                       == if FirstWant(wanted[..i], st).Some? then FirstWant(wanted[..i], st)
                          else if w.stage == st then Some(w) else None {
        }
        if w.stage !in seen {
          seen := seen + {w.stage};
          if w.stage !in current {
            added := added + [Link(nextId + |added|, w.stage, asset, w.anim, w.speed)];
          } else {
            current := current[w.stage := Overwrite(current[w.stage], w)];
          }
        }
      }
      assert wanted[..|wanted|] == wanted;
    }

    /** The third loop: rows on stages that are no longer wanted are deleted. */
    method DropUnwanted(keys: seq<int>, current: map<int, Link>, seen: set<int>, duplicates: set<nat>) returns (deleted: set<nat>)
      requires forall k :: 0 <= k < |keys| ==> keys[k] in current
      requires forall st :: st in current ==> st in keys
      ensures forall id :: id in deleted <==> id in duplicates || exists st :: UnwantedRow(current, seen, st, id)
    {
      deleted := duplicates;
      for i := 0 to |keys|
        invariant forall id :: id in deleted <==>
          id in duplicates || exists k :: 0 <= k < i && UnwantedRow(current, seen, keys[k], id)
      {
        if keys[i] !in seen {
          deleted := deleted + {current[keys[i]].id};
        }
      }
      forall id, st | UnwantedRow(current, seen, st, id) ensures id in deleted {
        var k :| 0 <= k < |keys| && keys[k] == st;
        assert UnwantedRow(current, seen, keys[k], id);
      }
    }

    /** The body of `sync_asset_assignments`: everything left pending for the flush. */
    method PlanSync(asset: int, wanted: seq<Want>) returns (current: map<int, Link>, deleted: set<nat>, added: seq<Link>)
      requires Valid()
      ensures Flushed(rows, asset, current, deleted) == Kept(rows, asset, wanted)
      ensures added == Added(rows, asset, wanted, nextId)
    {
      var existing, keys, duplicates := CollectExisting(asset);
      var seen;
      current, seen, added := ApplyWanted(asset, wanted, existing);
      deleted := DropUnwanted(keys, current, seen, duplicates);
      DeletedAreDropped(rows, nextId, asset, wanted, current, seen, duplicates, deleted);
      FlushIsKept(rows, |rows|, asset, wanted, current, deleted);
      assert rows[..|rows|] == rows;
    }

    /** `sync_asset_assignments`, with the flush its callers do next. */
    method SyncAssetAssignments(asset: int, wanted: seq<Want>)
      requires Valid()
      modifies this
      ensures Valid() && Table(rows, nextId) == Apply(old(Table(rows, nextId)), SyncAsset(asset, wanted))
    {
      var current, deleted, added := PlanSync(asset, wanted);
      SyncIds(rows, asset, wanted, nextId);
      rows := Flushed(rows, asset, current, deleted) + added;
      nextId := nextId + |added|;
    }

    method AssignMedia(stage: int, found: bool, allowed: bool, media: seq<int>) returns (r: Result<(), string>)
      requires Valid()
      modifies this
      ensures Valid()
      ensures r.Ok? <==> found && allowed
      ensures Table(rows, nextId)
           == if r.Ok? then Apply(old(Table(rows, nextId)), Command.AssignMedia(stage, media)) else old(Table(rows, nextId))
    {
      if !found {
        return Err("Stage not found");
      }
      if !allowed {
        return Err("You are not authorized to update this stage");
      }
      var snapshot := SnapshotExitSettings(rows, Some(stage), None);
      ghost var first := nextId;
      ghost var inserts := NewRows(media, stage, snapshot, first);
      NotStageIds(rows, stage, nextId);
      rows := NotStage(rows, stage);
      ghost var left := rows;
      AppendAscending(left, inserts, first);
      for i := 0 to |media|
        invariant rows == left + inserts[..i] && nextId == first + i
      {
        rows := rows + [MakeParentStage(nextId, stage, media[i], snapshot, None, None)];
        nextId := nextId + 1;
        assert inserts[..i + 1] == inserts[..i] + [inserts[i]];
      }
      assert inserts[..|media|] == inserts;
      return Ok(());
    }

    /** Refuses unknown stages before it changes anything. */
    method QuickAssign(asset: int, assetFound: bool, stageIds: seq<int>, stages: set<int>) returns (r: Result<(), string>)
      requires Valid()
      modifies this
      ensures Valid()
      ensures r.Ok? <==> assetFound && forall i :: 0 <= i < |stageIds| ==> stageIds[i] in stages
      ensures Table(rows, nextId)
           == if r.Ok? then Apply(old(Table(rows, nextId)), SyncAsset(asset, PlainWants(stageIds))) else old(Table(rows, nextId))
    {
      if !assetFound {
        return Err("Asset not found!");
      }
      if exists i :: 0 <= i < |stageIds| && stageIds[i] !in stages {
        return Err("Stage not found!");
      }
      SyncAssetAssignments(asset, PlainWants(stageIds));
      return Ok(());
    }

    /** The link loop of copy_data, over the rows in the order the query gave them. */
    method CopyData(target: int, fetched: seq<Link>)
      requires Valid()
      modifies this
      ensures Valid()
      ensures rows == old(rows) + CopyLinks(fetched, target, old(nextId)) && nextId == old(nextId) + |fetched|
    {
      ghost var was, first := rows, nextId;
      ghost var copies := CopyLinks(fetched, target, first);
      AppendAscending(was, copies, first);
      for i := 0 to |fetched|
        invariant rows == was + copies[..i] && nextId == first + i
      {
        rows := rows + [fetched[i].(id := nextId, stage := target)];
        nextId := nextId + 1;
        assert copies[..i + 1] == copies[..i] + [copies[i]];
      }
      assert copies[..|fetched|] == copies;
    }
  }
}
