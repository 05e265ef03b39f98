/** The `parent_stage` table as a value: what the assignment mutations do to its
    id-ordered rows, and the plain map from stage to ordered media list that it refines. */
module AssignmentSpec {
  import opened Prelude

  /** A row; its primary key is its place in the stage's saved media order. */
  datatype Link = Link(id: nat, stage: int, asset: int, anim: Option<string>, speed: Option<int>)

  /** One wanted assignment of a media item; None leaves a setting as it is. */
  datatype Want = Want(stage: int, anim: Option<string>, speed: Option<int>)

  /** What a stage shows of a row. */
  datatype Entry = Entry(asset: int, anim: Option<string>, speed: Option<int>)

  function EntryOf(r: Link): Entry { Entry(r.asset, r.anim, r.speed) }

  /** The first wanted assignment of a stage: a stage id repeated in the input is used once. */
  function FirstWant(wanted: seq<Want>, stage: int): Option<Want> {
    if wanted == [] then None else
      var before := FirstWant(wanted[..|wanted| - 1], stage);
      if before.Some? then before
      else if wanted[|wanted| - 1].stage == stage then Some(wanted[|wanted| - 1]) else None
  }

  ghost predicate IsFirstWant(wanted: seq<Want>, stage: int, i: int, w: Want) {
    && 0 <= i < |wanted| && wanted[i] == w && w.stage == stage
    && forall j :: 0 <= j < i ==> wanted[j].stage != stage
  }

  lemma {:induction false} FirstWantIsFirst(wanted: seq<Want>, stage: int)
    ensures FirstWant(wanted, stage).Some? <==> exists i :: 0 <= i < |wanted| && wanted[i].stage == stage
    ensures FirstWant(wanted, stage).Some? ==> exists i :: IsFirstWant(wanted, stage, i, FirstWant(wanted, stage).value)
  {
    if wanted != [] {
      var front := wanted[..|wanted| - 1];
      FirstWantIsFirst(front, stage);
      if FirstWant(front, stage).Some? {
        var i :| IsFirstWant(front, stage, i, FirstWant(front, stage).value);
        assert IsFirstWant(wanted, stage, i, FirstWant(front, stage).value);
      } else {
        assert forall i :: 0 <= i < |front| ==> front[i].stage != stage && front[i] == wanted[i];
        if wanted[|front|].stage == stage {
          assert IsFirstWant(wanted, stage, |front|, wanted[|front|]);
        }
      }
    }
  }

  /** The earliest row of a (stage, asset) pair. */
  function FirstRow(rows: seq<Link>, stage: int, asset: int): Option<Link> {
    if rows == [] then None else
      var before := FirstRow(rows[..|rows| - 1], stage, asset);
      var last := rows[|rows| - 1];
      if before.Some? then before
      else if last.stage == stage && last.asset == asset then Some(last) else None
  }

  /** An explicit setting wins, None keeps what the row had; the row keeps its id. */
  function Overwrite(r: Link, w: Want): Link {
    r.(anim := if w.anim.Some? then w.anim else r.anim,
       speed := if w.speed.Some? then w.speed else r.speed)
  }

  /** What becomes of one row, given the rows before it. */
  function KeepRow(before: seq<Link>, r: Link, asset: int, wanted: seq<Want>): seq<Link> {
    if r.asset != asset then [r]
    else if FirstRow(before, r.stage, asset).Some? then []
    else match FirstWant(wanted, r.stage) case None => [] case Some(w) => [Overwrite(r, w)]
  }

  function Kept(rows: seq<Link>, asset: int, wanted: seq<Want>): seq<Link> {
    if rows == [] then [] else
      var n := |rows| - 1;
      Kept(rows[..n], asset, wanted) + KeepRow(rows[..n], rows[n], asset, wanted)
  }

  /** The new rows, at the end and in the order wanted. */
  function Added(rows: seq<Link>, asset: int, wanted: seq<Want>, nextId: nat): seq<Link> {
    if wanted == [] then [] else
      var front, w := wanted[..|wanted| - 1], wanted[|wanted| - 1];
      var added := Added(rows, asset, front, nextId);
      if FirstWant(front, w.stage).Some? || FirstRow(rows, w.stage, asset).Some? then added
      else added + [Link(nextId + |added|, w.stage, asset, w.anim, w.speed)]
  }

  /** One media item's assignments made equal to the wanted ones. */
  function Sync(rows: seq<Link>, asset: int, wanted: seq<Want>, nextId: nat): seq<Link> {
    Kept(rows, asset, wanted) + Added(rows, asset, wanted, nextId)
  }

  // ------------------------------------------------------------- row-level facts

  ghost predicate Ascending(rows: seq<Link>, nextId: nat) {
    && (forall i :: 0 <= i < |rows| ==> rows[i].id < nextId)
    && (forall i, j :: 0 <= i < j < |rows| ==> rows[i].id < rows[j].id)
  }

  lemma {:induction false} FirstRowAppend(a: seq<Link>, b: seq<Link>, stage: int, asset: int)
    ensures FirstRow(a + b, stage, asset)
         == if FirstRow(a, stage, asset).Some? then FirstRow(a, stage, asset) else FirstRow(b, stage, asset)
  {
    if b == [] {
      assert a + b == a;
    } else {
      var n := |b| - 1;
      assert (a + b)[..|a| + n] == a + b[..n];
      FirstRowAppend(a, b[..n], stage, asset);
    }
  }

  /** Row i is the earliest of the pair. */
  ghost predicate FirstAt(rows: seq<Link>, stage: int, asset: int, i: int) {
    && 0 <= i < |rows| && rows[i].stage == stage && rows[i].asset == asset
    && forall j :: 0 <= j < i ==> rows[j].stage != stage || rows[j].asset != asset
  }

  lemma {:induction false} FirstRowFound(rows: seq<Link>, stage: int, asset: int) returns (i: int)
    ensures match FirstRow(rows, stage, asset)
      case None => forall j :: 0 <= j < |rows| ==> rows[j].stage != stage || rows[j].asset != asset
      case Some(r) => FirstAt(rows, stage, asset, i) && rows[i] == r
  {
    i := 0;
    if rows != [] {
      var n := |rows| - 1;
      i := FirstRowFound(rows[..n], stage, asset);
      assert forall j :: 0 <= j < n ==> rows[..n][j] == rows[j];
      if FirstRow(rows[..n], stage, asset).None? {
        i := n;
      }
    }
  }

  /** A survivor keeps its earliest row, id included, under the wanted settings. */
  lemma {:induction false} KeptFirstRow(rows: seq<Link>, asset: int, wanted: seq<Want>, stage: int)
    ensures FirstRow(Kept(rows, asset, wanted), stage, asset)
         == match (FirstRow(rows, stage, asset), FirstWant(wanted, stage))
            case (Some(r), Some(w)) => Some(Overwrite(r, w))
            case _ => None
  {
    if rows != [] {
      var n := |rows| - 1;
      KeptFirstRow(rows[..n], asset, wanted, stage);
      var one := KeepRow(rows[..n], rows[n], asset, wanted);
      FirstRowAppend(Kept(rows[..n], asset, wanted), one, stage, asset);
      if one != [] {
        assert one[..0] == [];
      }
    }
  }

  /** A row inserted for a newly wanted stage. */
  ghost predicate IsNewRow(f: Option<Link>, asset: int, w: Want, nextId: nat) {
    f.Some? && f.value.id >= nextId && f.value.stage == w.stage && EntryOf(f.value) == Entry(asset, w.anim, w.speed)
  }

  lemma FirstRowSnoc(rows: seq<Link>, r: Link, stage: int, asset: int)
    ensures FirstRow(rows + [r], stage, asset)
         == if FirstRow(rows, stage, asset).Some? then FirstRow(rows, stage, asset)
            else if r.stage == stage && r.asset == asset then Some(r) else None
  {
    assert (rows + [r])[..|rows|] == rows;
  }

  lemma {:induction false} AddedFirstRow(rows: seq<Link>, asset: int, wanted: seq<Want>, nextId: nat, stage: int)
    ensures var f := FirstRow(Added(rows, asset, wanted, nextId), stage, asset);
      if FirstRow(rows, stage, asset).None? && FirstWant(wanted, stage).Some?
      then IsNewRow(f, asset, FirstWant(wanted, stage).value, nextId) else f == None
  {
    if wanted != [] {
      var front, w := wanted[..|wanted| - 1], wanted[|wanted| - 1];
      AddedFirstRow(rows, asset, front, nextId, stage);
      var added := Added(rows, asset, front, nextId);
      if FirstWant(front, w.stage).None? && FirstRow(rows, w.stage, asset).None? {
        var r := Link(nextId + |added|, w.stage, asset, w.anim, w.speed);
        FirstRowSnoc(added, r, stage, asset);
        assert Added(rows, asset, wanted, nextId) == added + [r];
      } else {
        assert Added(rows, asset, wanted, nextId) == added;
      }
      FirstWantIsFirst(front, stage);
    }
  }

  /** After a sync the item is on exactly the wanted stages: a survivor on its earliest row, under its
      explicit settings or the ones it had; a newcomer on a new row with the settings it asked for. */
  lemma SyncResult(rows: seq<Link>, asset: int, wanted: seq<Want>, nextId: nat, stage: int)
    ensures var f := FirstRow(Sync(rows, asset, wanted, nextId), stage, asset);
      match (FirstRow(rows, stage, asset), FirstWant(wanted, stage))
      case (_, None) => f == None
      case (Some(r), Some(w)) => f == Some(Overwrite(r, w))
      case (None, Some(w)) => IsNewRow(f, asset, w, nextId)
  {
    FirstRowAppend(Kept(rows, asset, wanted), Added(rows, asset, wanted, nextId), stage, asset);
    KeptFirstRow(rows, asset, wanted, stage);
    AddedFirstRow(rows, asset, wanted, nextId, stage);
    FirstWantIsFirst(wanted, stage);
  }

  /** No (stage, asset) pair of this asset has two rows. */
  predicate OncePerStage(rows: seq<Link>, asset: int) {
    if rows == [] then true else
      var n := |rows| - 1;
      OncePerStage(rows[..n], asset) && (rows[n].asset == asset ==> FirstRow(rows[..n], rows[n].stage, asset).None?)
  }

  lemma {:induction false} OnceAppend(a: seq<Link>, b: seq<Link>, asset: int)
    requires OncePerStage(a, asset) && OncePerStage(b, asset)
    requires forall i :: 0 <= i < |b| && b[i].asset == asset ==> FirstRow(a, b[i].stage, asset).None?
    ensures OncePerStage(a + b, asset)
  {
    if b == [] {
      assert a + b == a;
    } else {
      var n := |b| - 1;
      assert (a + b)[..|a| + n] == a + b[..n];
      OnceAppend(a, b[..n], asset);
      FirstRowAppend(a, b[..n], b[n].stage, asset);
    }
  }

  lemma {:induction false} KeptOnce(rows: seq<Link>, asset: int, wanted: seq<Want>)
    ensures OncePerStage(Kept(rows, asset, wanted), asset)
  {
    if rows != [] {
      var n := |rows| - 1;
      KeptOnce(rows[..n], asset, wanted);
      KeptFirstRow(rows[..n], asset, wanted, rows[n].stage);
      var one := KeepRow(rows[..n], rows[n], asset, wanted);
      if one != [] {
        assert one[..0] == [];
      }
      OnceAppend(Kept(rows[..n], asset, wanted), one, asset);
    }
  }

  lemma {:induction false} AddedOnce(rows: seq<Link>, asset: int, wanted: seq<Want>, nextId: nat)
    ensures var a := Added(rows, asset, wanted, nextId);
      && OncePerStage(a, asset)
      && forall i :: 0 <= i < |a| ==> a[i].id == nextId + i && a[i].asset == asset && FirstRow(rows, a[i].stage, asset).None?
  {
    if wanted != [] {
      var front, w := wanted[..|wanted| - 1], wanted[|wanted| - 1];
      AddedOnce(rows, asset, front, nextId);
      AddedFirstRow(rows, asset, front, nextId, w.stage);
      var added := Added(rows, asset, front, nextId);
      if Added(rows, asset, wanted, nextId) != added {
        assert Added(rows, asset, wanted, nextId)[..|added|] == added;
      }
    }
  }

  /** A sync heals duplicate pairs of its asset. */
  lemma SyncHeals(rows: seq<Link>, asset: int, wanted: seq<Want>, nextId: nat)
    ensures OncePerStage(Sync(rows, asset, wanted, nextId), asset)
  {
    KeptOnce(rows, asset, wanted);
    AddedOnce(rows, asset, wanted, nextId);
    forall i | 0 <= i < |Added(rows, asset, wanted, nextId)|
      ensures FirstRow(Kept(rows, asset, wanted), Added(rows, asset, wanted, nextId)[i].stage, asset).None?
    {
      KeptFirstRow(rows, asset, wanted, Added(rows, asset, wanted, nextId)[i].stage);
    }
    OnceAppend(Kept(rows, asset, wanted), Added(rows, asset, wanted, nextId), asset);
  }

  /** The rows of every other asset, ids and order included. */
  function Others(rows: seq<Link>, asset: int): seq<Link> {
    if rows == [] then [] else
      var n := |rows| - 1;
      if rows[n].asset != asset then Others(rows[..n], asset) + [rows[n]] else Others(rows[..n], asset)
  }

  lemma {:induction false} OthersAppend(a: seq<Link>, b: seq<Link>, asset: int)
    ensures Others(a + b, asset) == Others(a, asset) + Others(b, asset)
  {
    if b == [] {
      assert a + b == a;
    } else {
      var n := |b| - 1;
      assert (a + b)[..|a| + n] == a + b[..n];
      OthersAppend(a, b[..n], asset);
    }
  }

  lemma {:induction false} KeptOthers(rows: seq<Link>, asset: int, wanted: seq<Want>)
    ensures Others(Kept(rows, asset, wanted), asset) == Others(rows, asset)
  {
    if rows != [] {
      var n := |rows| - 1;
      KeptOthers(rows[..n], asset, wanted);
      var one := KeepRow(rows[..n], rows[n], asset, wanted);
      OthersAppend(Kept(rows[..n], asset, wanted), one, asset);
      if one != [] {
        assert one[..0] == [];
      }
    }
  }

  lemma {:induction false} NoOthers(rows: seq<Link>, asset: int)
    requires forall i :: 0 <= i < |rows| ==> rows[i].asset == asset
    ensures Others(rows, asset) == []
  {
    if rows != [] {
      NoOthers(rows[..|rows| - 1], asset);
    }
  }

  /** A sync leaves every row of every other asset as it was, in place. */
  lemma SyncSparesOthers(rows: seq<Link>, asset: int, wanted: seq<Want>, nextId: nat)
    ensures Others(Sync(rows, asset, wanted, nextId), asset) == Others(rows, asset)
  {
    OthersAppend(Kept(rows, asset, wanted), Added(rows, asset, wanted, nextId), asset);
    KeptOthers(rows, asset, wanted);
    AddedOnce(rows, asset, wanted, nextId);
    NoOthers(Added(rows, asset, wanted, nextId), asset);
  }

  /** Rows already as wanted are kept as they are. */
  lemma {:induction false} KeptSame(rows: seq<Link>, asset: int, wanted: seq<Want>)
    requires OncePerStage(rows, asset)
    requires forall i :: 0 <= i < |rows| && rows[i].asset == asset ==>
      FirstWant(wanted, rows[i].stage).Some? && Overwrite(rows[i], FirstWant(wanted, rows[i].stage).value) == rows[i]
    ensures Kept(rows, asset, wanted) == rows
  {
    if rows != [] {
      var n := |rows| - 1;
      KeptSame(rows[..n], asset, wanted);
      assert rows == rows[..n] + [rows[n]];
    }
  }

  lemma {:induction false} AddedNone(rows: seq<Link>, asset: int, wanted: seq<Want>, nextId: nat)
    requires forall i :: 0 <= i < |wanted| ==> FirstRow(rows, wanted[i].stage, asset).Some?
    ensures Added(rows, asset, wanted, nextId) == []
  {
    if wanted != [] {
      AddedNone(rows, asset, wanted[..|wanted| - 1], nextId);
    }
  }

  lemma {:induction false} OnceIsFirst(rows: seq<Link>, asset: int, i: nat)
    requires OncePerStage(rows, asset) && i < |rows| && rows[i].asset == asset
    ensures FirstRow(rows, rows[i].stage, asset) == Some(rows[i])
  {
    var n := |rows| - 1;
    if i < n {
      OnceIsFirst(rows[..n], asset, i);
    }
  }

  /** Saving the same assignments again changes nothing, not even an id. */
  lemma SyncIdempotent(rows: seq<Link>, asset: int, wanted: seq<Want>, nextId: nat, later: nat)
    ensures var once := Sync(rows, asset, wanted, nextId); Sync(once, asset, wanted, later) == once
  {
    var once := Sync(rows, asset, wanted, nextId);
    SyncHeals(rows, asset, wanted, nextId);
    forall i | 0 <= i < |once| && once[i].asset == asset
      ensures FirstWant(wanted, once[i].stage).Some?
      ensures Overwrite(once[i], FirstWant(wanted, once[i].stage).value) == once[i]
    {
      OnceIsFirst(once, asset, i);
      SyncResult(rows, asset, wanted, nextId, once[i].stage);
    }
    KeptSame(once, asset, wanted);
    forall i | 0 <= i < |wanted| ensures FirstRow(once, wanted[i].stage, asset).Some? {
      FirstWantIsFirst(wanted, wanted[i].stage);
      SyncResult(rows, asset, wanted, nextId, wanted[i].stage);
    }
    AddedNone(once, asset, wanted, later);
  }

  lemma {:induction false} KeptIds(rows: seq<Link>, asset: int, wanted: seq<Want>, nextId: nat)
    requires Ascending(rows, nextId)
    ensures Ascending(Kept(rows, asset, wanted), nextId)
  {
    if rows != [] {
      KeptIds(rows[..|rows| - 1], asset, wanted, rows[|rows| - 1].id);
    }
  }

  lemma SyncIds(rows: seq<Link>, asset: int, wanted: seq<Want>, nextId: nat)
    requires Ascending(rows, nextId)
    ensures Ascending(Sync(rows, asset, wanted, nextId), nextId + |Added(rows, asset, wanted, nextId)|)
  {
    KeptIds(rows, asset, wanted, nextId);
    AddedOnce(rows, asset, wanted, nextId);
  }
}
