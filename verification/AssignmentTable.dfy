/** The assignment mutations as the services run them, and the refinement: over every
    run the id-keyed table behaves like a map from stage to ordered media list. */
module AssignmentTable {
  import opened Prelude
  import opened AssignmentSpec

  // --------------------------------------------------------- the abstract lists

  /** A stage's media as StageModel.assets reads them back: its rows in id order. */
  function StageList(rows: seq<Link>, stage: int): seq<Entry> {
    if rows == [] then [] else
      var n := |rows| - 1;
      if rows[n].stage == stage then StageList(rows[..n], stage) + [EntryOf(rows[n])] else StageList(rows[..n], stage)
  }

  predicate Shows(list: seq<Entry>, asset: int) {
    exists i :: 0 <= i < |list| && list[i].asset == asset
  }

  /** The list without the item. */
  function Drop(list: seq<Entry>, asset: int): seq<Entry> {
    if list == [] then [] else
      var n := |list| - 1;
      if list[n].asset == asset then Drop(list[..n], asset) else Drop(list[..n], asset) + [list[n]]
  }

  /** The item at its first position only, under its new settings. */
  function Refresh(list: seq<Entry>, asset: int, w: Want): seq<Entry> {
    if list == [] then [] else
      var n := |list| - 1;
      var before := Refresh(list[..n], asset, w);
      if list[n].asset != asset then before + [list[n]]
      else if Shows(list[..n], asset) then before
      else before + [Resettle(list[n], w)]
  }

  function Resettle(e: Entry, w: Want): Entry {
    e.(anim := if w.anim.Some? then w.anim else e.anim, speed := if w.speed.Some? then w.speed else e.speed)
  }

  /** What saving a media item means for one stage's list. */
  function SyncList(list: seq<Entry>, asset: int, want: Option<Want>): seq<Entry> {
    match want
    case None => Drop(list, asset)
    case Some(w) => if Shows(list, asset) then Refresh(list, asset, w) else list + [Entry(asset, w.anim, w.speed)]
  }

  /** The exit settings an item had on the list. */
  function ExitOf(list: seq<Entry>, asset: int): (Option<string>, Option<int>) {
    if list == [] then (None, None) else
      var last := list[|list| - 1];
      if last.asset == asset then (last.anim, last.speed) else ExitOf(list[..|list| - 1], asset)
  }

  /** What assignMedia means for its stage: the items sent, in the order sent, with the settings they had. */
  function Rearrange(list: seq<Entry>, media: seq<int>): (r: seq<Entry>)
    ensures |r| == |media|
    ensures forall i :: 0 <= i < |media| ==> r[i] == Entry(media[i], ExitOf(list, media[i]).0, ExitOf(list, media[i]).1)
  {
    seq(|media|, i requires 0 <= i < |media| => Entry(media[i], ExitOf(list, media[i]).0, ExitOf(list, media[i]).1))
  }

  // ------------------------------------------------------------ the id-keyed table

  datatype Table = Table(rows: seq<Link>, nextId: nat)

  type Snapshot = map<(int, int), (Option<string>, Option<int>)>

  /** `snapshot_exit_settings`: the settings by (stage, asset), later rows winning. */
  function SnapshotExitSettings(rows: seq<Link>, stage: Option<int>, asset: Option<int>): Snapshot {
    if rows == [] then map[] else
      var last := rows[|rows| - 1];
      var before := SnapshotExitSettings(rows[..|rows| - 1], stage, asset);
      if (stage == None || stage == Some(last.stage)) && (asset == None || asset == Some(last.asset))
      then before[(last.stage, last.asset) := (last.anim, last.speed)] else before
  }

  /** `make_parent_stage`: each setting explicit, else from the snapshot, else null. */
  function MakeParentStage(id: nat, stage: int, asset: int, snapshot: Snapshot, anim: Option<string>, speed: Option<int>): Link {
    var saved := if (stage, asset) in snapshot then snapshot[(stage, asset)] else (None, None);
    Link(id, stage, asset, if anim.Some? then anim else saved.0, if speed.Some? then speed else saved.1)
  }

  function NotStage(rows: seq<Link>, stage: int): seq<Link> {
    if rows == [] then [] else
      var n := |rows| - 1;
      if rows[n].stage == stage then NotStage(rows[..n], stage) else NotStage(rows[..n], stage) + [rows[n]]
  }

  function NewRows(media: seq<int>, stage: int, snapshot: Snapshot, nextId: nat): (r: seq<Link>)
    ensures |r| == |media|
    ensures forall i :: 0 <= i < |media| ==> r[i] == MakeParentStage(nextId + i, stage, media[i], snapshot, None, None)
  {
    seq(|media|, i requires 0 <= i < |media| => MakeParentStage(nextId + i, stage, media[i], snapshot, None, None))
  }

  function Assign(rows: seq<Link>, stage: int, media: seq<int>, nextId: nat): seq<Link> {
    NotStage(rows, stage) + NewRows(media, stage, SnapshotExitSettings(rows, Some(stage), None), nextId)
  }

  // ------------------------------------------------------------- refinement lemmas

  lemma {:induction false} StageListAppend(a: seq<Link>, b: seq<Link>, stage: int)
    ensures StageList(a + b, stage) == StageList(a, stage) + StageList(b, stage)
  {
    if b == [] {
      assert a + b == a;
    } else {
      var n := |b| - 1;
      assert (a + b)[..|a| + n] == a + b[..n];
      StageListAppend(a, b[..n], stage);
    }
  }

  lemma StageListOne(r: Link, stage: int)
    ensures StageList([r], stage) == if r.stage == stage then [EntryOf(r)] else []
  {
    assert [r][..0] == [];
  }

  lemma ShowsSnoc(list: seq<Entry>, e: Entry, asset: int)
    ensures Shows(list + [e], asset) <==> Shows(list, asset) || e.asset == asset
  {
    assert (list + [e])[|list|] == e;
    if Shows(list, asset) {
      var i :| 0 <= i < |list| && list[i].asset == asset;
      assert (list + [e])[i].asset == asset;
    }
    if i :| 0 <= i < |list + [e]| && (list + [e])[i].asset == asset {
      assert i < |list| ==> list[i].asset == asset;
    }
  }

  lemma {:induction false} ShowsFirstRow(rows: seq<Link>, stage: int, asset: int)
    ensures Shows(StageList(rows, stage), asset) <==> FirstRow(rows, stage, asset).Some?
  {
    if rows != [] {
      var n := |rows| - 1;
      ShowsFirstRow(rows[..n], stage, asset);
      if rows[n].stage == stage {
        ShowsSnoc(StageList(rows[..n], stage), EntryOf(rows[n]), asset);
      }
    }
  }

  lemma RefreshSnoc(list: seq<Entry>, e: Entry, asset: int, w: Want)
    ensures Refresh(list + [e], asset, w)
         == if e.asset != asset then Refresh(list, asset, w) + [e]
            else if Shows(list, asset) then Refresh(list, asset, w)
            else Refresh(list, asset, w) + [Resettle(e, w)]
    ensures Drop(list + [e], asset) == if e.asset == asset then Drop(list, asset) else Drop(list, asset) + [e]
  {
    assert (list + [e])[..|list|] == list;
  }

  lemma StageListSnoc(rows: seq<Link>, r: Link, stage: int)
    ensures StageList(rows + [r], stage)
         == if r.stage == stage then StageList(rows, stage) + [EntryOf(r)] else StageList(rows, stage)
  {
    assert (rows + [r])[..|rows|] == rows;
  }

  /** One row's contribution to a stage after a sync, on top of what is kept so far. */
  lemma KeptStep(kept: seq<Link>, front: seq<Link>, r: Link, asset: int, wanted: seq<Want>, stage: int)
    ensures StageList(kept + KeepRow(front, r, asset, wanted), stage)
      == if r.stage != stage then StageList(kept, stage)
         else if r.asset != asset then StageList(kept, stage) + [EntryOf(r)]
         else if FirstRow(front, stage, asset).Some? || FirstWant(wanted, stage).None? then StageList(kept, stage)
         else StageList(kept, stage) + [Resettle(EntryOf(r), FirstWant(wanted, stage).value)]
  {
    var one := KeepRow(front, r, asset, wanted);
    if one == [] {
      assert kept + one == kept;
    } else {
      StageListSnoc(kept, one[0], stage);
      assert one == [one[0]];
    }
  }

  lemma {:induction false} KeptDrops(rows: seq<Link>, asset: int, wanted: seq<Want>, stage: int)
    requires FirstWant(wanted, stage).None?
    ensures StageList(Kept(rows, asset, wanted), stage) == Drop(StageList(rows, stage), asset)
  {
    if rows != [] {
      var n := |rows| - 1;
      KeptDrops(rows[..n], asset, wanted, stage);
      KeptStep(Kept(rows[..n], asset, wanted), rows[..n], rows[n], asset, wanted, stage);
      if rows[n].stage == stage {
        RefreshSnoc(StageList(rows[..n], stage), EntryOf(rows[n]), asset, Want(stage, None, None));
      }
    }
  }

  lemma {:induction false} KeptRefreshes(rows: seq<Link>, asset: int, wanted: seq<Want>, stage: int)
    requires FirstWant(wanted, stage).Some?
    ensures StageList(Kept(rows, asset, wanted), stage)
         == Refresh(StageList(rows, stage), asset, FirstWant(wanted, stage).value)
  {
    if rows != [] {
      var n := |rows| - 1;
      KeptRefreshes(rows[..n], asset, wanted, stage);
      KeptStep(Kept(rows[..n], asset, wanted), rows[..n], rows[n], asset, wanted, stage);
      if rows[n].stage == stage {
        ShowsFirstRow(rows[..n], stage, asset);
        RefreshSnoc(StageList(rows[..n], stage), EntryOf(rows[n]), asset, FirstWant(wanted, stage).value);
      }
    }
  }

  lemma {:induction false} AddedRefines(rows: seq<Link>, asset: int, wanted: seq<Want>, nextId: nat, stage: int)
    ensures StageList(Added(rows, asset, wanted, nextId), stage)
         == if FirstRow(rows, stage, asset).None? && FirstWant(wanted, stage).Some?
            then [Entry(asset, FirstWant(wanted, stage).value.anim, FirstWant(wanted, stage).value.speed)] else []
  {
    if wanted != [] {
      var front, w := wanted[..|wanted| - 1], wanted[|wanted| - 1];
      AddedRefines(rows, asset, front, nextId, stage);
      FirstWantIsFirst(front, stage);
      var added := Added(rows, asset, front, nextId);
      if FirstWant(front, w.stage).None? && FirstRow(rows, w.stage, asset).None? {
        var r := Link(nextId + |added|, w.stage, asset, w.anim, w.speed);
        StageListAppend(added, [r], stage);
        StageListOne(r, stage);
      }
    }
  }

  lemma {:induction false} RefreshIdleWithoutItem(list: seq<Entry>, asset: int, w: Want)
    requires !Shows(list, asset)
    ensures Refresh(list, asset, w) == list
  {
    if list != [] {
      var n := |list| - 1;
      ShowsSnoc(list[..n], list[n], asset);
      assert list == list[..n] + [list[n]];
      RefreshIdleWithoutItem(list[..n], asset, w);
    }
  }

  /** Saving a media item acts on each stage's list as documented: dropped where it is no longer
      wanted, kept in place where it is, appended where it is new. */
  lemma SyncRefines(rows: seq<Link>, asset: int, wanted: seq<Want>, nextId: nat, stage: int)
    ensures StageList(Sync(rows, asset, wanted, nextId), stage)
         == SyncList(StageList(rows, stage), asset, FirstWant(wanted, stage))
  {
    StageListAppend(Kept(rows, asset, wanted), Added(rows, asset, wanted, nextId), stage);
    if FirstWant(wanted, stage).Some? {
      KeptRefreshes(rows, asset, wanted, stage);
    } else {
      KeptDrops(rows, asset, wanted, stage);
    }
    AddedRefines(rows, asset, wanted, nextId, stage);
    ShowsFirstRow(rows, stage, asset);
    if FirstWant(wanted, stage).Some? && FirstRow(rows, stage, asset).None? {
      RefreshIdleWithoutItem(StageList(rows, stage), asset, FirstWant(wanted, stage).value);
    }
  }

  lemma {:induction false} NotStageRefines(rows: seq<Link>, gone: int, stage: int)
    ensures StageList(NotStage(rows, gone), stage) == if stage == gone then [] else StageList(rows, stage)
  {
    if rows != [] {
      var n := |rows| - 1;
      NotStageRefines(rows[..n], gone, stage);
      if rows[n].stage != gone {
        StageListAppend(NotStage(rows[..n], gone), [rows[n]], stage);
        StageListOne(rows[n], stage);
      }
    }
  }

  predicate HasPair(rows: seq<Link>, stage: int, asset: int) {
    exists i :: 0 <= i < |rows| && rows[i].stage == stage && rows[i].asset == asset
  }

  /** A snapshot of one stage, of one asset, of both or of all holds exactly the pairs it is asked for that have a row,
      each with the settings of its last row. */
  lemma {:induction false} SnapshotRefines(rows: seq<Link>, ofStage: Option<int>, ofAsset: Option<int>, stage: int, asset: int)
    ensures var s := SnapshotExitSettings(rows, ofStage, ofAsset);
      && ((stage, asset) in s <==>
          (ofStage.None? || ofStage.value == stage) && (ofAsset.None? || ofAsset.value == asset) && HasPair(rows, stage, asset))
      && ((stage, asset) in s ==> s[(stage, asset)] == ExitOf(StageList(rows, stage), asset))
    ensures !HasPair(rows, stage, asset) ==> ExitOf(StageList(rows, stage), asset) == (None, None)
  {
    if rows != [] {
      var n := |rows| - 1;
      SnapshotRefines(rows[..n], ofStage, ofAsset, stage, asset);
      assert HasPair(rows, stage, asset) <==> HasPair(rows[..n], stage, asset) || (rows[n].stage == stage && rows[n].asset == asset) by {
        if i :| 0 <= i < |rows| && rows[i].stage == stage && rows[i].asset == asset {
          assert i < n ==> rows[..n][i] == rows[i];
        }
        if i :| 0 <= i < |rows[..n]| && rows[..n][i].stage == stage && rows[..n][i].asset == asset {
          assert rows[i] == rows[..n][i];
        }
      }
      var list := StageList(rows[..n], stage);
      assert (list + [EntryOf(rows[n])])[..|list|] == list;
    }
  }

  function Entries(rows: seq<Link>): (r: seq<Entry>)
    ensures |r| == |rows| && forall i :: 0 <= i < |rows| ==> r[i] == EntryOf(rows[i])
  {
    seq(|rows|, i requires 0 <= i < |rows| => EntryOf(rows[i]))
  }

  lemma {:induction false} StageListUniform(rows: seq<Link>, owner: int, stage: int)
    requires forall i :: 0 <= i < |rows| ==> rows[i].stage == owner
    ensures stage != owner ==> StageList(rows, stage) == []
    ensures stage == owner ==> StageList(rows, stage) == Entries(rows)
  {
    if rows != [] {
      StageListUniform(rows[..|rows| - 1], owner, stage);
    }
  }

  /** assignMedia sets its own stage's list and touches no other. */
  lemma AssignRefines(rows: seq<Link>, owner: int, media: seq<int>, nextId: nat, stage: int)
    ensures StageList(Assign(rows, owner, media, nextId), stage)
         == if stage == owner then Rearrange(StageList(rows, stage), media) else StageList(rows, stage)
  {
    var snapshot := SnapshotExitSettings(rows, Some(owner), None);
    var added := NewRows(media, owner, snapshot, nextId);
    StageListAppend(NotStage(rows, owner), added, stage);
    NotStageRefines(rows, owner, stage);
    StageListUniform(added, owner, stage);
    forall i | 0 <= i < |media| ensures EntryOf(added[i]) == Rearrange(StageList(rows, owner), media)[i] {
      SnapshotRefines(rows, Some(owner), None, owner, media[i]);
    }
  }

  lemma {:induction false} DropAssetRefines(rows: seq<Link>, asset: int, stage: int)
    ensures StageList(Others(rows, asset), stage) == Drop(StageList(rows, stage), asset)
  {
    if rows != [] {
      var n := |rows| - 1;
      DropAssetRefines(rows[..n], asset, stage);
      if rows[n].asset != asset {
        StageListAppend(Others(rows[..n], asset), [rows[n]], stage);
        StageListOne(rows[n], stage);
      }
      if rows[n].stage == stage {
        RefreshSnoc(StageList(rows[..n], stage), EntryOf(rows[n]), asset, Want(stage, None, None));
      }
    }
  }

  // ------------------------------------------------------------------- every run

  datatype Command =
    | SyncAsset(asset: int, wanted: seq<Want>)
    | AssignMedia(stage: int, media: seq<int>)
    | CleanupAsset(asset: int)
    | DeleteStage(stage: int)

  function Apply(t: Table, c: Command): Table {
    match c
    case SyncAsset(asset, wanted) =>
      Table(Sync(t.rows, asset, wanted, t.nextId), t.nextId + |Added(t.rows, asset, wanted, t.nextId)|)
    case AssignMedia(stage, media) => Table(Assign(t.rows, stage, media, t.nextId), t.nextId + |media|)
    case CleanupAsset(asset) => Table(Others(t.rows, asset), t.nextId)
    case DeleteStage(stage) => Table(NotStage(t.rows, stage), t.nextId)
  }

  function RunTable(t: Table, cs: seq<Command>): Table {
    if cs == [] then t else Apply(RunTable(t, cs[..|cs| - 1]), cs[|cs| - 1])
  }

  /** The same commands on one stage's plain list: no ids, no other stage. */
  function ApplyList(list: seq<Entry>, c: Command, stage: int): seq<Entry> {
    match c
    case SyncAsset(asset, wanted) => SyncList(list, asset, FirstWant(wanted, stage))
    case AssignMedia(owner, media) => if stage == owner then Rearrange(list, media) else list
    case CleanupAsset(asset) => Drop(list, asset)
    case DeleteStage(gone) => if stage == gone then [] else list
  }

  function RunList(list: seq<Entry>, cs: seq<Command>, stage: int): seq<Entry> {
    if cs == [] then list else ApplyList(RunList(list, cs[..|cs| - 1], stage), cs[|cs| - 1], stage)
  }

  /** Over every run, from any table, each stage shows what its plain list would. */
  lemma {:induction false} TableRefinesLists(t: Table, cs: seq<Command>, stage: int)
    ensures StageList(RunTable(t, cs).rows, stage) == RunList(StageList(t.rows, stage), cs, stage)
  {
    if cs != [] {
      TableRefinesLists(t, cs[..|cs| - 1], stage);
      var s := RunTable(t, cs[..|cs| - 1]);
      match cs[|cs| - 1] {
        case SyncAsset(asset, wanted) => SyncRefines(s.rows, asset, wanted, s.nextId, stage);
        case AssignMedia(owner, media) => AssignRefines(s.rows, owner, media, s.nextId, stage);
        case CleanupAsset(asset) => DropAssetRefines(s.rows, asset, stage);
        case DeleteStage(gone) => NotStageRefines(s.rows, gone, stage);
      }
    }
  }

  /** Filtering rows keeps their ids rising, below any bound they had. */
  lemma {:induction false} NotStageIds(rows: seq<Link>, stage: int, nextId: nat)
    requires Ascending(rows, nextId)
    ensures Ascending(NotStage(rows, stage), nextId)
  {
    if rows != [] {
      NotStageIds(rows[..|rows| - 1], stage, rows[|rows| - 1].id);
    }
  }

  lemma {:induction false} OthersIds(rows: seq<Link>, asset: int, nextId: nat)
    requires Ascending(rows, nextId)
    ensures Ascending(Others(rows, asset), nextId)
  {
    if rows != [] {
      OthersIds(rows[..|rows| - 1], asset, rows[|rows| - 1].id);
    }
  }

  /** Ids keep rising in row order over every run, so id order is row order. */
  lemma {:induction false} IdsStayAscending(t: Table, cs: seq<Command>)
    requires Ascending(t.rows, t.nextId)
    ensures Ascending(RunTable(t, cs).rows, RunTable(t, cs).nextId)
  {
    if cs != [] {
      IdsStayAscending(t, cs[..|cs| - 1]);
      var s := RunTable(t, cs[..|cs| - 1]);
      match cs[|cs| - 1] {
        case SyncAsset(asset, wanted) => SyncIds(s.rows, asset, wanted, s.nextId);
        case AssignMedia(owner, media) => NotStageIds(s.rows, owner, s.nextId);
        case CleanupAsset(asset) => OthersIds(s.rows, asset, s.nextId);
        case DeleteStage(gone) => NotStageIds(s.rows, gone, s.nextId);
      }
    }
  }

  // --------------------------------------------------------------- duplicate_stage

  /** The rows copy_data inserts for the links it fetched, in whatever order they came. */
  function CopyLinks(fetched: seq<Link>, stage: int, nextId: nat): (r: seq<Link>)
    ensures |r| == |fetched|
    ensures forall i :: 0 <= i < |fetched| ==> r[i] == fetched[i].(id := nextId + i, stage := stage)
  {
    seq(|fetched|, i requires 0 <= i < |fetched| => fetched[i].(id := nextId + i, stage := stage))
  }

  function RowsOf(rows: seq<Link>, stage: int): seq<Link> {
    if rows == [] then [] else
      var n := |rows| - 1;
      if rows[n].stage == stage then RowsOf(rows[..n], stage) + [rows[n]] else RowsOf(rows[..n], stage)
  }

  lemma {:induction false} RowsOfEntries(rows: seq<Link>, stage: int)
    ensures Entries(RowsOf(rows, stage)) == StageList(rows, stage)
  {
    if rows != [] {
      RowsOfEntries(rows[..|rows| - 1], stage);
    }
  }

  lemma PickOut(b: seq<Link>, j: nat)
    requires j < |b|
    ensures multiset(b) == multiset(b[..j] + b[j + 1..]) + multiset{b[j]}
    ensures multiset(Entries(b)) == multiset(Entries(b[..j] + b[j + 1..])) + multiset{EntryOf(b[j])}
  {
    var rest := b[..j] + b[j + 1..];
    var es := Entries(b);
    assert b == b[..j] + [b[j]] + b[j + 1..];
    assert es == es[..j] + [es[j]] + es[j + 1..];
    assert Entries(rest) == es[..j] + es[j + 1..];
  }

  lemma {:induction false} EntriesPermute(a: seq<Link>, b: seq<Link>)
    requires multiset(a) == multiset(b)
    ensures multiset(Entries(a)) == multiset(Entries(b))
  {
    assert |a| == |multiset(a)| == |multiset(b)| == |b|;
    if a != [] {
      assert a[0] in multiset(b);
      var j :| 0 <= j < |b| && b[j] == a[0];
      PickOut(a, 0);
      PickOut(b, j);
      assert multiset(a[..0] + a[1..]) == multiset(a) - multiset{a[0]};
      assert multiset(b[..j] + b[j + 1..]) == multiset(b) - multiset{b[j]};
      EntriesPermute(a[..0] + a[1..], b[..j] + b[j + 1..]);
    }
  }

  /** The duplicate shows the same items with the same settings, and no other stage changes. */
  lemma DuplicateCopiesLinks(rows: seq<Link>, source: int, target: int, fetched: seq<Link>, nextId: nat, stage: int)
    requires multiset(fetched) == multiset(RowsOf(rows, source)) && StageList(rows, target) == [] && source != target
    ensures multiset(StageList(rows + CopyLinks(fetched, target, nextId), target)) == multiset(StageList(rows, source))
    ensures stage != target ==> StageList(rows + CopyLinks(fetched, target, nextId), stage) == StageList(rows, stage)
  {
    var copies := CopyLinks(fetched, target, nextId);
    StageListAppend(rows, copies, target);
    StageListAppend(rows, copies, stage);
    StageListUniform(copies, target, target);
    StageListUniform(copies, target, stage);
    assert StageList(copies, target) == Entries(fetched);
    EntriesPermute(fetched, RowsOf(rows, source));
    RowsOfEntries(rows, source);
  }
}
