/** The await and commit discipline of the resolvers that yield or commit by themselves
    (stages/services/media.py, stages/services/stage.py), as programs of the event loop. */
module Resolvers {
  import opened Prelude
  import opened SessionLayer
  import opened EventLoop

  /** `validate_asset_type`: a lookup, and an insert with a flush when the type is new. */
  function ValidateAssetType(newType: Option<Write>): seq<Op> {
    match newType
    case None => [Read]
    case Some(w) => [Read, Change(w), Flush]
  }

  function TypeWrites(newType: Option<Write>): seq<Write> {
    if newType.Some? then [newType.value] else []
  }

  /** Where an upload ends: over the cap, the file cannot be stored, or all the way. */
  datatype Upload = OverCap | FileFails | Stored

  /** upload_media awaits the size, validates and commits, awaits the file, then inserts the asset. */
  function UploadMedia(newType: Option<Write>, asset: Write, end: Upload): Mutation {
    match end
    case OverCap => Mutation([[], []], Raised)
    case FileFails => Mutation([[], ValidateAssetType(newType) + [CommitNow], []], Raised)
    case Stored => Mutation([[], ValidateAssetType(newType) + [CommitNow], [Change(asset), Flush, Read]], Returned)
  }

  /** The unflushed part of update_media: it follows the commit and precedes the file threads. */
  function PrepareUpdate(newType: Option<Write>, asset: Write): seq<Op> {
    ValidateAssetType(newType) + [CommitNow, Read, Change(asset), Read]
  }

  /** The licence is replaced, then everything is flushed. */
  function SaveUpdate(oldLicence: Write, licence: Write): seq<Op> {
    [Change(oldLicence), Flush, Change(licence), Flush, Read]
  }

  /** Where an update ends: over the cap at some payload (counted from 0), refused by a lookup after the commit (unknown media,
      key in use, no file), at the file threads, or all the way, with or without files to write. */
  datatype Update = TooBig(payload: nat) | Refused | FilesFailed | Updated(writesFiles: bool)

  function Awaits(n: nat): seq<seq<Op>> {
    seq(n, i => [])
  }

  /** update_media: one await per capped payload, and one for the files when there are any. */
  function UpdateMedia(payloads: nat, newType: Option<Write>, asset: Write, oldLicence: Write, licence: Write, end: Update): Mutation {
    match end
    case TooBig(payload) => Mutation(Awaits(payload + 2), Raised)
    case Refused => Mutation(Awaits(payloads) + [ValidateAssetType(newType) + [CommitNow] + [Read]], Raised)
    case FilesFailed => Mutation(Awaits(payloads) + [PrepareUpdate(newType, asset), []], Raised)
    case Updated(writesFiles) =>
      Mutation(Awaits(payloads) + if writesFiles then [PrepareUpdate(newType, asset), SaveUpdate(oldLicence, licence)]
                                  else [PrepareUpdate(newType, asset) + SaveUpdate(oldLicence, licence)], Returned)
  }

  /** update_last_access: one UPDATE, committed before it returns. */
  function UpdateLastAccess(w: Write): Mutation {
    Mutation([[Change(w), Flush, CommitNow]], Returned)
  }

  lemma {:induction false} HoldsLocksAppend(a: seq<Op>, b: seq<Op>, held: bool)
    ensures HoldsLocks(a + b, held) == HoldsLocks(b, HoldsLocks(a, held))
  {
    if a == [] {
      assert a + b == b;
    } else {
      assert (a + b)[0] == a[0] && (a + b)[1..] == a[1..] + b;
      HoldsLocksAppend(a[1..], b, HeldAfter(a[0], held));
    }
  }

  function WriteOf(op: Op): seq<Write> {
    if op.Change? then [op.w] else []
  }

  lemma OneOp(a: Op, held: bool)
    ensures Changes([a]) == WriteOf(a) && HoldsLocks([a], held) == HeldAfter(a, held)
  {
    assert [a][1..] == [];
    assert WriteOf(a) + [] == WriteOf(a);
  }

  /** The effect of two or three operations, one by one. */
  lemma FewOps(a: Op, b: Op, c: Op, held: bool)
    ensures Changes([a, b]) == WriteOf(a) + WriteOf(b)
    ensures Changes([a, b, c]) == WriteOf(a) + WriteOf(b) + WriteOf(c)
    ensures HoldsLocks([a, b, c], held) == HeldAfter(c, HeldAfter(b, HeldAfter(a, held)))
  {
    OneOp(a, held);
    OneOp(b, HeldAfter(a, held));
    OneOp(c, HeldAfter(b, HeldAfter(a, held)));
    assert [a] + [b] == [a, b] && [a, b] + [c] == [a, b, c];
    ChangesAppend([a], [b]);
    ChangesAppend([a, b], [c]);
    HoldsLocksAppend([a], [b], held);
    HoldsLocksAppend([a, b], [c], held);
  }

  /** After an explicit commit only later flushes can leave a lock. */
  lemma LocksAfterCommit(a: seq<Op>, b: seq<Op>, held: bool)
    ensures HoldsLocks(a + [CommitNow] + b, held) == HoldsLocks(b, false)
  {
    HoldsLocksAppend(a + [CommitNow], b, held);
    HoldsLocksAppend(a, [CommitNow], held);
  }

  lemma {:induction false} KeptThroughCommit(a: seq<Op>, b: seq<Op>)
    requires CommitNow !in b
    ensures ThroughLastCommit(a + [CommitNow] + b) == a + [CommitNow]
    decreases |b|
  {
    var ops := a + [CommitNow] + b;
    if b == [] {
      assert ops == a + [CommitNow];
    } else {
      assert ops[..|ops| - 1] == a + [CommitNow] + b[..|b| - 1];
      assert ops[|ops| - 1] in b;
      KeptThroughCommit(a, b[..|b| - 1]);
    }
  }

  lemma TypeChanges(newType: Option<Write>)
    ensures Changes(ValidateAssetType(newType) + [CommitNow]) == TypeWrites(newType)
  {
    ChangesAppend(ValidateAssetType(newType), [CommitNow]);
    if newType.Some? {
      FewOps(Read, Change(newType.value), Flush, false);
    }
  }

  lemma FlatOne(slice: seq<Op>)
    ensures Flat([slice]) == slice
  {
    assert [slice][1..] == [];
  }

  lemma {:induction false} FlatEmptyFirst(n: nat, slices: seq<seq<Op>>)
    ensures Flat(Awaits(n) + slices) == Flat(slices)
  {
    var all := Awaits(n) + slices;
    if n == 0 {
      assert all == slices;
    } else {
      var fewer := Awaits(n - 1) + slices;
      assert all[1..] == fewer;
      FlatEmptyFirst(n - 1, slices);
    }
  }

  lemma FlatTwo(a: seq<Op>, b: seq<Op>)
    ensures Flat([a, b]) == a + b
  {
    FlatOne(b);
    assert [a, b][1..] == [b];
  }

  /** uploadMedia never awaits on a lock, and keeps only a new asset type when it fails. */
  lemma UploadMediaKeepsRules(newType: Option<Write>, asset: Write, end: Upload)
    ensures Disciplined(UploadMedia(newType, asset, end))
    ensures Effect(Flat(UploadMedia(newType, asset, end).slices), UploadMedia(newType, asset, end).settle)
         == match end case OverCap => [] case FileFails => TypeWrites(newType) case Stored => TypeWrites(newType) + [asset]
  {
    var m := UploadMedia(newType, asset, end);
    var validated := ValidateAssetType(newType) + [CommitNow];
    assert validated + [] == validated;
    LocksAfterCommit(ValidateAssetType(newType), [], false);
    assert forall i :: 0 <= i < |m.slices| - 1 ==> m.slices[i] == [] || m.slices[i] == validated;
    if end == OverCap {
      FlatTwo([], []);
    } else {
      UploadFlat(validated, m.slices);
      UploadEffect(newType, asset);
    }
  }

  lemma UploadFlat(validated: seq<Op>, slices: seq<seq<Op>>)
    requires |slices| == 3 && slices[0] == [] && slices[1] == validated
    ensures Flat(slices) == validated + slices[2]
  {
    FlatTwo(validated, slices[2]);
    assert slices[1..] == [validated, slices[2]];
  }

  lemma UploadEffect(newType: Option<Write>, asset: Write)
    ensures var validated := ValidateAssetType(newType) + [CommitNow];
      && Effect(validated + [], Raised) == TypeWrites(newType)
      && Effect(validated + [Change(asset), Flush, Read], Returned) == TypeWrites(newType) + [asset]
  {
    var validated := ValidateAssetType(newType) + [CommitNow];
    TypeChanges(newType);
    KeptThroughCommit(ValidateAssetType(newType), []);
    ChangesAppend(validated, [Change(asset), Flush, Read]);
    FewOps(Change(asset), Flush, Read, false);
  }

  lemma PreparedUpdate(newType: Option<Write>, asset: Write)
    ensures !HoldsLocks(PrepareUpdate(newType, asset), false)
    ensures Changes(PrepareUpdate(newType, asset)) == TypeWrites(newType) + [asset]
    ensures ThroughLastCommit(PrepareUpdate(newType, asset)) == ValidateAssetType(newType) + [CommitNow]
  {
    var rest := [Read, Change(asset), Read];
    assert PrepareUpdate(newType, asset) == ValidateAssetType(newType) + [CommitNow] + rest;
    LocksAfterCommit(ValidateAssetType(newType), rest, false);
    FewOps(Read, Change(asset), Read, false);
    KeptThroughCommit(ValidateAssetType(newType), rest);
    ChangesAppend(ValidateAssetType(newType) + [CommitNow], rest);
    TypeChanges(newType);
  }

  lemma SavedUpdate(oldLicence: Write, licence: Write)
    ensures Changes(SaveUpdate(oldLicence, licence)) == [oldLicence, licence]
  {
    var first, second := [Change(oldLicence), Flush], [Change(licence), Flush, Read];
    assert SaveUpdate(oldLicence, licence) == first + second;
    ChangesAppend(first, second);
    FewOps(Change(oldLicence), Flush, Flush, false);
    FewOps(Change(licence), Flush, Read, false);
  }

  lemma UpdateSlices(payloads: nat, newType: Option<Write>, asset: Write, oldLicence: Write, licence: Write, end: Update)
    ensures Disciplined(UpdateMedia(payloads, newType, asset, oldLicence, licence, end))
  {
    PreparedUpdate(newType, asset);
    var m := UpdateMedia(payloads, newType, asset, oldLicence, licence, end);
    assert forall i :: 0 <= i < |m.slices| - 1 ==> m.slices[i] == [] || m.slices[i] == PrepareUpdate(newType, asset);
  }

  lemma RefusedUpdate(newType: Option<Write>)
    ensures Effect(ValidateAssetType(newType) + [CommitNow] + [Read], Raised) == TypeWrites(newType)
  {
    KeptThroughCommit(ValidateAssetType(newType), [Read]);
    TypeChanges(newType);
  }

  lemma FlatAfter(payloads: nat, a: seq<Op>, b: seq<Op>)
    ensures Flat(Awaits(payloads) + [a]) == a
    ensures Flat(Awaits(payloads) + [a, b]) == a + b
  {
    FlatEmptyFirst(payloads, [a]);
    FlatEmptyFirst(payloads, [a, b]);
    FlatOne(a);
    FlatTwo(a, b);
  }

  lemma NothingFlat(n: nat)
    ensures Flat(Awaits(n)) == []
  {
    FlatEmptyFirst(n, []);
    assert Awaits(n) + [] == Awaits(n);
  }

  lemma UpdatedEffect(newType: Option<Write>, asset: Write, oldLicence: Write, licence: Write)
    ensures Effect(PrepareUpdate(newType, asset) + SaveUpdate(oldLicence, licence), Returned)
         == TypeWrites(newType) + [asset, oldLicence, licence]
  {
    PreparedUpdate(newType, asset);
    SavedUpdate(oldLicence, licence);
    ChangesAppend(PrepareUpdate(newType, asset), SaveUpdate(oldLicence, licence));
  }

  /** updateMedia likewise: its asset changes cross the file await unflushed, so without a lock. It keeps nothing when
      a payload is over the cap, only a new asset type when a lookup refuses or the files fail, else everything. */
  lemma UpdateMediaKeepsRules(payloads: nat, newType: Option<Write>, asset: Write, oldLicence: Write, licence: Write, end: Update)
    ensures Disciplined(UpdateMedia(payloads, newType, asset, oldLicence, licence, end))
    ensures var m := UpdateMedia(payloads, newType, asset, oldLicence, licence, end);
      Effect(Flat(m.slices), m.settle)
      == match end
         case TooBig(_) => []
         case Refused => TypeWrites(newType)
         case FilesFailed => TypeWrites(newType)
         case Updated(_) => TypeWrites(newType) + [asset, oldLicence, licence]
  {
    var prepare, save := PrepareUpdate(newType, asset), SaveUpdate(oldLicence, licence);
    UpdateSlices(payloads, newType, asset, oldLicence, licence, end);
    match end {
      case TooBig(payload) =>
        NothingFlat(payload + 2);
      case Refused =>
        FlatAfter(payloads, ValidateAssetType(newType) + [CommitNow] + [Read], []);
        RefusedUpdate(newType);
      case FilesFailed =>
        FlatAfter(payloads, prepare, []);
        assert prepare + [] == prepare;
        PreparedUpdate(newType, asset);
        TypeChanges(newType);
      case Updated(writesFiles) =>
        FlatAfter(payloads, prepare, save);
        FlatAfter(payloads, prepare + save, []);
        UpdatedEffect(newType, asset, oldLicence, licence);
    }
  }

  /** How often the two resolvers give the loop back: for every size and every file, once. */
  lemma MediaAwaits(payloads: nat, newType: Option<Write>, asset: Write, oldLicence: Write, licence: Write, end: Update, upload: Upload)
    ensures |UploadMedia(newType, asset, upload).slices| - 1 == if upload == OverCap then 1 else 2
    ensures |UpdateMedia(payloads, newType, asset, oldLicence, licence, end).slices| - 1
         == match end
            case TooBig(payload) => payload + 1
            case Refused => payloads
            case FilesFailed => payloads + 1
            case Updated(writesFiles) => if writesFiles then payloads + 1 else payloads
  {
  }

  lemma RunOpFirst(s: Session, op: Op, rest: seq<Op>)
    requires Exec(s, op, {}).Ran? && RunOps(Exec(s, op, {}).session, rest, {}).Ran?
    ensures var t := RunOps(Exec(s, op, {}).session, rest, {});
      RunOps(s, [op] + rest, {}) == Ran(t.session, Exec(s, op, {}).committed + t.committed)
  {
    assert ([op] + rest)[1..] == rest;
  }

  lemma TypeCommitted(newType: Option<Write>)
    ensures RunOps(CLEAN, ValidateAssetType(newType) + [CommitNow], {}) == Ran(CLEAN, TypeWrites(newType))
  {
    var begun := Session(true, [], []);
    match newType
    case None =>
      RunOpFirst(begun, CommitNow, []);
      RunOpFirst(CLEAN, Read, [CommitNow]);
      assert [CommitNow] + [] == [CommitNow] && [Read] + [CommitNow] == ValidateAssetType(newType) + [CommitNow];
    case Some(w) =>
      assert [] + [w] == [w] && [w] + [] == [w];
      RunOpFirst(Session(true, [], [w]), CommitNow, []);
      RunOpFirst(Session(true, [w], []), Flush, [CommitNow]);
      RunOpFirst(begun, Change(w), [Flush, CommitNow]);
      RunOpFirst(CLEAN, Read, [Change(w), Flush, CommitNow]);
      assert [CommitNow] + [] == [CommitNow] && [Flush] + [CommitNow] == [Flush, CommitNow];
      assert [Change(w)] + [Flush, CommitNow] == [Change(w), Flush, CommitNow];
      assert [Read] + [Change(w), Flush, CommitNow] == ValidateAssetType(newType) + [CommitNow];
  }

  /** What crosses the file await of an update: the asset's change, pending, and no flushed write; all that was committed
      is a new asset type. */
  lemma AssetCrossesUnflushed(newType: Option<Write>, asset: Write)
    ensures RunOps(CLEAN, PrepareUpdate(newType, asset), {}) == Ran(Session(true, [asset], []), TypeWrites(newType))
  {
    var rest, kept := [Read, Change(asset), Read], TypeWrites(newType);
    TypeCommitted(newType);
    RunOpFirst(Session(true, [asset], []), Read, []);
    RunOpFirst(Session(true, [], []), Change(asset), [Read]);
    RunOpFirst(CLEAN, Read, [Change(asset), Read]);
    assert [Read] + [] == [Read] && [Change(asset)] + [Read] == [Change(asset), Read] && [Read] + [Change(asset), Read] == rest;
    RunAppend(CLEAN, ValidateAssetType(newType) + [CommitNow], rest);
    assert [] + [asset] == [asset] && kept + [] == kept;
    assert ValidateAssetType(newType) + [CommitNow] + rest == PrepareUpdate(newType, asset);
  }

  /** Flushing before the files are awaited would bring the outage back, boundary or not. */
  lemma FlushBeforeFilesFreezes(newType: Option<Write>, asset: Write, oldLicence: Write, licence: Write, boundary: bool)
    ensures exists row :: CanFreeze(
      [Program([Mutation([PrepareUpdate(newType, asset) + [Flush], SaveUpdate(oldLicence, licence)], Returned)], []),
       Program([Touch(row)], [])], boundary)
  {
    var hasty := PrepareUpdate(newType, asset) + [Flush];
    var m := Mutation([hasty, SaveUpdate(oldLicence, licence)], Returned);
    AssetCrossesUnflushed(newType, asset);
    RunAppend(CLEAN, PrepareUpdate(newType, asset), [Flush]);
    RunOpFirst(Session(true, [asset], []), Flush, []);
    assert [Flush] + [] == [Flush] && [] + [asset] == [asset];
    FlushedWriteAcrossYieldFreezes(m, boundary);
  }

  /** updateLastAccess gives the loop back without a lock even where no boundary follows it. */
  lemma LastAccessCommitsItself(w: Write, boundary: bool)
    ensures var q := Request([UpdateLastAccess(w)], [], CLEAN, false);
      Advance(q, {}, boundary) == Moved(q.(todo := []), [w])
  {
    var ops := UpdateLastAccess(w).slices[0];
    RunAccountsForChanges(ops);
    KeptThroughCommit([Change(w), Flush], []);
    assert [Change(w), Flush] + [CommitNow] + [] == ops;
    RunAppend(CLEAN, [Change(w), Flush], [CommitNow]);
    assert [Change(w), Flush] + [CommitNow] == ops;
    assert ops[1..] == [Flush, CommitNow] && ops[1..][1..] == [CommitNow] && [CommitNow][1..] == [];
    assert [Change(w), Flush][1..] == [Flush] && [Flush][1..] == [];
    assert RunOps(CLEAN, ops, {}) == Ran(CLEAN, [w]);
    assert [w] + [] == [w];
  }

  /** For an unknown stage the UPDATE hits no row, takes no lock, and is rolled back before the error is raised. */
  lemma LastAccessOfUnknownStage(busy: set<nat>)
    ensures RunOps(CLEAN, [Read], busy).Ran? && RunOps(CLEAN, [Read], busy).committed == []
    ensures Finish(RunOps(CLEAN, [Read], busy).session, false, busy) == Ran(CLEAN, [])
  {
    assert [Read][1..] == [];
  }
}
