/** The event table as the services change it: archive inserts, sweepStage,
    saveRecording, duplicatePerformanceWithTrimmedPauses and deletePerformance. */
module EventStore {
  import opened Prelude
  import opened TimelineTrim
  import opened EventLog
  import opened AccessLists

  /** Ids rise in insertion order below nextEvent, and every performance id in use was handed out. */
  ghost predicate WellFormed(es: seq<Event>, nextEvent: nat, nextPerformance: nat) {
    && (forall i :: 0 <= i < |es| ==> 0 < es[i].id < nextEvent)
    && (forall i, j :: 0 <= i < j < |es| ==> es[i].id < es[j].id)
    && (forall i :: 0 <= i < |es| && es[i].perf.Some? ==> es[i].perf.value < nextPerformance)
  }

  /** No performance but p, and not the live board unless p is None, sees a change. */
  ghost predicate SameRowsExcept(was: seq<Event>, es: seq<Event>, p: Option<nat>) {
    forall q: Option<nat> :: q != p ==> Select(OfPerformance(q), es) == Select(OfPerformance(q), was)
  }

  /** Rows numbered from `first` that all belong to p. */
  ghost predicate Batch(added: seq<Event>, first: nat, p: Option<nat>) {
    forall i :: 0 <= i < |added| ==> added[i].id == first + i && added[i].perf == p
  }

  lemma AppendBatch(was: seq<Event>, added: seq<Event>, nextEvent: nat, nextPerformance: nat, p: Option<nat>)
    requires WellFormed(was, nextEvent, nextPerformance) && nextEvent > 0
    requires Batch(added, nextEvent, p)
    requires p.Some? ==> p.value < nextPerformance
    ensures WellFormed(was + added, nextEvent + |added|, nextPerformance)
    ensures SameRowsExcept(was, was + added, p)
  {
    forall q: Option<nat> | q != p
      ensures Select(OfPerformance(q), was + added) == Select(OfPerformance(q), was)
    {
      SelectAppend(OfPerformance(q), was, added);
      SelectEmpty(OfPerformance(q), added);
    }
  }

  /** The rows of a new performance are the ones added for it. */
  lemma OnlyTheBatch(was: seq<Event>, added: seq<Event>, nextEvent: nat, p: nat)
    requires WellFormed(was, nextEvent, p) && forall i :: 0 <= i < |added| ==> added[i].perf == Some(p)
    ensures Select(OfPerformance(Some(p)), was + added) == added
  {
    SelectAppend(OfPerformance(Some(p)), was, added);
    SelectEmpty(OfPerformance(Some(p)), was);
    SelectAll(OfPerformance(Some(p)), added);
  }

  lemma SweepWellFormed(was: seq<Event>, slug: string, nextEvent: nat, p: nat)
    requires WellFormed(was, nextEvent, p)
    ensures WellFormed(Swept(was, slug, p), nextEvent, p + 1)
    ensures FreshPerformance(was, p)
    ensures forall q: nat :: q < p ==>
      Select(OfPerformance(Some(q)), Swept(was, slug, p)) == Select(OfPerformance(Some(q)), was)
  {
    SweptLength(was, slug, p);
    forall q: nat | q < p
      ensures Select(OfPerformance(Some(q)), Swept(was, slug, p)) == Select(OfPerformance(Some(q)), was)
    {
      SweepKeepsPerformances(was, slug, p, q);
    }
  }

  /** The rows left after a delete by performance id. */
  function Without(es: seq<Event>, p: nat): seq<Event> {
    if es == [] then [] else
      Without(es[..|es| - 1], p) + if es[|es| - 1].perf == Some(p) then [] else [es[|es| - 1]]
  }

  lemma {:induction false} WithoutRows(es: seq<Event>, p: nat, q: Option<nat>)
    ensures Select(OfPerformance(q), Without(es, p)) == if q == Some(p) then [] else Select(OfPerformance(q), es)
  {
    if es != [] {
      var front, last := es[..|es| - 1], es[|es| - 1];
      WithoutRows(front, p, q);
      SelectAppend(OfPerformance(q), Without(front, p), if last.perf == Some(p) then [] else [last]);
      if last.perf != Some(p) {
        assert [last][..0] == [];
        assert Select(OfPerformance(q), [last]) == if last.perf == q then [last] else [];
      }
    }
  }

  lemma WellFormedSnoc(w: seq<Event>, e: Event, nextEvent: nat, nextPerformance: nat)
    requires WellFormed(w, nextEvent, nextPerformance) && 0 < e.id < nextEvent
    requires forall i :: 0 <= i < |w| ==> w[i].id < e.id
    requires e.perf.Some? ==> e.perf.value < nextPerformance
    ensures WellFormed(w + [e], nextEvent, nextPerformance)
  {
  }

  lemma {:induction false} WithoutRowsOf(es: seq<Event>, p: nat)
    ensures forall e :: e in Without(es, p) ==> e in es
  {
    if es != [] {
      WithoutRowsOf(es[..|es| - 1], p);
    }
  }

  lemma {:induction false} WithoutWellFormed(es: seq<Event>, p: nat, nextEvent: nat, nextPerformance: nat)
    requires WellFormed(es, nextEvent, nextPerformance)
    ensures WellFormed(Without(es, p), nextEvent, nextPerformance)
  {
    if es != [] {
      var front, last := es[..|es| - 1], es[|es| - 1];
      WithoutWellFormed(front, p, nextEvent, nextPerformance);
      WithoutRowsOf(front, p);
      if last.perf != Some(p) {
        forall i | 0 <= i < |Without(front, p)| ensures Without(front, p)[i].id < last.id {
          assert Without(front, p)[i] in front;
        }
        WellFormedSnoc(Without(front, p), last, nextEvent, nextPerformance);
      }
    }
  }

  lemma WithoutSame(es: seq<Event>, p: nat)
    ensures SameRowsExcept(es, Without(es, p), Some(p))
    ensures Select(OfPerformance(Some(p)), Without(es, p)) == []
  {
    forall q: Option<nat> ensures Select(OfPerformance(q), Without(es, p))
                               == if q == Some(p) then [] else Select(OfPerformance(q), es)
    {
      WithoutRows(es, p, q);
    }
  }

  /** The row of a trimmed copy: its own name and date, the source's description unless one was given. */
  function Renamed(perf: Performance, name: string, description: Option<string>, now: real): (r: Performance)
    ensures r.stage == perf.stage && r.savedOn == perf.savedOn && r.recording == perf.recording
    ensures r.name == Some(name) && r.createdOn == now
    ensures r.description == if description.Some? then description else perf.description
  {
    perf.(name := Some(name), createdOn := now, description := if description.Some? then description else perf.description)
  }

  class Store {
    var events: seq<Event>
    var nextEvent: nat
    var performances: map<nat, Performance>
    var nextPerformance: nat
    const stages: map<nat, string>

    ghost predicate Valid()
      reads this
    {
      && nextEvent > 0
      && WellFormed(events, nextEvent, nextPerformance)
      && forall k :: k in performances ==> k < nextPerformance && performances[k].stage in stages
    }

    /** The write at the end of an archive writer's turn. */
    method Archive(topic: string, payload: Payload, ts: real, now: real)
      requires Valid()
      modifies this`events, this`nextEvent
      ensures Valid()
      ensures events == old(events) + [Event(old(nextEvent), topic, Some(ts), None, payload, now)]
      ensures SameRowsExcept(old(events), events, None)
    {
      var e := Event(nextEvent, topic, Some(ts), None, payload, now);
      AppendBatch(events, [e], nextEvent, nextPerformance, None);
      events := events + [e];
      nextEvent := nextEvent + 1;
    }

    /** The new performance row, then the bulk update of the stage's live rows. */
    method MoveLiveBoard(id: nat, now: real) returns (p: nat)
      requires Valid() && id in stages
      modifies this`events, this`performances, this`nextPerformance
      ensures Valid() && p == old(nextPerformance) && FreshPerformance(old(events), p)
      ensures performances == old(performances)[p := Performance(id, None, None, now, None, false)]
      ensures events == Swept(old(events), stages[id], p)
      ensures forall q: nat :: q < p ==> Select(OfPerformance(Some(q)), events) == Select(OfPerformance(Some(q)), old(events))
    {
      p := nextPerformance;
      SweepWellFormed(events, stages[id], nextEvent, p);
      performances := performances[p := Performance(id, None, None, now, None, false)];
      nextPerformance := p + 1;
      events := Swept(events, stages[id], p);
    }

    /** Moves the whole live board of a stage to a new performance. */
    method SweepStage(id: nat, userId: nat, isAdmin: bool, access: StageInfo, now: real) returns (r: Result<nat, string>)
      requires Valid()
      modifies this`events, this`performances, this`nextPerformance
      ensures Valid()
      ensures r.Ok? <==> (&& id in stages && Granted(userId, isAdmin, access)
                          && exists i :: SweptAt(old(events), stages[id], i))
      ensures r.Err? ==> events == old(events) && performances == old(performances)
      ensures r.Ok? ==> r.value !in old(performances)
      ensures r.Ok? ==> performances == old(performances)[r.value := Performance(id, None, None, now, None, false)]
      ensures r.Ok? ==> events == Swept(old(events), stages[id], r.value)
      ensures r.Ok? ==> FreshPerformance(old(events), r.value)
      // the live board is empty, and the new performance shows what it showed
      ensures r.Ok? ==> Select(StageView(None, stages[id], 0), events) == []
      ensures r.Ok? ==>
        Messages(Select(StageView(Some(r.value), stages[id], 0), events)) == Messages(Select(StageView(None, stages[id], 0), old(events)))
      ensures forall p: nat :: p in old(performances) ==>
        Select(OfPerformance(Some(p)), events) == Select(OfPerformance(Some(p)), old(events))
    {
      if id !in stages {
        return Err("Stage not found");
      }
      PermissionGranted(userId, isAdmin, access);
      var permission := ExtractPermission(userId, isAdmin, access);
      if permission.Err? {
        return Err(permission.error);
      }
      NothingToSweep(events, stages[id]);
      SweepWellFormed(events, stages[id], nextEvent, nextPerformance);
      SweepMovesLiveView(events, stages[id], nextPerformance, 0);
      RelabelMessages(Select(StageView(None, stages[id], 0), events), nextPerformance);
      if Select(Sweepable(stages[id]), events) == [] {
        return Err("The stage is already sweeped!");
      }
      var p := MoveLiveBoard(id, now);
      return Ok(p);
    }

    method InsertCopies(src: seq<Event>, id: nat)
      requires Valid() && id < nextPerformance
      modifies this`events, this`nextEvent
      ensures Valid() && events == old(events) + Copies(src, id, old(nextEvent))
      ensures SameRowsExcept(old(events), events, Some(id))
    {
      ghost var was, first := events, nextEvent;
      ghost var added := Copies(src, id, first);
      AppendBatch(was, added, first, nextPerformance, Some(id));
      for i := 0 to |src|
        invariant nextEvent == first + i
        invariant events == was + added[..i]
      {
        events := events + [src[i].(id := nextEvent, perf := Some(id))];
        nextEvent := nextEvent + 1;
        assert added[..i + 1] == added[..i] + [added[i]];
      }
      assert added[..|src|] == added;
    }

    /** Copies every row of the stage created inside the recording's window. */
    method SaveRecording(id: nat, allowed: bool, savedOn: real) returns (r: Result<(), string>)
      requires Valid()
      modifies this`events, this`nextEvent, this`performances
      ensures Valid()
      ensures id !in old(performances) ==> r.Err?
      ensures id in old(performances) ==>
        var perf := old(performances)[id];
        (r.Ok? <==> allowed && exists i :: RecordedAt(old(events), stages[perf.stage], perf.createdOn, savedOn, i))
      ensures r.Err? ==> events == old(events) && performances == old(performances)
      ensures r.Ok? ==> id in old(performances)
      ensures r.Ok? ==>
        var perf := old(performances)[id];
        events == old(events) + Copies(Select(Recordable(stages[perf.stage], perf.createdOn, savedOn), old(events)), id, old(nextEvent))
      // what a viewer then sees of the recording is what was live in its window, exactly when no stale row is there
      ensures r.Ok? ==>
        var perf := old(performances)[id]; var slug := stages[perf.stage];
        Messages(Select(StageView(Some(id), slug, 0), events)) == Messages(LiveDuring(old(events), slug, perf.createdOn, savedOn))
        <==> forall e :: e in old(events) ==> !Stale(e, slug, id, perf.createdOn, savedOn)
      ensures r.Ok? ==> performances == old(performances)[id := old(performances)[id].(savedOn := Some(savedOn), recording := false)]
      ensures SameRowsExcept(old(events), events, Some(id))
    {
      if id !in performances {
        return Err("Performance not found");
      }
      if !allowed {
        return Err("Only stage owner or Admin can save a recording!");
      }
      var perf := performances[id];
      var src := Select(Recordable(stages[perf.stage], perf.createdOn, savedOn), events);
      NothingToRecord(events, stages[perf.stage], perf.createdOn, savedOn);
      if src == [] {
        return Err("Nothing to record!");
      }
      RecordingIsFaithful(events, stages[perf.stage], id, perf.createdOn, savedOn, nextEvent);
      InsertCopies(src, id);
      performances := performances[id := performances[id].(savedOn := Some(savedOn), recording := false)];
      return Ok(());
    }

    method DeletePerformance(id: nat, allowed: bool) returns (r: Result<(), string>)
      requires Valid()
      modifies this`events, this`performances
      ensures Valid()
      ensures r.Ok? <==> id in old(performances) && allowed
      ensures r.Err? ==> events == old(events) && performances == old(performances)
      ensures r.Ok? ==> Select(OfPerformance(Some(id)), events) == [] && performances == old(performances) - {id}
      ensures SameRowsExcept(old(events), events, Some(id))
    {
      if id !in performances {
        return Err("Performance not found");
      }
      if !allowed {
        return Err("You are not allowed to delete this performance");
      }
      WithoutSame(events, id);
      WithoutWellFormed(events, id, nextEvent, nextPerformance);
      events := Without(events, id);
      performances := performances - {id};
      return Ok(());
    }

    /** Copies a performance onto a timeline whose pauses are capped. */
    method DuplicateWithTrimmedPauses(source: nat, allowed: bool, name: string, description: Option<string>,
                                      minPauseSeconds: real, now: real)
      returns (r: Result<nat, string>, ghost newMs: seq<real>, ghost copies: seq<Event>)
      requires Valid()
      modifies this`events, this`nextEvent, this`performances, this`nextPerformance
      ensures Valid()
      ensures r.Ok? <==> (&& source in old(performances) && allowed && minPauseSeconds >= 0.0
                          && Select(OfPerformance(Some(source)), old(events)) != [])
      ensures r.Err? ==> events == old(events) && performances == old(performances)
      ensures r.Ok? ==> r.value !in old(performances) && source in old(performances)
      ensures r.Ok? ==> performances == old(performances)[r.value := Renamed(old(performances)[source], name, description, now)]
      ensures r.Ok? ==> events == old(events) + copies
      ensures r.Ok? ==> IsTrim(SortEvents(Select(OfPerformance(Some(source)), old(events))),
                               minPauseSeconds * 1000.0, newMs, copies, r.value, old(nextEvent), now)
      // the copy says what its source says, each row at its new time
      ensures r.Ok? ==> Select(OfPerformance(Some(r.value)), events) == copies
      ensures r.Ok? ==> multiset(Contents(copies)) == multiset(Contents(Select(OfPerformance(Some(source)), old(events))))
      ensures r.Ok? ==> AllReplayed(SortEvents(Select(OfPerformance(Some(source)), old(events))), copies, newMs)
      ensures SameRowsExcept(old(events), events, if r.Ok? then Some(r.value) else None)
    {
      newMs, copies := [], [];
      if source !in performances {
        r := Err("Performance not found");
        return;
      }
      if !allowed {
        r := Err("You are not allowed to duplicate this performance");
        return;
      }
      var rows := Select(OfPerformance(Some(source)), events);
      if rows == [] {
        r := Err("Nothing to duplicate: this performance has no events");
        return;
      }
      var compressed := CompressSortedTimesMs(SortTimes(SortEvents(rows)), minPauseSeconds * 1000.0);
      if compressed.Err? {
        r := Err(compressed.error);
        return;
      }
      newMs := compressed.value;
      var p;
      p, copies := CopyTrimmed(source, name, description, rows, compressed.value, now, minPauseSeconds * 1000.0);
      r := Ok(p);
    }

    /** The rows of the source in their sort order, at their compressed times. */
    method CopyTrimmed(source: nat, name: string, description: Option<string>, rows: seq<Event>, newMs: seq<real>, now: real, ghost pause: real)
      returns (p: nat, ghost copies: seq<Event>)
      requires Valid() && source in performances && Compresses(SortTimes(SortEvents(rows)), pause, newMs)
      modifies this`events, this`nextEvent, this`performances, this`nextPerformance
      ensures Valid() && p == old(nextPerformance) && events == old(events) + copies
      ensures performances == old(performances)[p := Renamed(old(performances)[source], name, description, now)]
      ensures IsTrim(SortEvents(rows), pause, newMs, copies, p, old(nextEvent), now)
      ensures Select(OfPerformance(Some(p)), events) == copies
      ensures multiset(Contents(copies)) == multiset(Contents(rows)) && AllReplayed(SortEvents(rows), copies, newMs)
      ensures SameRowsExcept(old(events), events, Some(p))
    {
      ghost var was, first := events, nextEvent;
      p, copies := CopyOnTimeline(source, name, description, SortEvents(rows), newMs, now);
      TrimKeepsContents(rows, pause, newMs, copies, p, first, now);
      OnlyTheBatch(was, copies, first, p);
    }

    /** The copied performance row, then its events. */
    method CopyOnTimeline(source: nat, name: string, description: Option<string>, ordered: seq<Event>, newMs: seq<real>, now: real)
      returns (p: nat, ghost copies: seq<Event>)
      requires Valid() && source in performances && |newMs| == |ordered|
      modifies this`events, this`nextEvent, this`performances, this`nextPerformance
      ensures Valid() && p == old(nextPerformance) && events == old(events) + copies && |copies| == |ordered|
      ensures performances == old(performances)[p := Renamed(old(performances)[source], name, description, now)]
      ensures forall k :: 0 <= k < |copies| ==> copies[k] == TrimmedCopy(ordered[k], newMs[k], p, old(nextEvent) + k, now)
      ensures SameRowsExcept(old(events), events, Some(p))
    {
      p := nextPerformance;
      var perf := performances[source];
      var text := if description == None then perf.description else description;
      performances := performances[p := Performance(perf.stage, Some(name), text, now, perf.savedOn, perf.recording)];
      nextPerformance := p + 1;
      copies := InsertTrimmed(ordered, newMs, p, now);
    }

    /** The insert loop of a trim: each row of the source, in its sort order, at its compressed time. */
    method InsertTrimmed(ordered: seq<Event>, newMs: seq<real>, p: nat, now: real) returns (ghost copies: seq<Event>)
      requires Valid() && |newMs| == |ordered| && p < nextPerformance
      modifies this`events, this`nextEvent
      ensures Valid() && events == old(events) + copies && |copies| == |ordered|
      ensures forall k :: 0 <= k < |copies| ==> copies[k] == TrimmedCopy(ordered[k], newMs[k], p, old(nextEvent) + k, now)
      ensures SameRowsExcept(old(events), events, Some(p))
    {
      ghost var was, first := events, nextEvent;
      copies := [];
      for i := 0 to |ordered|
        invariant nextEvent == first + i && |copies| == i
        invariant events == was + copies
        invariant forall k :: 0 <= k < i ==> copies[k] == TrimmedCopy(ordered[k], newMs[k], p, first + k, now)
      {
        var e := TrimmedCopy(ordered[i], newMs[i], p, nextEvent, now);
        copies := copies + [e];
        events := events + [e];
        nextEvent := nextEvent + 1;
      }
      AppendBatch(was, copies, first, nextPerformance, Some(p));
    }
  }
}
