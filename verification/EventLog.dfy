/** The `events` table and its readers and writers: live rows, sweeps, saved
    recordings and trimmed duplicates. */
module EventLog {
  import opened Prelude
  import opened Text
  import opened TopicMatch
  import opened TimelineTrim
  import opened SlugAllocation

  /** A JSON payload; `at` is its numeric chat clock, when it is an object that has one. */
  datatype Payload = Payload(body: string, at: Option<real>)

  datatype Event = Event(id: nat, topic: string, ts: Option<real>, perf: Option<nat>, payload: Payload, created: real)

  datatype Performance = Performance(
    stage: nat, name: Option<string>, description: Option<string>, createdOn: real, savedOn: Option<real>, recording: bool)

  /** The row filters that the services send to the database. */
  datatype Query =
    | OfPerformance(perf: Option<nat>)
    | StageView(perf: Option<nat>, slug: string, cursor: nat)
    | Recordable(slug: string, after: real, before: real)
    | Sweepable(slug: string)

  predicate Selects(q: Query, e: Event) {
    match q
    case OfPerformance(perf) => e.perf == perf
    case StageView(perf, slug, cursor) => e.perf == perf && Like(StagePattern(slug), e.topic) && e.id > cursor
    case Recordable(slug, after, before) => ILike(StagePattern(slug), e.topic) && after < e.created < before
    case Sweepable(slug) => e.perf == None && ILike(StagePattern(slug), e.topic)
  }

  /** The matching rows in primary-key order. */
  function Select(q: Query, es: seq<Event>): seq<Event> {
    if es == [] then [] else
      var last := es[|es| - 1];
      Select(q, es[..|es| - 1]) + if Selects(q, last) then [last] else []
  }

  lemma SelectSnoc(q: Query, es: seq<Event>, e: Event)
    ensures Select(q, es + [e]) == Select(q, es) + if Selects(q, e) then [e] else []
  {
    assert (es + [e])[..|es|] == es;
  }

  lemma {:induction false} SelectAppend(q: Query, a: seq<Event>, b: seq<Event>)
    ensures Select(q, a + b) == Select(q, a) + Select(q, b)
  {
    if b == [] {
      assert a + b == a;
    } else {
      var n := |b| - 1;
      assert (a + b)[..|a| + n] == a + b[..n];
      SelectAppend(q, a, b[..n]);
    }
  }

  lemma {:induction false} SelectEmpty(q: Query, es: seq<Event>)
    ensures Select(q, es) == [] <==> forall e :: e in es ==> !Selects(q, e)
  {
    if es != [] {
      SelectEmpty(q, es[..|es| - 1]);
      assert es == es[..|es| - 1] + [es[|es| - 1]];
    }
  }

  lemma {:induction false} SelectAll(q: Query, es: seq<Event>)
    requires forall i :: 0 <= i < |es| ==> Selects(q, es[i])
    ensures Select(q, es) == es
  {
    if es != [] {
      SelectAll(q, es[..|es| - 1]);
      assert es == es[..|es| - 1] + [es[|es| - 1]];
    }
  }

  lemma {:induction false} SelectMembers(q: Query, es: seq<Event>)
    ensures forall e :: e in Select(q, es) <==> e in es && Selects(q, e)
  {
    if es != [] {
      SelectMembers(q, es[..|es| - 1]);
      assert es == es[..|es| - 1] + [es[|es| - 1]];
    }
  }

  ghost predicate RisingIds(es: seq<Event>) {
    forall i, j :: 0 <= i < j < |es| ==> es[i].id < es[j].id
  }

  lemma NothingBeyond(es: seq<Event>, perf: Option<nat>, slug: string, d: nat)
    requires forall i :: 0 <= i < |es| ==> es[i].id <= d
    ensures Select(StageView(perf, slug, d), es) == []
  {
    SelectEmpty(StageView(perf, slug, d), es);
  }

  /** What lies beyond the cursor d is the end of what lies beyond an earlier one. */
  ghost predicate Continues(all: seq<Event>, rest: seq<Event>, d: nat, k: nat) {
    && k <= |all| && all[k..] == rest
    && (forall i :: 0 <= i < k ==> all[i].id <= d) && (forall i :: 0 <= i < |rest| ==> d < rest[i].id)
  }

  lemma ContinuesBeyond(all: seq<Event>, rest: seq<Event>, d: nat, k: nat, e: Event)
    requires Continues(all, rest, d, k) && d < e.id
    ensures Continues(all + [e], rest + [e], d, k)
  {
    assert (all + [e])[k..] == all[k..] + [e];
  }

  lemma ContinuesUpTo(all: seq<Event>, d: nat, k: nat, e: Event)
    requires Continues(all, [], d, k) && e.id <= d
    ensures Continues(all + [e], [], d, k + 1)
  {
    assert k == |all|;
  }

  /** A client that comes back with the cursor d gets exactly what follows the rows up to d, and nothing twice. */
  lemma {:induction false} CursorResumes(es: seq<Event>, perf: Option<nat>, slug: string, c: nat, d: nat) returns (k: nat)
    requires RisingIds(es) && c <= d
    ensures Continues(Select(StageView(perf, slug, c), es), Select(StageView(perf, slug, d), es), d, k)
  {
    k := 0;
    if es != [] {
      var front, last := es[..|es| - 1], es[|es| - 1];
      assert es == front + [last];
      k := CursorResumes(front, perf, slug, c, d);
      var before, after := Select(StageView(perf, slug, c), front), Select(StageView(perf, slug, d), front);
      SelectSnoc(StageView(perf, slug, c), front, last);
      SelectSnoc(StageView(perf, slug, d), front, last);
      assert before + [] == before && after + [] == after;
      if last.id <= d {
        NothingBeyond(front, perf, slug, d);
        if Selects(StageView(perf, slug, c), last) {
          ContinuesUpTo(before, d, k, last);
          k := k + 1;
        }
      } else if Selects(StageView(perf, slug, c), last) {
        ContinuesBeyond(before, after, d, k, last);
      }
    }
  }

  // ---------------------------------------------------------------- sweeping

  /** `performance_id` of one row after a sweep into p. */
  function SweepRow(e: Event, slug: string, p: nat): Event {
    if Selects(Sweepable(slug), e) then e.(perf := Some(p)) else e
  }

  function Swept(es: seq<Event>, slug: string, p: nat): seq<Event> {
    if es == [] then []
    else Swept(es[..|es| - 1], slug, p) + [SweepRow(es[|es| - 1], slug, p)]
  }

  function Relabel(es: seq<Event>, p: nat): seq<Event> {
    if es == [] then []
    else Relabel(es[..|es| - 1], p) + [es[|es| - 1].(perf := Some(p))]
  }

  /** Row i is live, and its topic answers to the slug up to case. */
  ghost predicate SweptAt(es: seq<Event>, slug: string, i: int) {
    0 <= i < |es| && es[i].perf.None? && ILike("%/" + slug + "/%", es[i].topic)
  }

  lemma NothingToSweep(es: seq<Event>, slug: string)
    ensures Select(Sweepable(slug), es) == [] <==> forall i :: !SweptAt(es, slug, i)
  {
    SelectEmpty(Sweepable(slug), es);
    assert StagePattern(slug) == "%/" + slug + "/%";
    forall i | 0 <= i < |es| ensures Selects(Sweepable(slug), es[i]) <==> SweptAt(es, slug, i) {}
    forall e | e in es && Selects(Sweepable(slug), e) ensures exists i :: SweptAt(es, slug, i) {
      var i :| 0 <= i < |es| && es[i] == e;
      assert SweptAt(es, slug, i);
    }
  }

  ghost predicate FreshPerformance(es: seq<Event>, p: nat) {
    forall e :: e in es ==> e.perf != Some(p)
  }

  /** Sweeping empties the stage's live board and hands exactly that board to the new performance. */
  lemma {:induction false} SweepMovesLiveView(es: seq<Event>, slug: string, p: nat, cursor: nat)
    requires FreshPerformance(es, p)
    ensures Select(StageView(None, slug, cursor), Swept(es, slug, p)) == []
    ensures Select(StageView(Some(p), slug, cursor), Swept(es, slug, p))
         == Relabel(Select(StageView(None, slug, cursor), es), p)
  {
    if es != [] {
      var front, last := es[..|es| - 1], es[|es| - 1];
      assert last in es;
      forall e | e in front ensures e in es {}
      SweepMovesLiveView(front, slug, p, cursor);
      SweepMovesOneMore(front, last, slug, p, cursor);
      assert es == front + [last];
    }
  }

  lemma SweepMovesOneMore(front: seq<Event>, last: Event, slug: string, p: nat, cursor: nat)
    requires last.perf != Some(p)
    requires Select(StageView(None, slug, cursor), Swept(front, slug, p)) == []
    requires Select(StageView(Some(p), slug, cursor), Swept(front, slug, p)) == Relabel(Select(StageView(None, slug, cursor), front), p)
    ensures Select(StageView(None, slug, cursor), Swept(front + [last], slug, p)) == []
    ensures Select(StageView(Some(p), slug, cursor), Swept(front + [last], slug, p))
         == Relabel(Select(StageView(None, slug, cursor), front + [last]), p)
  {
    var row, live := SweepRow(last, slug, p), Select(StageView(None, slug, cursor), front);
    assert (front + [last])[..|front|] == front;
    SweepRowMoves(last, slug, p, cursor);
    SelectSnoc(StageView(None, slug, cursor), front, last);
    SelectSnoc(StageView(None, slug, cursor), Swept(front, slug, p), row);
    SelectSnoc(StageView(Some(p), slug, cursor), Swept(front, slug, p), row);
    RelabelSnoc(live, last, p);
    assert live + [] == live && Relabel(live, p) + [] == Relabel(live, p);
  }

  /** A live row on the stage's board leaves it for the new performance; no other row shows up there. */
  lemma SweepRowMoves(e: Event, slug: string, p: nat, cursor: nat)
    requires e.perf != Some(p)
    ensures !Selects(StageView(None, slug, cursor), SweepRow(e, slug, p))
    ensures Selects(StageView(Some(p), slug, cursor), SweepRow(e, slug, p)) <==> Selects(StageView(None, slug, cursor), e)
    ensures Selects(StageView(None, slug, cursor), e) ==> SweepRow(e, slug, p) == e.(perf := Some(p))
  {
    if Like(StagePattern(slug), e.topic) {
      LikeImpliesILike(StagePattern(slug), e.topic);
    }
  }

  lemma RelabelSnoc(es: seq<Event>, e: Event, p: nat)
    ensures Relabel(es + [e], p) == Relabel(es, p) + [e.(perf := Some(p))]
  {
    assert (es + [e])[..|es|] == es;
  }

  lemma {:induction false} RelabelMessages(es: seq<Event>, p: nat)
    ensures Messages(Relabel(es, p)) == Messages(es)
  {
    if es != [] {
      RelabelMessages(es[..|es| - 1], p);
      MessagesLast(Relabel(es[..|es| - 1], p), es[|es| - 1].(perf := Some(p)));
      MessagesLast(es[..|es| - 1], es[|es| - 1]);
      assert es == es[..|es| - 1] + [es[|es| - 1]];
    }
  }

  lemma {:induction false} SweptLength(es: seq<Event>, slug: string, p: nat)
    ensures |Swept(es, slug, p)| == |es|
    ensures forall i :: 0 <= i < |es| ==> Swept(es, slug, p)[i] == SweepRow(es[i], slug, p)
  {
    if es != [] {
      SweptLength(es[..|es| - 1], slug, p);
    }
  }

  /** A sweep never alters the rows of a performance that already existed. */
  lemma {:induction false} SweepKeepsPerformances(es: seq<Event>, slug: string, p: nat, q: nat)
    requires p != q
    ensures Select(OfPerformance(Some(q)), Swept(es, slug, p)) == Select(OfPerformance(Some(q)), es)
  {
    if es != [] {
      var front := es[..|es| - 1];
      SweepKeepsPerformances(front, slug, p, q);
      SweptLength(es, slug, p);
      assert Swept(es, slug, p)[..|es| - 1] == Swept(front, slug, p) by { SweptLength(front, slug, p); }
    }
  }

  /** Another stage's live board survives a sweep exactly when no live row answers to both patterns. */
  lemma {:induction false} SweepSparesOtherStage(es: seq<Event>, slug: string, other: string, p: nat)
    ensures Select(StageView(None, other, 0), Swept(es, slug, p)) == Select(StageView(None, other, 0), es)
       <==> forall e :: e in es && Selects(StageView(None, other, 0), e) ==> !ILike(StagePattern(slug), e.topic)
  {
    SweepLosesRows(es, slug, other, p);
    if forall e :: e in es && Selects(StageView(None, other, 0), e) ==> !ILike(StagePattern(slug), e.topic) {
    } else {
      var e :| e in es && Selects(StageView(None, other, 0), e) && ILike(StagePattern(slug), e.topic);
      SelectMembers(StageView(None, other, 0), es);
      SelectMembers(StageView(None, other, 0), Swept(es, slug, p));
      SweptRowIsGone(es, slug, p, e);
    }
  }

  lemma SweptRowIsGone(es: seq<Event>, slug: string, p: nat, e: Event)
    requires Selects(Sweepable(slug), e)
    ensures e !in Swept(es, slug, p)
  {
    SweptLength(es, slug, p);
    forall i | 0 <= i < |es| ensures Swept(es, slug, p)[i] != e {
      assert Swept(es, slug, p)[i] == SweepRow(es[i], slug, p);
    }
  }

  lemma {:induction false} SweepLosesRows(es: seq<Event>, slug: string, other: string, p: nat)
    ensures (forall e :: e in es && Selects(StageView(None, other, 0), e) ==> !ILike(StagePattern(slug), e.topic))
        ==> Select(StageView(None, other, 0), Swept(es, slug, p)) == Select(StageView(None, other, 0), es)
  {
    if es != [] {
      var front, last := es[..|es| - 1], es[|es| - 1];
      assert es == front + [last];
      SweepLosesRows(front, slug, other, p);
      SweptLength(es, slug, p);
      assert Swept(es, slug, p)[..|es| - 1] == Swept(front, slug, p) by { SweptLength(front, slug, p); }
    }
  }

  ghost predicate IsThreePart(topic: string, space: string, mid: string, leaf: string) {
    SlashFree(space) && SlashFree(mid) && SlashFree(leaf) && topic == Topic(space, mid, leaf)
  }

  /** Every topic has the three-part shape of the MQTT name space. */
  ghost predicate ThreePartTopics(es: seq<Event>) {
    forall e :: e in es ==> exists space, mid, leaf :: IsThreePart(e.topic, space, mid, leaf)
  }

  ghost predicate SweepLeaves(es: seq<Event>, slug: string, other: string, p: nat) {
    Select(StageView(None, other, 0), Swept(es, slug, p)) == Select(StageView(None, other, 0), es)
  }

  /** Some middle segment answers to both slugs: they agree up to case wherever neither has an underscore. */
  predicate Overlap(slug: string, other: string) {
    |slug| == |other|
    && forall i :: 0 <= i < |slug| ==> slug[i] == '_' || other[i] == '_' || LowerChar(slug[i]) == LowerChar(other[i])
  }

  lemma SharedSegmentOverlaps(slug: string, other: string, mid: string)
    requires Agrees(Lower(slug), Lower(mid)) && Agrees(other, mid)
    ensures Overlap(slug, other)
  {
    forall i | 0 <= i < |slug| ensures slug[i] == '_' || other[i] == '_' || LowerChar(slug[i]) == LowerChar(other[i]) {
      assert Lower(slug)[i] == '_' || Lower(slug)[i] == Lower(mid)[i];
    }
  }

  /** A segment that answers to both of two overlapping slugs. */
  function Shared(slug: string, other: string): string
    requires |slug| == |other|
  {
    seq(|slug|, i requires 0 <= i < |slug| => if other[i] == '_' then slug[i] else other[i])
  }

  lemma OverlapIsShared(slug: string, other: string)
    requires Overlap(slug, other) && SlashFree(slug) && SlashFree(other)
    ensures var mid := Shared(slug, other);
      SlashFree(mid) && Agrees(other, mid) && Agrees(Lower(slug), Lower(mid))
  {
    var mid := Shared(slug, other);
    forall i | 0 <= i < |slug| ensures mid[i] != '/' {
      assert slug[i] in slug && other[i] in other;
    }
  }

  /** One live row on the board of both stages, which sweeping the first takes from the second. */
  function SharedRow(slug: string, other: string): Event
    requires |slug| == |other|
  {
    Event(1, Topic("performance", Shared(slug, other), "board"), Some(0.0), None, Payload("", None), 0.0)
  }

  lemma SharedRowIsLost(slug: string, other: string, p: nat)
    requires Plain(slug) && SlashFree(slug) && Plain(other) && SlashFree(other) && Overlap(slug, other)
    ensures ThreePartTopics([SharedRow(slug, other)]) && !SweepLeaves([SharedRow(slug, other)], slug, other, p)
  {
    var mid, row := Shared(slug, other), SharedRow(slug, other);
    OverlapIsShared(slug, other);
    assert IsThreePart(row.topic, "performance", mid, "board");
    StageOfTopic(slug, "performance", mid, "board");
    StageOfTopic(other, "performance", mid, "board");
    SweepSparesOtherStage([row], slug, other, p);
    assert row in [row] && Selects(StageView(None, other, 0), row);
  }

  lemma ApartIsSpared(es: seq<Event>, slug: string, other: string, p: nat)
    requires Plain(slug) && SlashFree(slug) && Plain(other) && SlashFree(other)
    requires ThreePartTopics(es) && !Overlap(slug, other)
    ensures SweepLeaves(es, slug, other, p)
  {
    forall e | e in es && Selects(StageView(None, other, 0), e) ensures !ILike(StagePattern(slug), e.topic) {
      var space, mid, leaf :| IsThreePart(e.topic, space, mid, leaf);
      StageOfTopic(other, space, mid, leaf);
      StageOfTopic(slug, space, mid, leaf);
      if Agrees(Lower(slug), Lower(mid)) {
        SharedSegmentOverlaps(slug, other, mid);
      }
    }
    SweepSparesOtherStage(es, slug, other, p);
  }

  /** Over all tables of three-part topics, sweeping one stage leaves the other's board alone
      exactly when the two slugs do not overlap. */
  lemma SweepIsLocal(slug: string, other: string)
    requires Plain(slug) && SlashFree(slug) && Plain(other) && SlashFree(other)
    ensures (forall es, p :: ThreePartTopics(es) ==> SweepLeaves(es, slug, other, p)) <==> !Overlap(slug, other)
  {
    if Overlap(slug, other) {
      SharedRowIsLost(slug, other, 0);
    } else {
      forall es, p | ThreePartTopics(es) ensures SweepLeaves(es, slug, other, p) {
        ApartIsSpared(es, slug, other, p);
      }
    }
  }

  lemma SlugTextIsLiteral(s: string)
    requires SlugText(s)
    ensures Literal(s) && SlashFree(s) && Lower(s) == s
  {
    forall i | 0 <= i < |s|
      ensures s[i] != '%' && s[i] != '_' && s[i] != '\\' && s[i] != '/' && Lower(s)[i] == s[i]
    {
      assert SlugChar(s[i]);
    }
  }

  lemma SlugTextOverlap(slug: string, other: string)
    requires SlugText(slug) && SlugText(other)
    ensures Overlap(slug, other) <==> slug == other
  {
    SlugTextIsLiteral(slug);
    SlugTextIsLiteral(other);
    if Overlap(slug, other) {
      forall i | 0 <= i < |slug| ensures slug[i] == other[i] {
        assert slug[i] in slug && other[i] in other;
        assert Lower(slug)[i] == slug[i] && Lower(other)[i] == other[i];
      }
    }
  }

  /** Stages named by get_short_name, which never gives a slug twice, are independent of each other. */
  lemma AllocatedSlugsAreIndependent(es: seq<Event>, slug: string, other: string, p: nat)
    requires SlugText(slug) && SlugText(other) && slug != other && ThreePartTopics(es)
    ensures SweepLeaves(es, slug, other, p)
  {
    SlugTextIsLiteral(slug);
    SlugTextIsLiteral(other);
    SlugTextOverlap(slug, other);
    ApartIsSpared(es, slug, other, p);
  }

  // ---------------------------------------------------------- saved recordings

  /** Inserts of the given rows under new ids and one performance. */
  function Copies(src: seq<Event>, p: nat, nextId: nat): (r: seq<Event>)
    ensures |r| == |src|
    ensures forall i :: 0 <= i < |src| ==> r[i] == src[i].(id := nextId + i, perf := Some(p))
  {
    seq(|src|, i requires 0 <= i < |src| => src[i].(id := nextId + i, perf := Some(p)))
  }

  /** What a viewer sees of a row, whatever its id and performance. */
  datatype Message = Message(topic: string, ts: Option<real>, payload: Payload)

  function MessageOf(e: Event): Message { Message(e.topic, e.ts, e.payload) }

  function Messages(es: seq<Event>): (r: seq<Message>)
    ensures |r| == |es| && forall i :: 0 <= i < |es| ==> r[i] == MessageOf(es[i])
  {
    seq(|es|, i requires 0 <= i < |es| => MessageOf(es[i]))
  }

  /** The live messages of a stage that arrived inside a recording's window. */
  function LiveDuring(es: seq<Event>, slug: string, after: real, before: real): seq<Event> {
    if es == [] then [] else
      var last := es[|es| - 1];
      LiveDuring(es[..|es| - 1], slug, after, before)
      + if last.perf == None && Like(StagePattern(slug), last.topic) && after < last.created < before
        then [last] else []
  }

  lemma {:induction false} LiveDuringMembers(es: seq<Event>, slug: string, after: real, before: real)
    ensures forall e :: e in LiveDuring(es, slug, after, before) <==>
      e in es && e.perf.None? && Like("%/" + slug + "/%", e.topic) && after < e.created && e.created < before
  {
    if es != [] {
      LiveDuringMembers(es[..|es| - 1], slug, after, before);
      assert es == es[..|es| - 1] + [es[|es| - 1]];
    }
  }

  /** Row i was created inside the window, and its topic answers to the slug up to case. */
  ghost predicate RecordedAt(es: seq<Event>, slug: string, after: real, before: real, i: int) {
    0 <= i < |es| && after < es[i].created && es[i].created < before && ILike("%/" + slug + "/%", es[i].topic)
  }

  lemma NothingToRecord(es: seq<Event>, slug: string, after: real, before: real)
    ensures Select(Recordable(slug, after, before), es) == [] <==> forall i :: !RecordedAt(es, slug, after, before, i)
  {
    SelectEmpty(Recordable(slug, after, before), es);
    assert StagePattern(slug) == "%/" + slug + "/%";
    forall i | 0 <= i < |es| ensures Selects(Recordable(slug, after, before), es[i]) <==> RecordedAt(es, slug, after, before, i) {}
    forall e | e in es && Selects(Recordable(slug, after, before), e) ensures exists i :: RecordedAt(es, slug, after, before, i) {
      var i :| 0 <= i < |es| && es[i] == e;
      assert RecordedAt(es, slug, after, before, i);
    }
  }

  /** The recording p of `slug` after saving it over the table es. */
  function RecordedView(es: seq<Event>, slug: string, p: nat, after: real, before: real, nextId: nat): seq<Event> {
    Select(StageView(Some(p), slug, 0), es + Copies(Select(Recordable(slug, after, before), es), p, nextId))
  }

  /** A row that a save takes although it is not live, or that p already holds. */
  predicate Stale(e: Event, slug: string, p: nat, after: real, before: real) {
    (e.perf == Some(p) && Like(StagePattern(slug), e.topic)) || StaleInWindow(e, slug, after, before)
  }

  /** A row of some performance that was created inside the window. */
  predicate StaleInWindow(e: Event, slug: string, after: real, before: real) {
    e.perf.Some? && Like(StagePattern(slug), e.topic) && after < e.created < before
  }

  lemma {:induction false} CopiesSelected(src: seq<Event>, slug: string, p: nat, nextId: nat)
    requires nextId > 0
    ensures Select(StageView(Some(p), slug, 0), Copies(src, p, nextId)) == ViewedCopies(src, slug, p, nextId)
  {
    if src != [] {
      var n := |src| - 1;
      CopiesSelected(src[..n], slug, p, nextId);
      assert Copies(src, p, nextId)[..n] == Copies(src[..n], p, nextId);
    }
  }

  function ViewedCopies(src: seq<Event>, slug: string, p: nat, nextId: nat): seq<Event> {
    if src == [] then [] else
      var n := |src| - 1;
      ViewedCopies(src[..n], slug, p, nextId)
      + if Like(StagePattern(slug), src[n].topic) then [src[n].(id := nextId + n, perf := Some(p))] else []
  }

  /** The view of the copies after one more row of the table. */
  lemma ViewedCopiesStep(es: seq<Event>, slug: string, p: nat, after: real, before: real, nextId: nat)
    requires es != []
    ensures var front, last := es[..|es| - 1], es[|es| - 1];
      var src := Select(Recordable(slug, after, before), front);
      ViewedCopies(Select(Recordable(slug, after, before), es), slug, p, nextId)
      == ViewedCopies(src, slug, p, nextId)
       + if Like(StagePattern(slug), last.topic) && after < last.created < before
         then [last.(id := nextId + |src|, perf := Some(p))] else []
  {
    var front, last := es[..|es| - 1], es[|es| - 1];
    var src := Select(Recordable(slug, after, before), front);
    if Like(StagePattern(slug), last.topic) {
      LikeImpliesILike(StagePattern(slug), last.topic);
    }
    assert (src + [last])[..|src|] == src;
    if Selects(Recordable(slug, after, before), last) {
      assert Select(Recordable(slug, after, before), es) == src + [last];
    } else {
      assert Select(Recordable(slug, after, before), es) == src;
    }
  }

  /** A viewer of the copies sees at least the live messages of the window, and more when a row of it is stale. */
  lemma {:induction false} ViewedCopiesCount(es: seq<Event>, slug: string, p: nat, after: real, before: real, nextId: nat)
    ensures var v := ViewedCopies(Select(Recordable(slug, after, before), es), slug, p, nextId);
      var live := LiveDuring(es, slug, after, before);
      |v| >= |live| && ((exists e :: e in es && StaleInWindow(e, slug, after, before)) ==> |v| > |live|)
  {
    if es != [] {
      var front, last := es[..|es| - 1], es[|es| - 1];
      assert es == front + [last];
      ViewedCopiesCount(front, slug, p, after, before, nextId);
      ViewedCopiesStep(es, slug, p, after, before, nextId);
    }
  }

  lemma MessagesLast(es: seq<Event>, e: Event)
    ensures Messages(es + [e]) == Messages(es) + [MessageOf(e)]
  {
  }

  /** Without stale rows the copies are the live messages of the window, in order. */
  lemma {:induction false} ViewedCopiesMessages(es: seq<Event>, slug: string, p: nat, after: real, before: real, nextId: nat)
    requires forall e :: e in es ==> !StaleInWindow(e, slug, after, before)
    ensures Messages(ViewedCopies(Select(Recordable(slug, after, before), es), slug, p, nextId))
         == Messages(LiveDuring(es, slug, after, before))
  {
    if es != [] {
      var front, last := es[..|es| - 1], es[|es| - 1];
      assert es == front + [last] && last in es;
      ViewedCopiesMessages(front, slug, p, after, before, nextId);
      ViewedCopiesStep(es, slug, p, after, before, nextId);
      var v := ViewedCopies(Select(Recordable(slug, after, before), front), slug, p, nextId);
      var live := LiveDuring(front, slug, after, before);
      assert !StaleInWindow(last, slug, after, before);
      LiveDuringSnoc(front, last, slug, after, before);
      if Like(StagePattern(slug), last.topic) && after < last.created < before {
        SameMessageLast(v, live, last.(id := nextId + |Select(Recordable(slug, after, before), front)|, perf := Some(p)), last);
      } else {
        assert v + [] == v && live + [] == live;
      }
    }
  }

  lemma SameMessageLast(v: seq<Event>, live: seq<Event>, copy: Event, e: Event)
    requires Messages(v) == Messages(live) && MessageOf(copy) == MessageOf(e)
    ensures Messages(v + [copy]) == Messages(live + [e])
  {
    MessagesLast(v, copy);
    MessagesLast(live, e);
  }

  lemma LiveDuringSnoc(es: seq<Event>, e: Event, slug: string, after: real, before: real)
    ensures LiveDuring(es + [e], slug, after, before)
         == LiveDuring(es, slug, after, before)
          + if e.perf == None && Like(StagePattern(slug), e.topic) && after < e.created < before then [e] else []
  {
    assert (es + [e])[..|es|] == es;
  }

  /** A saved recording replays each live message of its window once exactly when
      no row of the stage was already stored under this performance or, inside the
      window, under any other. */
  lemma RecordingIsFaithful(es: seq<Event>, slug: string, p: nat, after: real, before: real, nextId: nat)
    requires nextId > 0 && forall e :: e in es ==> e.id > 0
    ensures Messages(RecordedView(es, slug, p, after, before, nextId)) == Messages(LiveDuring(es, slug, after, before))
       <==> forall e :: e in es ==> !Stale(e, slug, p, after, before)
  {
    var src := Select(Recordable(slug, after, before), es);
    var already := Select(StageView(Some(p), slug, 0), es);
    SelectAppend(StageView(Some(p), slug, 0), es, Copies(src, p, nextId));
    CopiesSelected(src, slug, p, nextId);
    ViewedCopiesCount(es, slug, p, after, before, nextId);
    SelectEmpty(StageView(Some(p), slug, 0), es);
    var live := LiveDuring(es, slug, after, before);
    var view := RecordedView(es, slug, p, after, before, nextId);
    assert view == already + ViewedCopies(src, slug, p, nextId);
    if e :| e in es && Stale(e, slug, p, after, before) {
      if after < e.created < before {
        assert StaleInWindow(e, slug, after, before);
      } else {
        assert Selects(StageView(Some(p), slug, 0), e);
        assert already != [];
      }
      assert |view| > |live|;
      assert |Messages(view)| != |Messages(live)|;
    } else {
      forall e | e in es ensures !StaleInWindow(e, slug, after, before) {
        assert !Stale(e, slug, p, after, before);
      }
      ViewedCopiesMessages(es, slug, p, after, before, nextId);
      assert already == [];
      assert view == ViewedCopies(src, slug, p, nextId);
    }
  }

  /** One row of another performance inside the window is enough: the recording shows it, the live board never did. */
  lemma RecordingRepeatsOldRows()
    ensures var es := [Event(1, Topic("performance", "hall", "board"), Some(1.0), Some(7), Payload("", None), 5.0)];
      Messages(RecordedView(es, "hall", 8, 0.0, 10.0, 2)) != Messages(LiveDuring(es, "hall", 0.0, 10.0))
  {
    HallTopic();
    var row := Event(1, Topic("performance", "hall", "board"), Some(1.0), Some(7), Payload("", None), 5.0);
    OneStaleRow(row, "hall", 8, 0.0, 10.0);
  }

  lemma HallTopic()
    ensures Like(StagePattern("hall"), Topic("performance", "hall", "board"))
  {
    StageOfTopic("hall", "performance", "hall", "board");
  }

  lemma OneStaleRow(row: Event, slug: string, p: nat, after: real, before: real)
    requires row.id == 1 && StaleInWindow(row, slug, after, before)
    ensures Messages(RecordedView([row], slug, p, after, before, 2)) != Messages(LiveDuring([row], slug, after, before))
  {
    RecordingIsFaithful([row], slug, p, after, before, 2);
    assert row in [row] && Stale(row, slug, p, after, before);
  }

  // ------------------------------------------------------- trimmed duplicates

  predicate IsChatTopic(topic: string) {
    |topic| >= 5 && topic[|topic| - 5..] == "/chat"
  }

  predicate HasChatClock(e: Event) {
    IsChatTopic(e.topic) && e.payload.at.Some?
  }

  /** The time a trim sorts by: the chat clock when there is one, else the arrival time. */
  function SortTimeMs(e: Event): real {
    if HasChatClock(e) then e.payload.at.value else MqttTimestampToMs(e.ts)
  }

  /** The event is a chat message with a numeric clock that reads t. */
  ghost predicate ChatAt(e: Event, t: real) {
    (exists head: string :: e.topic == head + "/chat") && e.payload.at == Some(t)
  }

  lemma ChatTopicExactly(topic: string)
    ensures IsChatTopic(topic) <==> exists head: string :: topic == head + "/chat"
  {
    if IsChatTopic(topic) {
      assert topic == topic[..|topic| - 5] + "/chat";
    }
    if head: string :| topic == head + "/chat" {
      assert topic[|head|..] == "/chat";
    }
  }

  /** A chat clock counts as it is; otherwise the arrival time does, in seconds below 10^12 and in milliseconds from there. */
  lemma SortTimeExactly(e: Event)
    ensures HasChatClock(e) <==> exists t :: ChatAt(e, t)
    ensures forall t :: ChatAt(e, t) ==> SortTimeMs(e) == t
    ensures !HasChatClock(e) ==>
      match e.ts case None => SortTimeMs(e) == 0.0
                 case Some(x) => SortTimeMs(e) == if x >= 1000000000000.0 then x else x * 1000.0
  {
    ChatTopicExactly(e.topic);
    if HasChatClock(e) {
      assert ChatAt(e, e.payload.at.value);
    }
  }

  predicate Before(a: Event, b: Event) {
    SortTimeMs(a) < SortTimeMs(b) || (SortTimeMs(a) == SortTimeMs(b) && a.id <= b.id)
  }

  ghost predicate InOrder(s: seq<Event>) {
    forall i, j :: 0 <= i < j < |s| ==> Before(s[i], s[j])
  }

  function Insert(e: Event, s: seq<Event>): seq<Event> {
    if s == [] || Before(e, s[0]) then [e] + s else [s[0]] + Insert(e, s[1..])
  }

  /** `sorted(events, key=(sort time, id))` */
  function SortEvents(s: seq<Event>): seq<Event> {
    if s == [] then [] else Insert(s[0], SortEvents(s[1..]))
  }

  lemma {:induction false} InsertSorts(e: Event, s: seq<Event>)
    requires InOrder(s)
    ensures InOrder(Insert(e, s)) && multiset(Insert(e, s)) == multiset(s) + multiset{e}
  {
    if s != [] && !Before(e, s[0]) {
      InsertSorts(e, s[1..]);
      assert s == [s[0]] + s[1..];
      var t := Insert(e, s[1..]);
      forall i | 0 <= i < |t| ensures Before(s[0], t[i]) {
        assert t[i] in multiset(t);
        assert t[i] == e || t[i] in s[1..];
      }
    }
  }

  lemma {:induction false} SortEventsSorts(s: seq<Event>)
    ensures InOrder(SortEvents(s)) && multiset(SortEvents(s)) == multiset(s)
    ensures |SortEvents(s)| == |s|
  {
    if s != [] {
      SortEventsSorts(s[1..]);
      InsertSorts(s[0], SortEvents(s[1..]));
      assert s == [s[0]] + s[1..];
    }
    assert |multiset(SortEvents(s))| == |multiset(s)|;
  }

  /** In the order of a trim times never fall, and rows of one time come by id. */
  lemma InOrderByTime(s: seq<Event>, i: nat, j: nat)
    requires InOrder(s) && i < j < |s|
    ensures SortTimeMs(s[i]) <= SortTimeMs(s[j]) && (SortTimeMs(s[i]) == SortTimeMs(s[j]) ==> s[i].id <= s[j].id)
  {
    assert Before(s[i], s[j]);
  }

  /** What an event says, whenever it is played. */
  datatype Content = Content(topic: string, body: string)

  function Contents(es: seq<Event>): (r: seq<Content>)
    ensures |r| == |es| && forall i :: 0 <= i < |es| ==> r[i] == Content(es[i].topic, es[i].payload.body)
  {
    seq(|es|, i requires 0 <= i < |es| => Content(es[i].topic, es[i].payload.body))
  }

  lemma ContentsCons(e: Event, s: seq<Event>)
    ensures multiset(Contents([e] + s)) == multiset{Content(e.topic, e.payload.body)} + multiset(Contents(s))
  {
    assert Contents([e] + s) == [Content(e.topic, e.payload.body)] + Contents(s);
  }

  lemma {:induction false} InsertContents(e: Event, s: seq<Event>)
    ensures multiset(Contents(Insert(e, s))) == multiset(Contents(s)) + multiset{Content(e.topic, e.payload.body)}
  {
    if s == [] || Before(e, s[0]) {
      ContentsCons(e, s);
    } else {
      InsertContents(e, s[1..]);
      ContentsCons(s[0], Insert(e, s[1..]));
      ContentsCons(s[0], s[1..]);
      assert s == [s[0]] + s[1..];
    }
  }

  /** Sorting says the same things. */
  lemma {:induction false} SortKeepsContents(s: seq<Event>)
    ensures multiset(Contents(SortEvents(s))) == multiset(Contents(s))
  {
    if s != [] {
      SortKeepsContents(s[1..]);
      InsertContents(s[0], SortEvents(s[1..]));
      ContentsCons(s[0], s[1..]);
      assert s == [s[0]] + s[1..];
    }
  }

  function SortTimes(s: seq<Event>): (r: seq<real>)
    ensures |r| == |s| && forall i :: 0 <= i < |s| ==> r[i] == SortTimeMs(s[i])
  {
    seq(|s|, i requires 0 <= i < |s| => SortTimeMs(s[i]))
  }

  /** Python's `round`: to the nearest integer, ties to the even one. */
  function Round(x: real): (r: int)
    ensures -0.5 <= (r as real) - x <= 0.5
    ensures (r as real) - x == 0.5 || x - (r as real) == 0.5 ==> r % 2 == 0
  {
    var f := x.Floor;
    var d := x - (f as real);
    if d < 0.5 || (d == 0.5 && f % 2 == 0) then f else f + 1
  }

  function TrimmedCopy(e: Event, newMs: real, p: nat, id: nat, now: real): Event {
    Event(id, e.topic, Some(MsToMqttStorage(e.ts, newMs)), Some(p),
          if HasChatClock(e) then e.payload.(at := Some(Round(newMs) as real)) else e.payload, now)
  }

  /** The rows a trim inserts: one per source row, in source order, on the compressed timeline. */
  ghost predicate IsTrim(ordered: seq<Event>, pause: real, newMs: seq<real>, copies: seq<Event>, p: nat, nextId: nat, now: real) {
    && Compresses(SortTimes(ordered), pause, newMs)
    && |copies| == |ordered|
    && forall i :: 0 <= i < |ordered| ==> copies[i] == TrimmedCopy(ordered[i], newMs[i], p, nextId + i, now)
  }

  predicate IsWhole(t: Option<real>) {
    t.Some? && t.value == (t.value.Floor as real)
  }

  /** A row played at another time: the same topic and body, the time in the unit it was stored in, and of the payload
      only a chat clock moved, to the whole millisecond. */
  ghost predicate Replayed(was: Event, now: Event, ms: real) {
    && now.topic == was.topic && now.payload.body == was.payload.body
    && now.ts == (if was.ts.Some? && was.ts.value >= 1000000000000.0 then Some(ms) else Some(ms / 1000.0))
    && ((forall t :: !ChatAt(was, t)) ==> now.payload == was.payload)
    && ((exists t :: ChatAt(was, t)) ==> IsWhole(now.payload.at) && -0.5 <= now.payload.at.value - ms <= 0.5)
  }

  ghost predicate AllReplayed(ordered: seq<Event>, copies: seq<Event>, newMs: seq<real>) {
    |copies| == |newMs| == |ordered| && forall i :: 0 <= i < |copies| ==> Replayed(ordered[i], copies[i], newMs[i])
  }

  /** A trim says what its source says, row by row and in all. */
  lemma TrimKeepsContents(source: seq<Event>, pause: real, newMs: seq<real>, copies: seq<Event>, p: nat, nextId: nat, now: real)
    requires IsTrim(SortEvents(source), pause, newMs, copies, p, nextId, now)
    ensures multiset(Contents(copies)) == multiset(Contents(source))
    ensures AllReplayed(SortEvents(source), copies, newMs)
    ensures forall i :: 0 <= i < |copies| ==> copies[i].perf == Some(p) && copies[i].created == now
  {
    var ordered := SortEvents(source);
    forall i | 0 <= i < |copies| ensures Replayed(ordered[i], copies[i], newMs[i]) {
      SortTimeExactly(ordered[i]);
      assert HasChatClock(ordered[i]) ==> copies[i].payload.at == Some(Round(newMs[i]) as real);
    }
    assert Contents(copies) == Contents(ordered);
    SortKeepsContents(source);
  }

  /** A modern millisecond clock: from September 2001 to the year 33658. */
  predicate ModernMs(t: real) {
    MS_THRESHOLD <= t < 1000.0 * MS_THRESHOLD
  }

  /** On modern clocks every stored timestamp reads back as the compressed time. */
  lemma TrimReadsBack(ordered: seq<Event>, pause: real, newMs: seq<real>, copies: seq<Event>, p: nat, nextId: nat, now: real, i: nat)
    requires pause >= 0.0 && InOrder(ordered) && IsTrim(ordered, pause, newMs, copies, p, nextId, now)
    requires forall e :: e in ordered ==> ModernMs(SortTimeMs(e))
    requires i < |copies|
    ensures MqttTimestampToMs(copies[i].ts) == newMs[i]
    ensures HasChatClock(ordered[i]) ==>
              HasChatClock(copies[i]) && -0.5 <= SortTimeMs(copies[i]) - newMs[i] <= 0.5
    ensures !HasChatClock(ordered[i]) ==> SortTimeMs(copies[i]) == newMs[i]
  {
    var times := SortTimes(ordered);
    forall i, j | 0 <= i < j < |times| ensures times[i] <= times[j] {
      assert Before(ordered[i], ordered[j]);
    }
    CompressionOfSorted(times, pause, newMs);
    assert ordered[0] in ordered && ordered[i] in ordered;
    StorageRoundTrip(ordered[i].ts, newMs[i]);
  }

  predicate InMs(e: Event) { e.ts.Some? && e.ts.value >= MS_THRESHOLD }

  /** When all raw timestamps use one unit, replaying the copy by stored timestamp
      follows the source's sort order, with no gap above the pause. */
  lemma TrimReplaysInOrder(ordered: seq<Event>, pause: real, newMs: seq<real>, copies: seq<Event>, p: nat, nextId: nat, now: real, ms: bool)
    requires pause >= 0.0 && InOrder(ordered) && IsTrim(ordered, pause, newMs, copies, p, nextId, now)
    requires forall e :: e in ordered ==> InMs(e) == ms
    ensures forall i :: 0 <= i < |copies| ==> copies[i].ts.Some?
    ensures forall i, j :: 0 <= i < j < |copies| ==> copies[i].ts.value <= copies[j].ts.value
    ensures forall i, j :: 0 <= i < |copies| && j == i + 1 && j < |copies| ==>
              copies[j].ts.value - copies[i].ts.value <= if ms then pause else pause / 1000.0
  {
    var times := SortTimes(ordered);
    forall i, j | 0 <= i < j < |times| ensures times[i] <= times[j] {
      assert Before(ordered[i], ordered[j]);
    }
    CompressionOfSorted(times, pause, newMs);
    forall i | 0 <= i < |copies| ensures copies[i].ts == Some(if ms then newMs[i] else newMs[i] / 1000.0) {
      assert ordered[i] in ordered;
    }
    forall i, j | 0 <= i < |copies| && j == i + 1 && j < |copies|
      ensures copies[j].ts.value - copies[i].ts.value <= if ms then pause else pause / 1000.0
    {
      assert newMs[j] - newMs[j - 1] <= pause;
    }
  }

  /** In mixed units, on modern clocks, the stored order is the source's sort order
      exactly when no row kept in milliseconds precedes a row kept in seconds. */
  lemma TrimOrderInMixedUnits(ordered: seq<Event>, pause: real, newMs: seq<real>, copies: seq<Event>, p: nat, nextId: nat, now: real)
    requires pause >= 0.0 && InOrder(ordered) && IsTrim(ordered, pause, newMs, copies, p, nextId, now)
    requires forall e :: e in ordered ==> ModernMs(SortTimeMs(e))
    ensures forall i :: 0 <= i < |copies| ==> copies[i].ts.Some?
    ensures (forall i, j :: 0 <= i < j < |copies| ==> copies[i].ts.value <= copies[j].ts.value)
       <==> (forall i, j :: 0 <= i < j < |ordered| ==> !(InMs(ordered[i]) && !InMs(ordered[j])))
  {
    var times := SortTimes(ordered);
    forall i, j | 0 <= i < j < |times| ensures times[i] <= times[j] {
      assert Before(ordered[i], ordered[j]);
    }
    CompressionOfSorted(times, pause, newMs);
    forall i | 0 <= i < |ordered|
      ensures ModernMs(newMs[i])
      ensures copies[i].ts == Some(if InMs(ordered[i]) then newMs[i] else newMs[i] / 1000.0)
    {
      assert ordered[0] in ordered && ordered[i] in ordered;
    }
    forall i, j | 0 <= i < j < |ordered|
      ensures copies[i].ts.value <= copies[j].ts.value <==> !(InMs(ordered[i]) && !InMs(ordered[j]))
    {
      assert newMs[i] <= newMs[j];
    }
  }

  /** One row kept in milliseconds before one kept in seconds is enough: the copy replays them in reverse. */
  lemma MixedUnitsReverse(topic: string, now: real)
    requires !IsChatTopic(topic)
    ensures var first := Event(1, topic, Some(1000000000000.0), Some(3), Payload("", None), 0.0);
      var second := Event(2, topic, Some(1000000001.0), Some(3), Payload("", None), 0.0);
      var copies := [TrimmedCopy(first, 1000000000000.0, 4, 3, now), TrimmedCopy(second, 1000000001000.0, 4, 4, now)];
      && InOrder([first, second])
      && IsTrim([first, second], 5000.0, [1000000000000.0, 1000000001000.0], copies, 4, 3, now)
      && copies[0].ts.value > copies[1].ts.value
  {
  }
}
