/** The event_archive service: one MQTT subscriber, a bounded queue with an
    unfinished-task counter, N writers and a stop flag, over every interleaving
    of their steps between awaits. */
module ArchivePipeline {
  import opened Prelude
  import opened TopicMatch

  /** The JSON parser's verdict on a payload: a value, one of the two errors that the
      writer expects, or any other exception (recursion depth, digit limit). */
  datatype Parse = Value(json: string) | BadUtf8 | BadJson | OtherException

  datatype Raw = Bytes(parse: Parse) | Text(parse: Parse) | Unsupported

  datatype Decoded = Payload(json: string) | Rejected | Unhandled

  function DecodePayload(raw: Raw): Decoded {
    match raw
    case Bytes(Value(json)) => Payload(json)
    case Bytes(BadUtf8) => Rejected
    case Bytes(BadJson) => Rejected
    case Bytes(OtherException) => Unhandled
    case Text(Value(json)) => Payload(json)
    case Text(BadJson) => Rejected
    case Text(_) => Unhandled
    case Unsupported => Rejected
  }

  /** A payload that can be stored: bytes or text that parsed to a value. */
  predicate Parses(raw: Raw) {
    !raw.Unsupported? && raw.parse.Value?
  }

  /** A payload that the writer drops: of another type, or not JSON, or bytes that are not UTF-8. */
  predicate Undecodable(raw: Raw) {
    raw.Unsupported? || raw.parse == BadJson || (raw.Bytes? && raw.parse == BadUtf8)
  }

  /** The decoder hands over the parsed value, rejects, or lets an exception through, exactly as the payload says. */
  lemma DecodeExactly(raw: Raw)
    ensures Parses(raw) <==> DecodePayload(raw).Payload?
    ensures Parses(raw) ==> DecodePayload(raw) == Payload(raw.parse.json)
    ensures Undecodable(raw) <==> DecodePayload(raw) == Rejected
  {
  }

  datatype Item = Item(topic: string, raw: Raw, ts: real)

  /** Where a writer task stands; the number is the index of the item it holds. */
  datatype Writer =
    | Checking
    | Getting
    | Holding(m: nat)
    | Saving(m: nat)
    | Settling
    | Left
    | Died(stuck: Option<nat>)

  datatype Subscriber = Listening | Putting(item: Item) | Gone

  /** Where items end; the numbers are indices into the accepted items. */
  datatype Ended = Ended(persisted: multiset<nat>, dropped: multiset<nat>, failed: multiset<nat>, cancelled: multiset<nat>)

  datatype Fate = Pending | Persisted | Dropped | Failed | Cancelled

  /** `accepted` is every item ever put; the queue holds indices into it. */
  datatype State = State(
    accepted: seq<Item>, queue: seq<nat>, unfinished: int, stop: bool,
    sub: Subscriber, writers: seq<Writer>, ended: Ended)

  datatype WriterAct = Check | Timeout | Take | Decode | Commit | Fail | TaskDone | Cancel

  datatype Action =
    | Stop
    | Receive(topic: string, retain: bool, raw: Raw, now: real)
    | Put
    | SubscriberEnds
    | Turn(w: nat, act: WriterAct)

  function Start(writers: nat): State {
    State([], [], 0, false, Listening, seq(writers, i => Checking),
          Ended(multiset{}, multiset{}, multiset{}, multiset{}))
  }

  predicate EndsWith(s: string, tail: string) {
    |s| >= |tail| && s[|s| - |tail|..] == tail
  }

  lemma EndsWithExactly(s: string, tail: string)
    ensures EndsWith(s, tail) <==> exists head: string :: s == head + tail
  {
    if EndsWith(s, tail) {
      assert s == s[..|s| - |tail|] + tail;
    }
    if head: string :| s == head + tail {
      assert s[|head|..] == tail;
    }
  }

  /** asyncio.Queue: a capacity of zero or less means unbounded. */
  predicate Full(s: State, cap: int) {
    cap > 0 && |s.queue| >= cap
  }

  /** One writer's step: its next place, whether it took the head of the queue, whether it
      called task_done, and what became of the item in its hands. */
  datatype Effect = Effect(next: Writer, took: bool, done: bool, fate: Fate)

  function Stay(w: Writer): Effect { Effect(w, false, false, Pending) }

  function DecodeStep(m: nat, raw: Raw): Effect {
    match DecodePayload(raw)
    case Payload(_) => Effect(Saving(m), false, false, Pending)
    case Rejected => Effect(Checking, false, true, Dropped)
    case Unhandled => Effect(Died(Some(m)), false, false, Pending)
  }

  /** The body of writer_loop between two awaits; an act that does not fit the place does nothing. */
  function WriterStep(w: Writer, act: WriterAct, queue: seq<nat>, stop: bool, accepted: seq<Item>): Effect {
    match w
    case Checking =>
      if act.Check? then Effect(if stop && queue == [] then Left else Getting, false, false, Pending)
      else if act.Cancel? then Effect(Died(None), false, false, Pending)
      else Stay(w)
    case Getting =>
      if act.Timeout? then Effect(Checking, false, false, Pending)
      else if act.Take? && queue != [] then Effect(Holding(queue[0]), true, false, Pending)
      else if act.Cancel? then Effect(Died(None), false, false, Pending)
      else Stay(w)
    case Holding(m) =>
      if act.Decode? && m < |accepted| then DecodeStep(m, accepted[m].raw) else Stay(w)
    case Saving(m) =>
      if act.Commit? then Effect(Settling, false, false, Persisted)
      else if act.Fail? then Effect(Settling, false, false, Failed)
      else if act.Cancel? then Effect(Died(None), false, true, Cancelled)
      else Stay(w)
    case Settling =>
      if act.TaskDone? then Effect(Checking, false, true, Pending)
      else if act.Cancel? then Effect(Died(None), false, true, Pending)
      else Stay(w)
    case Left => Stay(w)
    case Died(_) => Stay(w)
  }

  function Bury(e: Ended, fate: Fate, m: nat): Ended {
    match fate
    case Pending => e
    case Persisted => e.(persisted := e.persisted + multiset{m})
    case Dropped => e.(dropped := e.dropped + multiset{m})
    case Failed => e.(failed := e.failed + multiset{m})
    case Cancelled => e.(cancelled := e.cancelled + multiset{m})
  }

  /** The item in a writer's hands, when there is one. */
  function InHand(w: Writer): Option<nat> {
    match w
    case Holding(m) => Some(m)
    case Saving(m) => Some(m)
    case Died(stuck) => stuck
    case _ => None
  }

  function ApplyEffect(s: State, w: nat, e: Effect): State
    requires w < |s.writers|
  {
    s.(writers := s.writers[w := e.next],
       queue := if e.took && s.queue != [] then s.queue[1..] else s.queue,
       unfinished := s.unfinished - if e.done then 1 else 0,
       ended := if InHand(s.writers[w]).Some? then Bury(s.ended, e.fate, InHand(s.writers[w]).value) else s.ended)
  }

  /** One step of the service; an action whose task is elsewhere changes nothing. */
  function Do(s: State, a: Action, cap: int): State {
    match a
    case Stop => s.(stop := true)
    case Receive(topic, retain, raw, now) =>
      if !s.sub.Listening? then s
      else if s.stop then s.(sub := Gone)
      else if retain || EndsWith(topic, "statistics") then s
      else s.(sub := Putting(Item(topic, raw, now)))
    case Put =>
      if s.sub.Putting? && !Full(s, cap) then
        s.(accepted := s.accepted + [s.sub.item], queue := s.queue + [|s.accepted|],
           unfinished := s.unfinished + 1, sub := Listening)
      else s
    case SubscriberEnds => s.(sub := Gone)
    case Turn(w, act) =>
      if w < |s.writers|
      then ApplyEffect(s, w, WriterStep(s.writers[w], act, s.queue, s.stop, s.accepted))
      else s
  }

  /** The state after any finite interleaving. */
  function Run(s: State, acts: seq<Action>, cap: int): State {
    if acts == [] then s else Do(Run(s, acts[..|acts| - 1], cap), acts[|acts| - 1], cap)
  }

  // ----------------------------------------------------------------- conservation

  /** How often k occurs in a list. */
  function Occ(s: seq<nat>, k: nat): nat {
    if s == [] then 0 else Occ(s[..|s| - 1], k) + if s[|s| - 1] == k then 1 else 0
  }

  lemma OccSnoc(s: seq<nat>, m: nat, k: nat)
    ensures Occ(s + [m], k) == Occ(s, k) + if m == k then 1 else 0
  {
    assert (s + [m])[..|s|] == s;
  }

  lemma {:induction false} OccHead(s: seq<nat>, k: nat)
    requires s != []
    ensures Occ(s, k) == Occ(s[1..], k) + if s[0] == k then 1 else 0
  {
    if |s| > 1 {
      OccHead(s[..|s| - 1], k);
      assert s[..|s| - 1][1..] == s[1..][..|s| - 2];
    }
  }

  lemma {:induction false} OccMember(s: seq<nat>, k: nat)
    ensures Occ(s, k) > 0 <==> k in s
  {
    if s != [] {
      OccMember(s[..|s| - 1], k);
      assert s == s[..|s| - 1] + [s[|s| - 1]];
    }
  }

  lemma {:induction false} OccTwice(s: seq<nat>, i: nat, j: nat)
    requires i < j < |s| && s[i] == s[j]
    ensures Occ(s, s[i]) >= 2
  {
    var front := s[..|s| - 1];
    if j == |s| - 1 {
      OccMember(front, s[i]);
      assert front[i] in front;
    } else {
      OccTwice(front, i, j);
    }
  }

  function HeldBy(w: Writer, k: nat): nat {
    if InHand(w) == Some(k) then 1 else 0
  }

  function Held(ws: seq<Writer>, k: nat): nat {
    if ws == [] then 0 else HeldBy(ws[0], k) + Held(ws[1..], k)
  }

  /** Whether a writer still owes the queue a task_done. */
  function Owes(w: Writer): nat {
    if InHand(w).Some? || w.Settling? then 1 else 0
  }

  function Owed(ws: seq<Writer>): nat {
    if ws == [] then 0 else Owes(ws[0]) + Owed(ws[1..])
  }

  function Buried(e: Ended, k: nat): nat {
    e.persisted[k] + e.dropped[k] + e.failed[k] + e.cancelled[k]
  }

  /** In how many places item k is: queued, held, persisted, dropped, failed or cancelled. */
  function Places(s: State, k: nat): nat {
    Occ(s.queue, k) + Held(s.writers, k) + Buried(s.ended, k)
  }

  ghost predicate EachInOnePlace(s: State) {
    forall k: nat :: Places(s, k) == if k < |s.accepted| then 1 else 0
  }

  /** First in, first out: the queue is the newest items in arrival order, within capacity. */
  ghost predicate QueueOrder(s: State, cap: int) {
    && (cap > 0 ==> |s.queue| <= cap)
    && |s.queue| <= |s.accepted|
    && forall i :: 0 <= i < |s.queue| ==> s.queue[i] == |s.accepted| - |s.queue| + i
  }

  /** The counter is what is queued plus what writers have not acknowledged. */
  ghost predicate CounterExact(s: State) {
    s.unfinished == |s.queue| + Owed(s.writers)
  }

  /** Items are abandoned only by writers that were cancelled. */
  ghost predicate CancelledByDead(s: State) {
    s.ended.cancelled != multiset{} ==> exists w :: 0 <= w < |s.writers| && s.writers[w].Died?
  }

  ghost predicate Inv(s: State, cap: int) {
    EachInOnePlace(s) && QueueOrder(s, cap) && CounterExact(s) && CancelledByDead(s)
  }

  lemma {:induction false} HeldUpdate(ws: seq<Writer>, w: nat, x: Writer, k: nat)
    requires w < |ws|
    ensures Held(ws[w := x], k) == Held(ws, k) - HeldBy(ws[w], k) + HeldBy(x, k)
  {
    if w == 0 {
      assert ws[0 := x][1..] == ws[1..];
    } else {
      assert ws[w := x][1..] == ws[1..][w - 1 := x];
      HeldUpdate(ws[1..], w - 1, x, k);
    }
  }

  lemma {:induction false} OwedUpdate(ws: seq<Writer>, w: nat, x: Writer)
    requires w < |ws|
    ensures Owed(ws[w := x]) == Owed(ws) - Owes(ws[w]) + Owes(x)
    ensures Owes(ws[w]) <= Owed(ws)
  {
    if w == 0 {
      assert ws[0 := x][1..] == ws[1..];
    } else {
      assert ws[w := x][1..] == ws[1..][w - 1 := x];
      OwedUpdate(ws[1..], w - 1, x);
    }
  }

  lemma {:induction false} NothingHeldAtStart(n: nat, k: nat)
    ensures Held(seq(n, i => Checking), k) == 0 && Owed(seq(n, i => Checking)) == 0
  {
    if n > 0 {
      assert seq(n, i => Checking)[1..] == seq(n - 1, i => Checking);
      NothingHeldAtStart(n - 1, k);
    }
  }

  /** A writer's step as a balance sheet: what leaves its hands is buried, what enters came from
      the queue's head, and task_done is called exactly when it stops owing. */
  lemma WriterStepBalance(w: Writer, act: WriterAct, queue: seq<nat>, stop: bool, accepted: seq<Item>, k: nat)
    ensures var e := WriterStep(w, act, queue, stop, accepted);
      && (e.took ==> queue != [] && InHand(e.next) == Some(queue[0]) && InHand(w) == None && e.fate == Pending)
      && (!e.took && e.fate == Pending ==> InHand(e.next) == InHand(w))
      && (e.fate != Pending ==> InHand(w).Some? && InHand(e.next) == None)
      && Owes(e.next) == Owes(w) + (if e.took then 1 else 0) - (if e.done then 1 else 0)
      && (e.fate == Cancelled ==> e.next.Died?) && (w.Died? ==> e.next == w)
  {
  }

  lemma BuryOne(e: Ended, fate: Fate, m: nat, k: nat)
    ensures Buried(Bury(e, fate, m), k) == Buried(e, k) + if fate != Pending && m == k then 1 else 0
  {
  }

  lemma TurnPlaces(s: State, w: nat, act: WriterAct, k: nat)
    requires w < |s.writers|
    ensures Places(ApplyEffect(s, w, WriterStep(s.writers[w], act, s.queue, s.stop, s.accepted)), k) == Places(s, k)
  {
    var e := WriterStep(s.writers[w], act, s.queue, s.stop, s.accepted);
    WriterStepBalance(s.writers[w], act, s.queue, s.stop, s.accepted, k);
    HeldUpdate(s.writers, w, e.next, k);
    if e.took {
      OccHead(s.queue, k);
    }
    if InHand(s.writers[w]).Some? {
      BuryOne(s.ended, e.fate, InHand(s.writers[w]).value, k);
    }
  }

  lemma TurnKeepsInv(s: State, w: nat, act: WriterAct, cap: int)
    requires Inv(s, cap) && w < |s.writers|
    ensures Inv(ApplyEffect(s, w, WriterStep(s.writers[w], act, s.queue, s.stop, s.accepted)), cap)
  {
    var e := WriterStep(s.writers[w], act, s.queue, s.stop, s.accepted);
    var t := ApplyEffect(s, w, e);
    WriterStepBalance(s.writers[w], act, s.queue, s.stop, s.accepted, 0);
    OwedUpdate(s.writers, w, e.next);
    forall k: nat ensures Places(t, k) == if k < |t.accepted| then 1 else 0 {
      TurnPlaces(s, w, act, k);
    }
    if s.ended.cancelled != multiset{} {
      var v :| 0 <= v < |s.writers| && s.writers[v].Died?;
      assert t.writers[v].Died?;
    } else if t.ended.cancelled != multiset{} {
      assert t.writers[w].Died?;
    }
  }

  lemma PutKeepsInv(s: State, cap: int)
    requires Inv(s, cap)
    ensures Inv(Do(s, Put, cap), cap)
  {
    var t := Do(s, Put, cap);
    forall k: nat ensures Places(t, k) == if k < |t.accepted| then 1 else 0 {
      OccSnoc(s.queue, |s.accepted|, k);
      assert Places(s, k) == if k < |s.accepted| then 1 else 0;
    }
  }

  /** No step loses, duplicates or invents an item, overfills the queue or unbalances the counter. */
  lemma StepKeepsInv(s: State, a: Action, cap: int)
    requires Inv(s, cap)
    ensures Inv(Do(s, a, cap), cap)
  {
    match a {
      case Turn(w, act) =>
        if w < |s.writers| {
          TurnKeepsInv(s, w, act, cap);
        }
      case Put => PutKeepsInv(s, cap);
      case _ =>
        forall k: nat ensures Places(Do(s, a, cap), k) == Places(s, k) {}
    }
  }

  /** In every reachable state, for any number of writers, any capacity and any interleaving:
      each accepted item is in exactly one place, the counter is exact, the queue is in order. */
  lemma {:induction false} Conservation(writers: nat, acts: seq<Action>, cap: int)
    ensures Inv(Run(Start(writers), acts, cap), cap)
  {
    if acts == [] {
      forall k: nat ensures Places(Start(writers), k) == 0 {
        NothingHeldAtStart(writers, k);
      }
      NothingHeldAtStart(writers, 0);
    } else {
      Conservation(writers, acts[..|acts| - 1], cap);
      StepKeepsInv(Run(Start(writers), acts[..|acts| - 1], cap), acts[|acts| - 1], cap);
    }
  }

  /** Nothing more will happen to item k. */
  ghost predicate Settled(s: State, k: nat) {
    k in s.ended.persisted || k in s.ended.dropped || k in s.ended.failed || k in s.ended.cancelled
  }

  lemma {:induction false} NothingOwed(ws: seq<Writer>, k: nat)
    requires Owed(ws) == 0
    ensures Held(ws, k) == 0
  {
    if ws != [] {
      NothingOwed(ws[1..], k);
    }
  }

  /** `queue.join()` returns only when every accepted item has been dealt with. */
  lemma JoinMeansSettled(s: State, cap: int)
    requires Inv(s, cap) && s.unfinished == 0
    ensures s.queue == [] && forall k: nat :: k < |s.accepted| ==> Settled(s, k)
  {
    forall k: nat | k < |s.accepted| ensures Settled(s, k) {
      NothingOwed(s.writers, k);
      assert Places(s, k) == 1;
    }
  }

  /** No row is ever inserted twice for one message, and none for a message dropped or still to come. */
  lemma PersistedOnce(s: State, cap: int, k: nat)
    requires Inv(s, cap) && k in s.ended.persisted
    ensures s.ended.persisted[k] == 1 && k < |s.accepted| && k !in s.queue
    ensures k !in s.ended.dropped && k !in s.ended.failed && k !in s.ended.cancelled
  {
    assert Places(s, k) <= 1;
    OccMember(s.queue, k);
  }

  // --------------------------------------------------------------------- shutdown

  ghost predicate AllLeft(ws: seq<Writer>) {
    forall w :: 0 <= w < |ws| ==> ws[w].Left?
  }

  lemma {:induction false} AllLeftOwesNothing(ws: seq<Writer>)
    requires AllLeft(ws)
    ensures Owed(ws) == 0
  {
    if ws != [] {
      AllLeftOwesNothing(ws[1..]);
    }
  }

  /** The step in which the last writer leaves its loop normally. */
  ghost predicate LastWriterLeaves(s: State, w: nat) {
    && w < |s.writers| && s.writers[w].Checking? && s.stop && s.queue == []
    && forall v :: 0 <= v < |s.writers| && v != w ==> s.writers[v].Left?
  }

  /** A drained service: nothing queued, nobody working, no put under way. */
  ghost predicate Drained(s: State) {
    s.stop && s.queue == [] && AllLeft(s.writers) && !s.sub.Putting?
  }

  lemma DrainedStep(s: State, a: Action, cap: int)
    requires Drained(s)
    ensures Drained(Do(s, a, cap)) && Do(s, a, cap).(sub := s.sub) == s
  {
    if a.Turn? && a.w < |s.writers| {
      assert s.writers[a.w].Left?;
      assert s.writers[a.w := Left] == s.writers;
    }
  }

  lemma {:induction false} DrainedForever(s: State, acts: seq<Action>, cap: int)
    requires Drained(s)
    ensures Drained(Run(s, acts, cap))
    ensures Run(s, acts, cap).(sub := s.sub) == s
  {
    if acts != [] {
      DrainedForever(s, acts[..|acts| - 1], cap);
      DrainedStep(Run(s, acts[..|acts| - 1], cap), acts[|acts| - 1], cap);
    }
  }

  /** With no put under way when the last writer leaves, the queue is empty and the counter
      zero from then on, and every accepted item was persisted, dropped or logged as failed. */
  lemma CleanShutdown(s: State, w: nat, acts: seq<Action>, cap: int)
    requires Inv(s, cap) && LastWriterLeaves(s, w) && !s.sub.Putting?
    ensures var t := Run(Do(s, Turn(w, Check), cap), acts, cap);
      && t.queue == [] && t.unfinished == 0
      && t.accepted == s.accepted
      && forall k: nat :: k < |t.accepted| ==> k in t.ended.persisted || k in t.ended.dropped || k in t.ended.failed
  {
    var s' := Do(s, Turn(w, Check), cap);
    StepKeepsInv(s, Turn(w, Check), cap);
    AllLeftOwesNothing(s'.writers);
    DrainedForever(s', acts, cap);
    JoinMeansSettled(s', cap);
    assert s'.ended.cancelled == multiset{};
    var t := Run(s', acts, cap);
    forall k: nat | k < |t.accepted| ensures k in t.ended.persisted || k in t.ended.dropped || k in t.ended.failed {
      assert Settled(s', k);
    }
  }

  /** The queue stays empty after the last writer has left exactly when no put was under way:
      a subscriber that had passed its stop check still puts, and nobody takes. */
  lemma ShutdownStrandsExactlyPendingPuts(s: State, w: nat, cap: int)
    requires Inv(s, cap) && LastWriterLeaves(s, w)
    ensures (forall acts :: Run(Do(s, Turn(w, Check), cap), acts, cap).queue == []) <==> !s.sub.Putting?
  {
    var s' := Do(s, Turn(w, Check), cap);
    if s.sub.Putting? {
      assert [Put][..0] == [];
      assert Run(s', [Put], cap) == Do(Run(s', [], cap), Put, cap);
      assert Run(s', [Put], cap).queue != [];
    } else {
      forall acts ensures Run(s', acts, cap).queue == [] {
        CleanShutdown(s, w, acts, cap);
      }
    }
  }

  lemma DeadStays(s: State, a: Action, cap: int, w: nat)
    requires w < |s.writers| && s.writers[w].Died?
    ensures w < |Do(s, a, cap).writers| && Do(s, a, cap).writers[w] == s.writers[w]
  {
    if a.Turn? && a.w < |s.writers| {
      WriterStepBalance(s.writers[a.w], a.act, s.queue, s.stop, s.accepted, 0);
    }
  }

  /** A parser exception the writer does not expect kills it before task_done, and join never returns. */
  lemma {:induction false} CrashBlocksJoin(s: State, w: nat, acts: seq<Action>, cap: int)
    requires Inv(s, cap) && w < |s.writers| && s.writers[w].Died? && s.writers[w].stuck.Some?
    ensures var t := Run(s, acts, cap);
      Inv(t, cap) && w < |t.writers| && t.writers[w] == s.writers[w] && t.unfinished > 0
  {
    if acts != [] {
      var t := Run(s, acts[..|acts| - 1], cap);
      CrashBlocksJoin(s, w, acts[..|acts| - 1], cap);
      StepKeepsInv(t, acts[|acts| - 1], cap);
      DeadStays(t, acts[|acts| - 1], cap, w);
    }
    var t := Run(s, acts, cap);
    OwedUpdate(t.writers, w, t.writers[w]);
  }

  // ----------------------------------------------------------------------- replay

  ghost predicate IncreasingClock(s: State) {
    forall i, j :: 0 <= i < j < |s.accepted| ==> s.accepted[i].ts < s.accepted[j].ts
  }

  /** Message k answers to the stage's pattern and its row is still among those shown. */
  predicate Matches(s: State, slug: string, shown: set<nat>, k: nat) {
    k in shown && k < |s.accepted| && Like(StagePattern(slug), s.accepted[k].topic)
  }

  /** Any answer to "the stage's live rows beyond the cursor, ordered by timestamp": each matching row once,
      times never falling. `shown` are the messages whose rows no sweep has moved and the cursor has not passed. */
  ghost predicate IsReplay(s: State, slug: string, shown: set<nat>, out: seq<nat>) {
    && (forall k: nat :: Occ(out, k) == if Matches(s, slug, shown, k) then s.ended.persisted[k] else 0)
    && (forall i :: 0 <= i < |out| ==> out[i] < |s.accepted|)
    && (forall i, j :: 0 <= i < j < |out| ==> s.accepted[out[i]].ts <= s.accepted[out[j]].ts)
  }

  /** The persisted matching items among the first n, in arrival order. */
  function Arrivals(s: State, slug: string, shown: set<nat>, n: nat): seq<nat> {
    if n == 0 then []
    else Arrivals(s, slug, shown, n - 1) + if Matches(s, slug, shown, n - 1) && n - 1 in s.ended.persisted then [n - 1] else []
  }

  lemma {:induction false} ArrivalsRise(s: State, slug: string, shown: set<nat>, n: nat)
    ensures var a := Arrivals(s, slug, shown, n);
      && (forall i :: 0 <= i < |a| ==> a[i] < n)
      && (forall i, j :: 0 <= i < j < |a| ==> a[i] < a[j])
      && (forall k: nat :: k in a <==> k < n && Matches(s, slug, shown, k) && k in s.ended.persisted)
  {
    if n > 0 {
      ArrivalsRise(s, slug, shown, n - 1);
    }
  }

  ghost predicate Rising(a: seq<nat>) {
    forall i, j :: 0 <= i < j < |a| ==> a[i] < a[j]
  }

  ghost predicate Within(a: seq<nat>, b: seq<nat>) {
    forall i :: 0 <= i < |a| ==> a[i] in b
  }

  lemma WithinFront(a: seq<nat>, b: seq<nat>)
    requires a != [] && b != [] && Rising(a) && Within(a, b) && a[|a| - 1] == b[|b| - 1]
    ensures Within(a[..|a| - 1], b[..|b| - 1])
  {
    var front := a[..|a| - 1];
    forall i | 0 <= i < |front| ensures front[i] in b[..|b| - 1] {
      var j :| 0 <= j < |b| && b[j] == a[i];
      assert b[..|b| - 1][j] == a[i];
    }
  }

  lemma NonEmptyWithin(a: seq<nat>, b: seq<nat>)
    requires a != [] && Within(a, b)
    ensures b != []
  {
    assert a[0] in b;
  }

  lemma LastAtMost(a: seq<nat>, b: seq<nat>)
    requires a != [] && b != [] && Rising(b) && Within(a, b)
    ensures a[|a| - 1] <= b[|b| - 1]
  {
    var j :| 0 <= j < |b| && b[j] == a[|a| - 1];
  }

  /** Two rising sequences with the same elements are equal. */
  lemma {:induction false} RisingUnique(a: seq<nat>, b: seq<nat>)
    requires Rising(a) && Rising(b) && Within(a, b) && Within(b, a)
    ensures a == b
    decreases |a|
  {
    if a != [] {
      NonEmptyWithin(a, b);
    }
    if b != [] {
      NonEmptyWithin(b, a);
      LastAtMost(a, b);
      LastAtMost(b, a);
      var m, n := |a| - 1, |b| - 1;
      WithinFront(a, b);
      WithinFront(b, a);
      RisingUnique(a[..m], b[..n]);
      assert a == a[..m] + [a[m]] && b == b[..n] + [b[n]];
    }
  }

  /** With a clock that always advances, replaying a stage's live board gives the persisted
      messages in arrival order, whichever writers stored them and in whatever order, and whatever
      sweeps have taken or a cursor has skipped. */
  lemma ReplayIsArrivalOrder(s: State, cap: int, slug: string, shown: set<nat>, out: seq<nat>)
    requires Inv(s, cap) && IncreasingClock(s) && IsReplay(s, slug, shown, out)
    ensures out == Arrivals(s, slug, shown, |s.accepted|)
    ensures forall i, j :: 0 <= i < j < |out| ==> out[i] < out[j]
    ensures forall k: nat :: k in out <==>
      k < |s.accepted| && k in s.ended.persisted && k in shown && Like("%/" + slug + "/%", s.accepted[k].topic)
  {
    assert StagePattern(slug) == "%/" + slug + "/%";
    ArrivalsRise(s, slug, shown, |s.accepted|);
    forall i, j | 0 <= i < j < |out| ensures out[i] < out[j] {
      assert Places(s, out[i]) <= 1 && Occ(out, out[i]) <= 1;
      if out[j] == out[i] {
        OccTwice(out, i, j);
      }
    }
    forall k: nat ensures k in out <==> k in Arrivals(s, slug, shown, |s.accepted|) {
      OccMember(out, k);
    }
    RisingUnique(out, Arrivals(s, slug, shown, |s.accepted|));
  }
}
