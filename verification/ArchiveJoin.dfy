/** When the archive's `queue.join()` can return: the exact condition on the payloads accepted. */
module ArchiveJoin {
  import opened Prelude
  import opened ArchivePipeline

  /** Accepted item k makes the parser raise something the writer does not expect. */
  predicate Poison(accepted: seq<Item>, k: nat) {
    k < |accepted| && !Parses(accepted[k].raw) && !Undecodable(accepted[k].raw)
  }

  ghost predicate Poisoned(accepted: seq<Item>) {
    exists k: nat :: Poison(accepted, k)
  }

  /** A writer saves clean items only, and dies holding a poisonous one. */
  predicate Careful(accepted: seq<Item>, w: Writer) {
    && (w.Saving? ==> w.m < |accepted| && !Poison(accepted, w.m))
    && (w.Died? && w.stuck.Some? ==> Poison(accepted, w.stuck.value))
  }

  ghost predicate NoneBuried(accepted: seq<Item>, e: Ended) {
    forall k: nat :: Poison(accepted, k) ==> Buried(e, k) == 0
  }

  /** A poisonous item never gets past the decoder, and only such an item stays in dead hands. */
  ghost predicate PoisonStays(s: State) {
    && NoneBuried(s.accepted, s.ended)
    && (forall w :: 0 <= w < |s.writers| ==> Careful(s.accepted, s.writers[w]))
  }

  lemma WriterStepCareful(w: Writer, act: WriterAct, queue: seq<nat>, stop: bool, accepted: seq<Item>)
    requires Careful(accepted, w)
    ensures var e := WriterStep(w, act, queue, stop, accepted);
      Careful(accepted, e.next) && (e.fate != Pending && InHand(w).Some? ==> !Poison(accepted, InHand(w).value))
  {
  }

  lemma TurnKeepsPoison(s: State, w: nat, act: WriterAct)
    requires PoisonStays(s) && w < |s.writers|
    ensures PoisonStays(ApplyEffect(s, w, WriterStep(s.writers[w], act, s.queue, s.stop, s.accepted)))
  {
    var e := WriterStep(s.writers[w], act, s.queue, s.stop, s.accepted);
    WriterStepCareful(s.writers[w], act, s.queue, s.stop, s.accepted);
    if InHand(s.writers[w]).Some? {
      forall k: nat ensures Poison(s.accepted, k) ==> Buried(Bury(s.ended, e.fate, InHand(s.writers[w]).value), k) == 0 {
        BuryOne(s.ended, e.fate, InHand(s.writers[w]).value, k);
      }
    }
  }

  lemma PutKeepsPoison(s: State, cap: int)
    requires Inv(s, cap) && PoisonStays(s)
    ensures PoisonStays(Do(s, Put, cap))
  {
    var t := Do(s, Put, cap);
    assert Places(s, |s.accepted|) == 0;
    forall k: nat | k < |s.accepted| ensures Poison(t.accepted, k) <==> Poison(s.accepted, k) {}
  }

  lemma StepKeepsPoison(s: State, a: Action, cap: int)
    requires Inv(s, cap) && PoisonStays(s)
    ensures PoisonStays(Do(s, a, cap)) && s.accepted <= Do(s, a, cap).accepted
  {
    if a.Turn? && a.w < |s.writers| {
      TurnKeepsPoison(s, a.w, a.act);
    } else if a.Put? {
      PutKeepsPoison(s, cap);
    }
  }

  lemma {:induction false} Reachable(writers: nat, acts: seq<Action>, cap: int)
    ensures Inv(Run(Start(writers), acts, cap), cap) && PoisonStays(Run(Start(writers), acts, cap))
  {
    Conservation(writers, acts, cap);
    if acts != [] {
      Reachable(writers, acts[..|acts| - 1], cap);
      StepKeepsPoison(Run(Start(writers), acts[..|acts| - 1], cap), acts[|acts| - 1], cap);
    }
  }

  /** The counter is zero only when the decoder could judge every payload ever accepted. */
  lemma ZeroMeansNoPoison(s: State, cap: int)
    requires Inv(s, cap) && PoisonStays(s) && s.unfinished == 0
    ensures !Poisoned(s.accepted)
  {
    JoinMeansSettled(s, cap);
    forall k: nat | k < |s.accepted| ensures !Poison(s.accepted, k) {
      assert Settled(s, k);
    }
  }

  lemma {:induction false} PoisonForever(s: State, acts: seq<Action>, cap: int)
    requires Inv(s, cap) && PoisonStays(s)
    ensures Inv(Run(s, acts, cap), cap) && PoisonStays(Run(s, acts, cap)) && s.accepted <= Run(s, acts, cap).accepted
  {
    if acts != [] {
      var t := Run(s, acts[..|acts| - 1], cap);
      PoisonForever(s, acts[..|acts| - 1], cap);
      StepKeepsInv(t, acts[|acts| - 1], cap);
      StepKeepsPoison(t, acts[|acts| - 1], cap);
    }
  }

  // ------------------------------------------------------------- nobody left to take

  predicate Alive(w: Writer) {
    !w.Left? && !w.Died?
  }

  ghost predicate AnyAlive(s: State) {
    exists w :: 0 <= w < |s.writers| && Alive(s.writers[w])
  }

  lemma {:induction false} AbandonedForever(s: State, acts: seq<Action>, cap: int)
    requires !AnyAlive(s) && s.queue != []
    ensures !AnyAlive(Run(s, acts, cap)) && Run(s, acts, cap).queue != []
  {
    if acts != [] {
      var t, a := Run(s, acts[..|acts| - 1], cap), acts[|acts| - 1];
      AbandonedForever(s, acts[..|acts| - 1], cap);
      var u := Do(t, a, cap);
      forall w | 0 <= w < |u.writers| ensures !Alive(u.writers[w]) {
        assert !Alive(t.writers[w]);
      }
    }
  }

  // ---------------------------------------------------------------------- draining

  /** How far a writer is from asking for its next item. */
  function Distance(w: Writer): nat {
    match w
    case Checking => 1
    case Getting => 0
    case Holding(_) => 5
    case Saving(_) => 4
    case Settling => 3
    case Left => 0
    case Died(_) => 0
  }

  function Distances(ws: seq<Writer>): nat {
    if ws == [] then 0 else Distance(ws[0]) + Distances(ws[1..])
  }

  function Remaining(s: State): nat {
    6 * |s.queue| + Distances(s.writers)
  }

  lemma {:induction false} DistancesUpdate(ws: seq<Writer>, w: nat, x: Writer)
    requires w < |ws|
    ensures Distances(ws[w := x]) == Distances(ws) - Distance(ws[w]) + Distance(x)
  {
    if w == 0 {
      assert ws[0 := x][1..] == ws[1..];
    } else {
      assert ws[w := x][1..] == ws[1..][w - 1 := x];
      DistancesUpdate(ws[1..], w - 1, x);
    }
  }

  lemma {:induction false} SomeoneOwes(ws: seq<Writer>) returns (w: nat)
    requires Owed(ws) > 0
    ensures w < |ws| && Owes(ws[w]) > 0
  {
    if Owes(ws[0]) > 0 {
      w := 0;
    } else {
      var v := SomeoneOwes(ws[1..]);
      w := v + 1;
    }
  }

  /** What a writer does next when nothing fails. */
  function Onward(w: Writer): WriterAct {
    match w
    case Checking => Check
    case Getting => Take
    case Holding(_) => Decode
    case Saving(_) => Commit
    case _ => TaskDone
  }

  lemma {:induction false} HeldInHand(ws: seq<Writer>, w: nat, k: nat)
    requires w < |ws| && InHand(ws[w]) == Some(k)
    ensures Held(ws, k) > 0
  {
    if w > 0 {
      HeldInHand(ws[1..], w - 1, k);
    }
  }

  /** The writer to run next. */
  lemma PickWriter(s: State, cap: int) returns (w: nat)
    requires Inv(s, cap) && PoisonStays(s) && !Poisoned(s.accepted) && s.unfinished > 0 && (AnyAlive(s) || s.queue == [])
    ensures w < |s.writers| && Alive(s.writers[w]) && (s.queue == [] ==> Owes(s.writers[w]) > 0)
  {
    if Owed(s.writers) > 0 {
      w := SomeoneOwes(s.writers);
      assert Careful(s.accepted, s.writers[w]);
    } else {
      w :| 0 <= w < |s.writers| && Alive(s.writers[w]);
    }
  }

  lemma OnwardNearer(w: Writer, queue: seq<nat>, stop: bool, accepted: seq<Item>)
    requires Alive(w) && (queue == [] ==> Owes(w) > 0)
    requires InHand(w).Some? ==> InHand(w).value < |accepted| && !Poison(accepted, InHand(w).value)
    ensures var e := WriterStep(w, Onward(w), queue, stop, accepted);
      Alive(e.next) && Distance(e.next) < Distance(w) + if e.took then 6 else 0
  {
  }

  /** While something is unfinished a live writer has a step that brings the end nearer. */
  lemma DrainStep(s: State, cap: int) returns (w: nat)
    requires Inv(s, cap) && PoisonStays(s) && !Poisoned(s.accepted) && s.unfinished > 0 && (AnyAlive(s) || s.queue == [])
    ensures w < |s.writers|
    ensures var t := Do(s, Turn(w, Onward(s.writers[w])), cap);
      Remaining(t) < Remaining(s) && t.accepted == s.accepted && AnyAlive(t)
  {
    w := PickWriter(s, cap);
    var x := s.writers[w];
    if InHand(x).Some? {
      HeldInHand(s.writers, w, InHand(x).value);
      assert Places(s, InHand(x).value) > 0;
      assert !Poison(s.accepted, InHand(x).value);
    }
    var e := WriterStep(x, Onward(x), s.queue, s.stop, s.accepted);
    OnwardNearer(x, s.queue, s.stop, s.accepted);
    WriterStepBalance(x, Onward(x), s.queue, s.stop, s.accepted, 0);
    DistancesUpdate(s.writers, w, e.next);
    assert Alive(Do(s, Turn(w, Onward(x)), cap).writers[w]);
  }

  lemma {:induction false} RunFirst(s: State, a: Action, acts: seq<Action>, cap: int)
    ensures Run(s, [a] + acts, cap) == Run(Do(s, a, cap), acts, cap)
    decreases |acts|
  {
    var all := [a] + acts;
    if acts == [] {
      assert all[..0] == [] && Run(s, all[..0], cap) == s;
    } else {
      assert all[..|all| - 1] == [a] + acts[..|acts| - 1];
      RunFirst(s, a, acts[..|acts| - 1], cap);
    }
  }

  lemma {:induction false} Drain(s: State, cap: int) returns (acts: seq<Action>)
    requires Inv(s, cap) && PoisonStays(s) && !Poisoned(s.accepted) && (AnyAlive(s) || s.queue == [])
    ensures Run(s, acts, cap).unfinished == 0
    decreases Remaining(s)
  {
    if s.unfinished == 0 {
      acts := [];
    } else {
      assert s.unfinished > 0;
      var w := DrainStep(s, cap);
      var a := Turn(w, Onward(s.writers[w]));
      var t := Do(s, a, cap);
      StepKeepsInv(s, a, cap);
      StepKeepsPoison(s, a, cap);
      var rest := Drain(t, cap);
      acts := [a] + rest;
      RunFirst(s, a, rest, cap);
    }
  }

  ghost predicate Joins(s: State, acts: seq<Action>, cap: int) {
    Run(s, acts, cap).unfinished == 0
  }

  /** In every reachable state `queue.join()` can still return exactly when no payload accepted so far
      makes the parser raise unexpectedly, and a writer is alive to take whatever is queued. */
  lemma JoinCanReturn(writers: nat, before: seq<Action>, cap: int)
    ensures var s := Run(Start(writers), before, cap);
      (exists acts :: Joins(s, acts, cap)) <==> !Poisoned(s.accepted) && (AnyAlive(s) || s.queue == [])
  {
    var s := Run(Start(writers), before, cap);
    Reachable(writers, before, cap);
    if acts :| Joins(s, acts, cap) {
      PoisonForever(s, acts, cap);
      ZeroMeansNoPoison(Run(s, acts, cap), cap);
      forall k: nat ensures Poison(s.accepted, k) ==> Poison(Run(s, acts, cap).accepted, k) {}
      if !AnyAlive(s) && s.queue != [] {
        AbandonedForever(s, acts, cap);
      }
    }
    if !Poisoned(s.accepted) && (AnyAlive(s) || s.queue == []) {
      var acts := Drain(s, cap);
      assert Joins(s, acts, cap);
    }
  }

  lemma RunLast(s: State, acts: seq<Action>, a: Action, cap: int)
    ensures Run(s, acts + [a], cap) == Do(Run(s, acts, cap), a, cap)
  {
    assert (acts + [a])[..|acts|] == acts;
  }

  /** The two steps that queue one message. */
  lemma OneQueued(item: Item, cap: int)
    requires !EndsWith(item.topic, "statistics")
    ensures Run(Start(1), [Receive(item.topic, false, item.raw, item.ts), Put], cap)
         == State([item], [0], 1, false, Listening, [Checking], Start(1).ended)
  {
    var first := Receive(item.topic, false, item.raw, item.ts);
    RunLast(Start(1), [], first, cap);
    RunLast(Start(1), [first], Put, cap);
    assert [] + [first] == [first] && [first] + [Put] == [first, Put];
    assert Start(1).writers == [Checking];
  }

  /** Five steps from the start to the crash: a payload on which the parser exceeds its recursion
      depth is received, queued, taken and decoded, and its writer dies without task_done. */
  lemma PayloadThatCrashes(topic: string, cap: int)
    requires !EndsWith(topic, "statistics")
    ensures var put := [Receive(topic, false, Bytes(OtherException), 0.0), Put];
      var s := Run(Start(1), put + [Turn(0, Check)] + [Turn(0, Take)] + [Turn(0, Decode)], cap);
      s.writers == [Died(Some(0))] && s.unfinished == 1 && forall acts :: !Joins(s, acts, cap)
  {
    var item := Item(topic, Bytes(OtherException), 0.0);
    var put := [Receive(topic, false, item.raw, 0.0), Put];
    OneQueued(item, cap);
    RunLast(Start(1), put, Turn(0, Check), cap);
    RunLast(Start(1), put + [Turn(0, Check)], Turn(0, Take), cap);
    RunLast(Start(1), put + [Turn(0, Check)] + [Turn(0, Take)], Turn(0, Decode), cap);
    assert Poison([item], 0);
    JoinCanReturn(1, put + [Turn(0, Check)] + [Turn(0, Take)] + [Turn(0, Decode)], cap);
  }
}
