/** What becomes of each accepted message, by its payload alone, over every run of the archive. */
module ArchiveFates {
  import opened Prelude
  import opened ArchivePipeline

  /** A row of the events table as the archive inserts it. */
  datatype Row = Row(topic: string, payload: string, ts: real)

  predicate ParsesAt(accepted: seq<Item>, k: nat) {
    k < |accepted| && Parses(accepted[k].raw)
  }

  predicate UndecodableAt(accepted: seq<Item>, k: nat) {
    k < |accepted| && Undecodable(accepted[k].raw)
  }

  ghost predicate EndedByPayload(accepted: seq<Item>, e: Ended) {
    && (forall k: nat :: k in e.persisted || k in e.failed || k in e.cancelled ==> ParsesAt(accepted, k))
    && (forall k: nat :: k in e.dropped ==> UndecodableAt(accepted, k))
  }

  /** Only what parses is saved, and a dead writer holds what is neither. */
  predicate HandledByPayload(accepted: seq<Item>, w: Writer) {
    && (w.Saving? ==> ParsesAt(accepted, w.m))
    && (w.Died? && w.stuck.Some? ==> !ParsesAt(accepted, w.stuck.value) && !UndecodableAt(accepted, w.stuck.value))
  }

  /** Only payloads that parse are persisted, fail to be, or are cancelled on the way; only undecodable ones are dropped. */
  ghost predicate FatesByPayload(s: State) {
    && EndedByPayload(s.accepted, s.ended)
    && (forall w :: 0 <= w < |s.writers| ==> HandledByPayload(s.accepted, s.writers[w]))
    && (forall w :: 0 <= w < |s.writers| && s.writers[w].Died? && s.writers[w].stuck.Some? ==> s.writers[w].stuck.value < |s.accepted|)
  }

  lemma WriterStepByPayload(w: Writer, act: WriterAct, queue: seq<nat>, stop: bool, accepted: seq<Item>)
    requires HandledByPayload(accepted, w)
    ensures var e := WriterStep(w, act, queue, stop, accepted);
      && HandledByPayload(accepted, e.next)
      && (e.fate == Dropped ==> InHand(w).Some? && UndecodableAt(accepted, InHand(w).value))
      && (e.fate == Persisted || e.fate == Failed || e.fate == Cancelled ==> InHand(w).Some? && ParsesAt(accepted, InHand(w).value))
      && (e.next.Died? && e.next.stuck.Some? ==> e.next == w || e.next.stuck.value < |accepted|)
  {
    if w.Holding? && w.m < |accepted| {
      DecodeExactly(accepted[w.m].raw);
    }
  }

  lemma TurnByPayload(s: State, w: nat, act: WriterAct)
    requires FatesByPayload(s) && w < |s.writers|
    ensures FatesByPayload(ApplyEffect(s, w, WriterStep(s.writers[w], act, s.queue, s.stop, s.accepted)))
  {
    WriterStepByPayload(s.writers[w], act, s.queue, s.stop, s.accepted);
  }

  lemma StepByPayload(s: State, a: Action, cap: int)
    requires FatesByPayload(s)
    ensures FatesByPayload(Do(s, a, cap)) && s.accepted <= Do(s, a, cap).accepted
  {
    if a.Turn? && a.w < |s.writers| {
      TurnByPayload(s, a.w, a.act);
    }
  }

  lemma {:induction false} RunByPayload(writers: nat, acts: seq<Action>, cap: int)
    ensures FatesByPayload(Run(Start(writers), acts, cap))
  {
    if acts != [] {
      RunByPayload(writers, acts[..|acts| - 1], cap);
      StepByPayload(Run(Start(writers), acts[..|acts| - 1], cap), acts[|acts| - 1], cap);
    }
  }

  /** In every reachable state an accepted message that has been dealt with was dropped exactly when its payload is
      undecodable, and was persisted, failed or cancelled exactly when it parses. */
  lemma FateOfEachPayload(writers: nat, acts: seq<Action>, cap: int, k: nat)
    requires k < |Run(Start(writers), acts, cap).accepted| && Settled(Run(Start(writers), acts, cap), k)
    ensures var s := Run(Start(writers), acts, cap);
      && (k in s.ended.dropped <==> Undecodable(s.accepted[k].raw))
      && (k in s.ended.persisted || k in s.ended.failed || k in s.ended.cancelled <==> Parses(s.accepted[k].raw))
  {
    RunByPayload(writers, acts, cap);
  }

  /** And a writer that died with a message in its hands died of one that neither parses nor is undecodable. */
  lemma DeadHands(writers: nat, acts: seq<Action>, cap: int, w: nat)
    requires var s := Run(Start(writers), acts, cap); w < |s.writers| && s.writers[w].Died? && s.writers[w].stuck.Some?
    ensures var s := Run(Start(writers), acts, cap); var k := s.writers[w].stuck.value;
      k < |s.accepted| && !Parses(s.accepted[k].raw) && !Undecodable(s.accepted[k].raw)
  {
    RunByPayload(writers, acts, cap);
  }

  // The rows.

  /** The rows inserted, beside the messages they came from: topic, parsed value and arrival time of each, and every
      persisted message as often as it was persisted. */
  ghost predicate RowsOf(rows: seq<Row>, stored: seq<nat>, accepted: seq<Item>, persisted: multiset<nat>) {
    && |rows| == |stored| && multiset(stored) == persisted
    && forall i :: 0 <= i < |stored| ==> ParsesAt(accepted, stored[i]) && IsRowOf(rows[i], accepted[stored[i]])
  }

  predicate IsRowOf(row: Row, item: Item) {
    Parses(item.raw) && row.topic == item.topic && row.payload == item.raw.parse.json && row.ts == item.ts
  }

  lemma RowsKept(rows: seq<Row>, stored: seq<nat>, was: seq<Item>, accepted: seq<Item>, persisted: multiset<nat>)
    requires RowsOf(rows, stored, was, persisted) && was <= accepted
    ensures RowsOf(rows, stored, accepted, persisted)
  {
    forall i | 0 <= i < |stored| ensures ParsesAt(accepted, stored[i]) && IsRowOf(rows[i], accepted[stored[i]]) {
      assert ParsesAt(was, stored[i]) && was[stored[i]] == accepted[stored[i]];
    }
  }

  lemma RowsMore(rows: seq<Row>, stored: seq<nat>, accepted: seq<Item>, persisted: multiset<nat>, row: Row, m: nat)
    requires RowsOf(rows, stored, accepted, persisted) && ParsesAt(accepted, m) && IsRowOf(row, accepted[m])
    ensures RowsOf(rows + [row], stored + [m], accepted, persisted + multiset{m})
  {
  }

  /** No message gives two rows. */
  lemma OneRowEach(s: State, cap: int, rows: seq<Row>, stored: seq<nat>, i: nat, j: nat)
    requires Inv(s, cap) && RowsOf(rows, stored, s.accepted, s.ended.persisted) && i < j < |rows|
    ensures stored[i] != stored[j]
  {
    if stored[i] == stored[j] {
      assert stored == stored[..j] + [stored[j]] + stored[j + 1..];
      assert stored[i] in stored[..j];
      assert multiset(stored)[stored[i]] >= 2;
      assert stored[i] in s.ended.persisted;
      PersistedOnce(s, cap, stored[i]);
      assert false;
    }
  }
}
