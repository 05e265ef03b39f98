/** The lock timeout: a statement that waits for a suspended request's row is refused after five
    seconds, and its mutation settles as a failure. Nothing stays frozen, and each mutation's
    share of the log is still its effect, or what it had committed itself before it was refused. */
module LockTimeout {
  import opened SessionLayer
  import opened EventLoop
  import opened LoopFreeze

  /** How many operations run before one has to wait. */
  function Executed(s: Session, ops: seq<Op>, busy: set<nat>): (n: nat)
    ensures n <= |ops|
    decreases |ops|
  {
    if ops == [] then 0
    else match Exec(s, ops[0], busy)
      case Blocked => 0
      case Ran(s1, _) => 1 + Executed(s1, ops[1..], busy)
  }

  /** What the operations before the refused one had committed. */
  function KeptBefore(s: Session, ops: seq<Op>, busy: set<nat>): seq<Write> {
    match RunOps(s, ops[..Executed(s, ops, busy)], {})
    case Blocked => []
    case Ran(_, c) => c
  }

  /** The blocking turn ends with the refusal: the boundary rolls back, the mutation is over. */
  ghost predicate TimeoutStep(st: State, r: nat, st': State) {
    && Ready(st, r) && Turn(st, r, true).Stuck? && st.reqs[r].todo != []
    && var q := st.reqs[r];
       st' == State(st.reqs[r := q.(session := CLEAN, todo := q.todo[1..])],
                    st.log + Tag(r, KeptBefore(q.session, First(q.todo[0].slices), Busy(st.reqs, r))))
  }

  ghost predicate TimedStep(st: State, r: nat, st': State) {
    Step(st, r, st', true) || TimeoutStep(st, r, st')
  }

  ghost predicate IsTimedRun(states: seq<State>, turns: seq<nat>) {
    && |states| == |turns| + 1
    && forall i :: 0 <= i < |turns| ==> TimedStep(states[i], turns[i], states[i + 1])
  }

  // ------------------------------------------------------------- what a mutation leaves

  /** Operation k of a mutation, or its settle after the last one, has writes to send. */
  ghost predicate SendsAt(m: Mutation, k: nat) {
    var ops := Flat(m.slices);
    && k <= |ops| && RunOps(CLEAN, ops[..k], {}).Ran? && RunOps(CLEAN, ops[..k], {}).session.pending != []
    && if k < |ops| then ops[k] == Flush || ops[k] == CommitNow else m.settle == Returned || m.settle == CommitRefused
  }

  ghost predicate RefusedAt(m: Mutation, k: nat, ws: seq<Write>) {
    SendsAt(m, k) && ws == Changes(ThroughLastCommit(Flat(m.slices)[..k]))
  }

  /** A mutation's share: its effect, or what it had committed before an operation with writes to send was refused. */
  ghost predicate IsShare(m: Mutation, ws: seq<Write>) {
    ws == Effect(Flat(m.slices), m.settle) || exists k: nat :: RefusedAt(m, k, ws)
  }

  /** One share per mutation, in order. */
  ghost predicate IsShares(ms: seq<Mutation>, ws: seq<Write>)
    decreases |ms|, 1
  {
    if ms == [] then ws == []
    else exists n: nat :: SplitAt(ms, ws, n)
  }

  ghost predicate SplitAt(ms: seq<Mutation>, ws: seq<Write>, n: nat)
    requires ms != []
    decreases |ms|, 0
  {
    n <= |ws| && IsShares(ms[..|ms| - 1], ws[..n]) && IsShare(ms[|ms| - 1], ws[n..])
  }

  lemma OneMoreShare(ms: seq<Mutation>, ws: seq<Write>, m: Mutation, w: seq<Write>)
    requires IsShares(ms, ws) && IsShare(m, w)
    ensures IsShares(ms + [m], ws + w)
  {
    assert (ms + [m])[..|ms|] == ms && (ws + w)[..|ws|] == ws && (ws + w)[|ws|..] == w;
    assert SplitAt(ms + [m], ws + w, |ws|);
  }

  /** Where a request stands: j mutations are over with shares `done`, the next one has executed
      `ran`, which committed `part`; in the tail nothing is left to write. */
  ghost predicate At(p: Program, q: Request, log: seq<Write>, j: nat, done: seq<Write>, ran: seq<Op>, part: seq<Write>) {
    && q.session.Valid() && ReadOnlyTail(q.tail)
    && j <= |p.mutations| && IsShares(p.mutations[..j], done) && log == done + part
    && if q.todo == [] then
         j == |p.mutations| && part == [] && q.session.pending == [] && q.session.flushed == []
       else
         && !q.closed && j < |p.mutations| && q.todo[1..] == p.mutations[j + 1..]
         && q.todo[0].settle == p.mutations[j].settle
         && ran + Flat(q.todo[0].slices) == Flat(p.mutations[j].slices)
         && RunOps(CLEAN, ran, {}) == Ran(q.session, part)
  }

  ghost predicate Placed(p: Program, q: Request, log: seq<Write>) {
    exists j: nat, done, ran, part :: At(p, q, log, j, done, ran, part)
  }

  /** At the start of mutation j with a clean session. */
  lemma StartAt(p: Program, q: Request, j: nat, done: seq<Write>)
    requires ReadOnlyTail(q.tail) && q.session == CLEAN && !q.closed
    requires j <= |p.mutations| && IsShares(p.mutations[..j], done) && q.todo == p.mutations[j..]
    ensures At(p, q, done, j, done, [], [])
  {
    assert done + [] == done;
    if q.todo != [] {
      assert [] + Flat(q.todo[0].slices) == Flat(p.mutations[j].slices);
    }
  }

  lemma NextShare(p: Program, q: Request, j: nat, done: seq<Write>, w: seq<Write>)
    requires ReadOnlyTail(q.tail) && q.session == CLEAN && !q.closed
    requires j < |p.mutations| && IsShares(p.mutations[..j], done) && IsShare(p.mutations[j], w)
    requires q.todo == p.mutations[j + 1..]
    ensures Placed(p, q, done + w)
  {
    OneMoreShare(p.mutations[..j], done, p.mutations[j], w);
    assert p.mutations[..j] + [p.mutations[j]] == p.mutations[..j + 1];
    StartAt(p, q, j + 1, done + w);
  }

  lemma MoreRan(ran: seq<Op>, slices: seq<seq<Op>>)
    requires slices != []
    ensures (ran + slices[0]) + Flat(slices[1..]) == ran + Flat(slices)
  {
  }

  lemma SlicePlaced(p: Program, q: Request, log: seq<Write>, busy: set<nat>, j: nat, done: seq<Write>, ran: seq<Op>, part: seq<Write>)
    requires At(p, q, log, j, done, ran, part) && q.todo != [] && |q.todo[0].slices| > 1 && Advance(q, busy, true).Moved?
    ensures Placed(p, Advance(q, busy, true).req, log + Advance(q, busy, true).committed)
  {
    var next, c := Advance(q, busy, true).req, Advance(q, busy, true).committed;
    var slices := q.todo[0].slices;
    RunIgnoresLocks(q.session, slices[0], busy);
    RunKeepsValid(q.session, slices[0], busy);
    RunAppend(CLEAN, ran, slices[0]);
    assert next.todo[1..] == q.todo[1..];
    MoreRan(ran, slices);
    Associative(done, part, c);
    assert At(p, next, log + c, j, done, ran + slices[0], part + c);
  }

  /** What was committed before the last slice and what that slice commits make up the mutation's effect. */
  lemma PartsMakeEffect(s: Session, ran: seq<Op>, part: seq<Write>, ops: seq<Op>, settle: Settle)
    requires RunOps(CLEAN, ran, {}) == Ran(s, part)
    ensures part + Committed(s, ops, settle) == Effect(ran + ops, settle)
  {
    RunAppend(CLEAN, ran, ops);
    RunIgnoresLocks(s, ops, {});
    CommittedIsEffect(ran + ops, settle);
    var r := RunOps(s, ops, {});
    var last := if settle == Returned then r.session.flushed + r.session.pending else [];
    Associative(part, r.committed, last);
  }

  lemma LastSlicePlaced(p: Program, q: Request, log: seq<Write>, busy: set<nat>, j: nat, done: seq<Write>, ran: seq<Op>, part: seq<Write>)
    requires At(p, q, log, j, done, ran, part) && q.todo != [] && |q.todo[0].slices| <= 1 && Advance(q, busy, true).Moved?
    ensures Placed(p, Advance(q, busy, true).req, log + Advance(q, busy, true).committed)
  {
    var m := q.todo[0];
    AdvanceLast(q, busy);
    FlatLast(m.slices);
    PartsMakeEffect(q.session, ran, part, First(m.slices), m.settle);
    var c := Committed(q.session, First(m.slices), m.settle);
    Associative(done, part, c);
    NextShare(p, Advance(q, busy, true).req, j, done, part + c);
  }

  lemma TailPlaced(p: Program, q: Request, log: seq<Write>, busy: set<nat>, j: nat, done: seq<Write>, ran: seq<Op>, part: seq<Write>)
    requires At(p, q, log, j, done, ran, part) && q.todo == [] && !q.closed && Advance(q, busy, true).Moved?
    ensures Placed(p, Advance(q, busy, true).req, log + Advance(q, busy, true).committed)
  {
    if q.tail != [] {
      RunIgnoresLocks(q.session, q.tail[0], busy);
      ReadOnlyRun(q.session, q.tail[0]);
    }
    assert log + [] == log;
    assert At(p, Advance(q, busy, true).req, log, j, done, ran, part);
  }

  /** Where a slice comes to wait: the operation there sends a write to a row that is locked. */
  lemma {:induction false} BlockedAt(s: Session, ops: seq<Op>, busy: set<nat>)
    requires RunOps(s, ops, busy).Blocked?
    ensures Executed(s, ops, busy) < |ops|
    ensures ops[Executed(s, ops, busy)] == Flush || ops[Executed(s, ops, busy)] == CommitNow
    ensures RunOps(s, ops[..Executed(s, ops, busy)], {}).Ran?
    ensures !(Rows(RunOps(s, ops[..Executed(s, ops, busy)], {}).session.pending) !! busy)
    decreases |ops|
  {
    var first := Exec(s, ops[0], busy);
    if first.Ran? {
      BlockedAt(first.session, ops[1..], busy);
      var k := Executed(first.session, ops[1..], busy);
      assert ops[..k + 1][0] == ops[0] && ops[..k + 1][1..] == ops[1..][..k];
      assert Exec(s, ops[0], {}) == first;
    }
  }

  lemma {:induction false} ExecutedAll(s: Session, ops: seq<Op>, busy: set<nat>)
    requires RunOps(s, ops, busy).Ran?
    ensures Executed(s, ops, busy) == |ops|
    decreases |ops|
  {
    if ops != [] {
      ExecutedAll(Exec(s, ops[0], busy).session, ops[1..], busy);
    }
  }

  /** A turn that gets stuck in a mutation waits for a locked row, on an operation or on the settle. */
  lemma StuckAt(q: Request, busy: set<nat>)
    requires q.todo != [] && Advance(q, busy, true).Stuck?
    ensures var m := q.todo[0]; var ops := First(m.slices); var k := Executed(q.session, ops, busy);
      && RunOps(q.session, ops[..k], {}).Ran? && !(Rows(RunOps(q.session, ops[..k], {}).session.pending) !! busy)
      && if k < |ops| then ops[k] == Flush || ops[k] == CommitNow
         else |m.slices| <= 1 && (m.settle == Returned || m.settle == CommitRefused)
  {
    var ops := First(q.todo[0].slices);
    if RunOps(q.session, ops, busy).Blocked? {
      BlockedAt(q.session, ops, busy);
    } else {
      ExecutedAll(q.session, ops, busy);
      RunIgnoresLocks(q.session, ops, busy);
      assert ops[..|ops|] == ops;
    }
  }

  ghost predicate LockedBy(st: State, r: nat, pending: seq<Write>, w: Write, other: nat) {
    w in pending && other < |st.reqs| && other != r && w.row in Rows(st.reqs[other].session.flushed)
  }

  /** Every refusal is of an operation, or a settle, that sends a write to a row some other request has locked. */
  lemma RefusalMeetsALock(st: State, r: nat, st': State)
    requires TimeoutStep(st, r, st')
    ensures var q := st.reqs[r]; var ops := First(q.todo[0].slices); var k := Executed(q.session, ops, Busy(st.reqs, r));
      && RunOps(q.session, ops[..k], {}).Ran?
      && exists w, other: nat :: LockedBy(st, r, RunOps(q.session, ops[..k], {}).session.pending, w, other)
  {
    var q, busy := st.reqs[r], Busy(st.reqs, r);
    var ops := First(q.todo[0].slices);
    StuckAt(q, busy);
    var pending := RunOps(q.session, ops[..Executed(q.session, ops, busy)], {}).session.pending;
    var row :| row in Rows(pending) && row in busy;
    var w :| w in pending && w.row == row;
    var other: nat, v :| other < |st.reqs| && other != r && v in st.reqs[other].session.flushed && v.row == row;
    assert w.row in Rows(st.reqs[other].session.flushed);
    assert LockedBy(st, r, pending, w, other);
  }

  lemma RefusedPlace(m: Mutation, q: Request, ran: seq<Op>, part: seq<Write>, busy: set<nat>)
    requires q.todo != [] && Advance(q, busy, true).Stuck? && q.todo[0].settle == m.settle
    requires ran + Flat(q.todo[0].slices) == Flat(m.slices) && RunOps(CLEAN, ran, {}) == Ran(q.session, part)
    ensures IsShare(m, part + KeptBefore(q.session, First(q.todo[0].slices), busy))
  {
    var ops, slices := First(q.todo[0].slices), q.todo[0].slices;
    var k := Executed(q.session, ops, busy);
    StuckAt(q, busy);
    RunAppend(CLEAN, ran, ops[..k]);
    RunAccountsForChanges(ran + ops[..k]);
    var all := Flat(m.slices);
    assert ops <= Flat(slices) by {
      if slices != [] {
        assert Flat(slices) == slices[0] + Flat(slices[1..]);
      }
    }
    assert all[..|ran| + k] == ran + ops[..k];
    if k == |ops| {
      FlatLast(slices);
    } else {
      assert all[|ran| + k] == ops[k];
    }
    assert RefusedAt(m, |ran| + k, part + KeptBefore(q.session, ops, busy));
  }

  lemma TimeoutPlaced(p: Program, q: Request, log: seq<Write>, busy: set<nat>, j: nat, done: seq<Write>, ran: seq<Op>, part: seq<Write>)
    requires At(p, q, log, j, done, ran, part) && q.todo != [] && Advance(q, busy, true).Stuck?
    ensures Placed(p, q.(session := CLEAN, todo := q.todo[1..]), log + KeptBefore(q.session, First(q.todo[0].slices), busy))
  {
    var c := KeptBefore(q.session, First(q.todo[0].slices), busy);
    RefusedPlace(p.mutations[j], q, ran, part, busy);
    Associative(done, part, c);
    NextShare(p, q.(session := CLEAN, todo := q.todo[1..]), j, done, part + c);
  }

  ghost predicate AllPlaced(programs: seq<Program>, st: State) {
    && |st.reqs| == |programs|
    && forall r :: 0 <= r < |programs| ==> Placed(programs[r], st.reqs[r], Project(st.log, r))
  }

  lemma PlacedUpdate(programs: seq<Program>, st: State, who: nat, q: Request, c: seq<Write>)
    requires AllPlaced(programs, st) && who < |st.reqs|
    requires Placed(programs[who], q, Project(st.log, who) + c)
    ensures AllPlaced(programs, State(st.reqs[who := q], st.log + Tag(who, c)))
  {
    forall r: nat | r < |programs|
      ensures Placed(programs[r], st.reqs[who := q][r], Project(st.log + Tag(who, c), r))
    {
      ProjectAppend(st.log, c, who, r);
      assert Project(st.log, r) + [] == Project(st.log, r);
    }
  }

  lemma TimedStepPlaced(programs: seq<Program>, st: State, who: nat, st': State)
    requires AllPlaced(programs, st) && TimedStep(st, who, st')
    ensures AllPlaced(programs, st')
  {
    var q, log, busy := st.reqs[who], Project(st.log, who), Busy(st.reqs, who);
    var j: nat, done, ran, part :| At(programs[who], q, log, j, done, ran, part);
    if Turn(st, who, true).Moved? {
      if q.todo == [] {
        TailPlaced(programs[who], q, log, busy, j, done, ran, part);
      } else if |q.todo[0].slices| > 1 {
        SlicePlaced(programs[who], q, log, busy, j, done, ran, part);
      } else {
        LastSlicePlaced(programs[who], q, log, busy, j, done, ran, part);
      }
      PlacedUpdate(programs, st, who, Turn(st, who, true).req, Turn(st, who, true).committed);
    } else {
      TimeoutPlaced(programs[who], q, log, busy, j, done, ran, part);
      PlacedUpdate(programs, st, who, q.(session := CLEAN, todo := q.todo[1..]), KeptBefore(q.session, First(q.todo[0].slices), busy));
    }
  }

  lemma ClosedShares(p: Program, q: Request, log: seq<Write>)
    requires Placed(p, q, log) && q.closed
    ensures IsShares(p.mutations, log)
  {
    var j: nat, done, ran, part :| At(p, q, log, j, done, ran, part);
    assert p.mutations[..j] == p.mutations && done + part == done;
  }

  lemma StartPlaced(programs: seq<Program>)
    requires forall p :: 0 <= p < |programs| ==> ReadOnlyTail(programs[p].tail)
    ensures AllPlaced(programs, Init(programs))
  {
    var st := Init(programs);
    forall p | 0 <= p < |programs| ensures Placed(programs[p], st.reqs[p], Project(st.log, p)) {
      assert programs[p].mutations[..0] == [] && programs[p].mutations[0..] == programs[p].mutations;
      StartAt(programs[p], st.reqs[p], 0, []);
    }
  }

  /** Atomicity with the lock timeout, for any programs and any interleaving, disciplined or not: when a request
      closes, its part of the log is one share per mutation, in order. */
  lemma {:induction false} SharesAreAtomic(programs: seq<Program>, states: seq<State>, turns: seq<nat>, k: nat, r: nat)
    requires IsTimedRun(states, turns) && states[0] == Init(programs) && k < |states| && r < |programs|
    requires forall p :: 0 <= p < |programs| ==> ReadOnlyTail(programs[p].tail)
    ensures AllPlaced(programs, states[k])
    ensures states[k].reqs[r].closed ==> IsShares(programs[r].mutations, Project(states[k].log, r))
    decreases k
  {
    if k == 0 {
      StartPlaced(programs);
    } else {
      SharesAreAtomic(programs, states, turns, k - 1, r);
      assert TimedStep(states[k - 1], turns[k - 1], states[k]);
      TimedStepPlaced(programs, states[k - 1], turns[k - 1], states[k]);
    }
    if states[k].reqs[r].closed {
      ClosedShares(programs[r], states[k].reqs[r], Project(states[k].log, r));
    }
  }

  // ---------------------------------------------------------------------- no refusal

  /** With programs that yield cleanly a timed run is an ordinary run: nobody is refused. */
  lemma {:induction false} CleanRunsRefuseNobody(programs: seq<Program>, states: seq<State>, turns: seq<nat>)
    requires IsTimedRun(states, turns) && states[0] == Init(programs)
    requires forall p :: 0 <= p < |programs| ==> CleanProgram(programs[p]) && ReadOnlyTail(programs[p].tail)
    ensures IsRun(states, turns, true)
    decreases |turns|
  {
    var n := |turns|;
    if n > 0 {
      var front, before := states[..n], turns[..n - 1];
      assert IsTimedRun(front, before);
      CleanRunsRefuseNobody(programs, front, before);
      TidyNeverBlocks(front, before, n - 1);
      assert TimedStep(states[n - 1], turns[n - 1], states[n]);
      forall i | 0 <= i < n ensures Step(states[i], turns[i], states[i + 1], true) {
        if i < n - 1 {
          assert Step(front[i], before[i], front[i + 1], true);
        } else {
          assert Ready(front[n - 1], turns[n - 1]);
        }
      }
    }
  }

  // ----------------------------------------------------------------------- no freeze

  /** Once past its mutations a request has nothing to flush, so only a mutation can wait. */
  lemma OnlyMutationsWait(p: Program, q: Request, log: seq<Write>, busy: set<nat>)
    requires Placed(p, q, log) && !q.closed && q.todo == []
    ensures Advance(q, busy, true).Moved?
  {
    var j: nat, done, ran, part :| At(p, q, log, j, done, ran, part);
    if q.tail != [] {
      ReadOnlyNeverWaits(q.session, q.tail[0], busy);
    }
  }

  lemma {:induction false} ReadOnlyNeverWaits(s: Session, ops: seq<Op>, busy: set<nat>)
    requires ReadOnly(ops)
    ensures RunOps(s, ops, busy).Ran?
    decreases |ops|
  {
    if ops != [] {
      assert ops[0] == Read;
      ReadOnlyNeverWaits(s.(inTransaction := true), ops[1..], busy);
    }
  }

  /** With the timeout no reachable state is frozen: whichever unfinished request gets the loop, its turn ends. */
  lemma NoStateIsFrozen(programs: seq<Program>, states: seq<State>, turns: seq<nat>, k: nat, r: nat)
    requires IsTimedRun(states, turns) && states[0] == Init(programs) && k < |states|
    requires forall p :: 0 <= p < |programs| ==> ReadOnlyTail(programs[p].tail)
    requires Ready(states[k], r)
    ensures exists st' :: TimedStep(states[k], r, st')
  {
    var st := states[k];
    StaysAsMany(programs, states, turns, k);
    SharesAreAtomic(programs, states, turns, k, r);
    assert Placed(programs[r], st.reqs[r], Project(st.log, r));
    var q, busy := st.reqs[r], Busy(st.reqs, r);
    if q.todo == [] {
      OnlyMutationsWait(programs[r], q, Project(st.log, r), busy);
    }
    if Turn(st, r, true).Moved? {
      var next := State(st.reqs[r := Turn(st, r, true).req], st.log + Tag(r, Turn(st, r, true).committed));
      assert TimedStep(st, r, next);
    } else {
      var next := State(st.reqs[r := q.(session := CLEAN, todo := q.todo[1..])],
                        st.log + Tag(r, KeptBefore(q.session, First(q.todo[0].slices), busy)));
      assert TimedStep(st, r, next);
    }
  }

  lemma {:induction false} StaysAsMany(programs: seq<Program>, states: seq<State>, turns: seq<nat>, k: nat)
    requires IsTimedRun(states, turns) && states[0] == Init(programs) && k < |states|
    ensures |states[k].reqs| == |programs|
    decreases k
  {
    if k > 0 {
      StaysAsMany(programs, states, turns, k - 1);
      assert TimedStep(states[k - 1], turns[k - 1], states[k]);
    }
  }

  /** Every turn, refused or not, spends at least one unit of work: no timed run is longer than the work there was. */
  lemma {:induction false} TimedRunsEnd(states: seq<State>, turns: seq<nat>)
    requires IsTimedRun(states, turns)
    ensures TotalWork(states[|turns|].reqs) + |turns| <= TotalWork(states[0].reqs)
    decreases |turns|
  {
    var n := |turns|;
    if n > 0 {
      assert IsTimedRun(states[..n], turns[..n - 1]);
      TimedRunsEnd(states[..n], turns[..n - 1]);
      assert TimedStep(states[n - 1], turns[n - 1], states[n]);
      var st, r := states[n - 1], turns[n - 1];
      if Turn(st, r, true).Moved? {
        AdvanceWork(st.reqs[r], Busy(st.reqs, r), true);
      }
      TotalWorkUpdate(st.reqs, r, states[n].reqs[r]);
    }
  }
}
