/** Many GraphQL requests on one event loop with a blocking database driver:
    the interleavings of their resolver slices, with and without the
    transaction boundary after each root mutation. */
module EventLoop {
  import opened SessionLayer

  /** A root mutation: the synchronous slices between its awaits, and how it settles. */
  datatype Mutation = Mutation(slices: seq<seq<Op>>, settle: Settle)

  /** A request: its root mutations in order, then the read-only slices that build the response. */
  datatype Program = Program(mutations: seq<Mutation>, tail: seq<seq<Op>>)

  datatype Request = Request(todo: seq<Mutation>, tail: seq<seq<Op>>, session: Session, closed: bool)

  /** A committed write and the request that made it. */
  datatype Entry = Entry(req: nat, w: Write)

  datatype State = State(reqs: seq<Request>, log: seq<Entry>)

  datatype Progress = Stuck | Moved(req: Request, committed: seq<Write>)

  function Init(programs: seq<Program>): State {
    State(seq(|programs|, i requires 0 <= i < |programs| =>
            Request(programs[i].mutations, programs[i].tail, CLEAN, false)), [])
  }

  /** The rows locked by every request but one. */
  function Busy(reqs: seq<Request>, me: nat): set<nat> {
    set i, w | 0 <= i < |reqs| && i != me && w in reqs[i].session.flushed :: w.row
  }

  /** `end_transaction_after_root_mutation`, with no yield since the resolver's last statement. */
  function EndTransaction(s: Session, settle: Settle, busy: set<nat>): Outcome {
    if settle == CommitRefused then
      (match Finish(s, true, busy) case Blocked => Blocked case Ran(s1, _) => Ran(s1, []))
    else
      Finish(s, settle == Returned, busy)
  }

  /** The last slice of a mutation together with the boundary that follows it. */
  function LastSlice(s: Session, ops: seq<Op>, settle: Settle, busy: set<nat>, boundary: bool): Outcome {
    match RunOps(s, ops, busy)
    case Blocked => Blocked
    case Ran(s1, c1) =>
      if !boundary then Ran(s1, c1) else
        match EndTransaction(s1, settle, busy)
        case Blocked => Blocked
        case Ran(s2, c2) => Ran(s2, c1 + c2)
  }

  function First(slices: seq<seq<Op>>): seq<Op> {
    if slices == [] then [] else slices[0]
  }

  /** What one turn of the event loop does to the request it resumes. */
  function Advance(q: Request, busy: set<nat>, boundary: bool): Progress {
    if q.todo != [] then
      var m := q.todo[0];
      if |m.slices| > 1 then
        match RunOps(q.session, m.slices[0], busy)
        case Blocked => Stuck
        case Ran(s, c) => Moved(q.(session := s, todo := [m.(slices := m.slices[1..])] + q.todo[1..]), c)
      else
        match LastSlice(q.session, First(m.slices), m.settle, busy, boundary)
        case Blocked => Stuck
        case Ran(s, c) => Moved(q.(session := s, todo := q.todo[1..]), c)
    else if q.tail != [] then
      match RunOps(q.session, q.tail[0], busy)
      case Blocked => Stuck
      case Ran(s, c) => Moved(q.(session := s, tail := q.tail[1..]), c)
    else
      match Finish(q.session, true, busy)
      case Blocked => Stuck
      case Ran(s, c) => Moved(q.(session := s, closed := true), c)
  }

  function Tag(r: nat, ws: seq<Write>): seq<Entry> {
    seq(|ws|, i requires 0 <= i < |ws| => Entry(r, ws[i]))
  }

  predicate Ready(st: State, r: nat) {
    r < |st.reqs| && !st.reqs[r].closed
  }

  function Turn(st: State, r: nat, boundary: bool): Progress
    requires Ready(st, r)
  {
    Advance(st.reqs[r], Busy(st.reqs, r), boundary)
  }

  /** Request r gets the loop, runs to its next await and gives the loop back. */
  ghost predicate Step(st: State, r: nat, st': State, boundary: bool) {
    && Ready(st, r)
    && Turn(st, r, boundary).Moved?
    && st' == State(st.reqs[r := Turn(st, r, boundary).req], st.log + Tag(r, Turn(st, r, boundary).committed))
  }

  /** An interleaving: the states passed and the request resumed at each. */
  ghost predicate IsRun(states: seq<State>, turns: seq<nat>, boundary: bool) {
    && |states| == |turns| + 1
    && forall i :: 0 <= i < |turns| ==> Step(states[i], turns[i], states[i + 1], boundary)
  }

  // ------------------------------------------------------------ absence of blocking

  /** No await between a flush and its settle or explicit commit. */
  ghost predicate Disciplined(m: Mutation) {
    forall i :: 0 <= i < |m.slices| - 1 ==> !HoldsLocks(m.slices[i], false)
  }

  predicate ReadOnly(ops: seq<Op>) {
    forall i :: 0 <= i < |ops| ==> ops[i] == Read
  }

  ghost predicate ReadOnlyTail(tail: seq<seq<Op>>) {
    forall i :: 0 <= i < |tail| ==> ReadOnly(tail[i])
  }

  ghost predicate GoodRequest(q: Request) {
    && q.session.Valid() && q.session.flushed == []
    && (forall i :: 0 <= i < |q.todo| ==> Disciplined(q.todo[i]))
    && ReadOnlyTail(q.tail)
  }

  ghost predicate NoLocks(st: State) {
    forall r :: 0 <= r < |st.reqs| ==> GoodRequest(st.reqs[r])
  }

  lemma {:induction false} ReadOnlyRun(s: Session, ops: seq<Op>)
    requires ReadOnly(ops)
    ensures RunOps(s, ops, {}).Ran?
    ensures RunOps(s, ops, {}).committed == []
    ensures RunOps(s, ops, {}).session == s.(inTransaction := s.inTransaction || ops != [])
    decreases |ops|
  {
    if ops != [] {
      assert ops[0] == Read;
      ReadOnlyRun(s.(inTransaction := true), ops[1..]);
    }
  }

  /** One turn with no locks about: it runs, and gives the loop back holding none. */
  lemma AdvanceUnlocked(q: Request)
    requires GoodRequest(q)
    ensures Advance(q, {}, true).Moved? && GoodRequest(Advance(q, {}, true).req)
  {
    if q.todo != [] {
      var m := q.todo[0];
      RunIgnoresLocks(q.session, First(m.slices), {});
      RunKeepsValid(q.session, First(m.slices), {});
      assert forall i :: 0 <= i < |q.todo[1..]| ==> q.todo[1..][i] == q.todo[i + 1];
      if |m.slices| > 1 {
        NoLocksLeft(q.session, m.slices[0], false);
        assert forall i :: 0 <= i < |m.slices[1..]| ==> m.slices[1..][i] == m.slices[i + 1];
        assert Disciplined(m.(slices := m.slices[1..]));
      }
    } else if q.tail != [] {
      ReadOnlyRun(q.session, q.tail[0]);
    }
  }

  /** While every resolver keeps the discipline, no lock outlives a turn and every turn runs. */
  lemma NeverBlocked(st: State, r: nat)
    requires NoLocks(st) && Ready(st, r)
    ensures Busy(st.reqs, r) == {}
    ensures Turn(st, r, true).Moved?
    ensures forall st' :: Step(st, r, st', true) ==> NoLocks(st')
  {
    assert Busy(st.reqs, r) == {};
    AdvanceUnlocked(st.reqs[r]);
  }

  /** For any number of disciplined requests and any interleaving: no row lock is held at
      any yield, and whichever request gets the loop next, its turn does not block. */
  lemma {:induction false} NoBlockingOverRuns(programs: seq<Program>, states: seq<State>, turns: seq<nat>, k: nat)
    requires IsRun(states, turns, true) && states[0] == Init(programs) && k < |states|
    requires forall p, i :: 0 <= p < |programs| && 0 <= i < |programs[p].mutations| ==> Disciplined(programs[p].mutations[i])
    requires forall p :: 0 <= p < |programs| ==> ReadOnlyTail(programs[p].tail)
    ensures NoLocks(states[k])
    ensures forall r: nat :: Ready(states[k], r) ==> Turn(states[k], r, true).Moved?
    decreases k
  {
    if k > 0 {
      NoBlockingOverRuns(programs, states, turns, k - 1);
      NeverBlocked(states[k - 1], turns[k - 1]);
      assert Step(states[k - 1], turns[k - 1], states[k], true);
    }
    forall r: nat | Ready(states[k], r) ensures Turn(states[k], r, true).Moved? {
      NeverBlocked(states[k], r);
    }
  }

  // -------------------------------------------------------------------- progress

  function Slices(ms: seq<Mutation>): nat {
    if ms == [] then 0 else (if |ms[0].slices| > 1 then |ms[0].slices| else 1) + Slices(ms[1..])
  }

  /** The turns a request still needs: its slices, its tail and the teardown. */
  function Work(q: Request): nat {
    if q.closed then 0 else Slices(q.todo) + |q.tail| + 1
  }

  function TotalWork(reqs: seq<Request>): nat {
    if reqs == [] then 0 else Work(reqs[0]) + TotalWork(reqs[1..])
  }

  lemma AdvanceWork(q: Request, busy: set<nat>, boundary: bool)
    requires !q.closed && Advance(q, busy, boundary).Moved?
    ensures Work(Advance(q, busy, boundary).req) == Work(q) - 1
  {
    if q.todo != [] && |q.todo[0].slices| > 1 {
      var m := q.todo[0].(slices := q.todo[0].slices[1..]);
      assert ([m] + q.todo[1..])[1..] == q.todo[1..];
    }
  }

  lemma {:induction false} TotalWorkUpdate(reqs: seq<Request>, r: nat, q: Request)
    requires r < |reqs|
    ensures TotalWork(reqs[r := q]) == TotalWork(reqs) - Work(reqs[r]) + Work(q)
  {
    if r == 0 {
      assert reqs[0 := q][1..] == reqs[1..];
    } else {
      assert reqs[r := q][1..] == reqs[1..][r - 1 := q];
      TotalWorkUpdate(reqs[1..], r - 1, q);
    }
  }

  lemma {:induction false} NoWorkLeft(reqs: seq<Request>)
    requires TotalWork(reqs) == 0
    ensures forall r :: 0 <= r < |reqs| ==> reqs[r].closed
  {
    if reqs != [] {
      NoWorkLeft(reqs[1..]);
      assert forall r :: 0 < r < |reqs| ==> reqs[r] == reqs[1..][r - 1];
    }
  }

  /** Every turn spends exactly one unit of work, so a run of that many turns has
      finished every request, and no run is longer. */
  lemma {:induction false} EveryRequestFinishes(states: seq<State>, turns: seq<nat>, boundary: bool)
    requires IsRun(states, turns, boundary)
    ensures TotalWork(states[|turns|].reqs) + |turns| == TotalWork(states[0].reqs)
    ensures |turns| == TotalWork(states[0].reqs) ==> forall r :: 0 <= r < |states[|turns|].reqs| ==> states[|turns|].reqs[r].closed
    decreases |turns|
  {
    var n := |turns|;
    if n > 0 {
      assert IsRun(states[..n], turns[..n - 1], boundary);
      EveryRequestFinishes(states[..n], turns[..n - 1], boundary);
      assert Step(states[n - 1], turns[n - 1], states[n], boundary);
      var st, r := states[n - 1], turns[n - 1];
      AdvanceWork(st.reqs[r], Busy(st.reqs, r), boundary);
      TotalWorkUpdate(st.reqs, r, Turn(st, r, boundary).req);
    }
    if TotalWork(states[n].reqs) == 0 {
      NoWorkLeft(states[n].reqs);
    }
  }

  // ---------------------------------------------------------- per-mutation atomicity

  function Flat(slices: seq<seq<Op>>): seq<Op> {
    if slices == [] then [] else slices[0] + Flat(slices[1..])
  }

  /** The reference meaning of a list of root mutations, run alone and in order. */
  function EffectAll(ms: seq<Mutation>): seq<Write> {
    if ms == [] then [] else Effect(Flat(ms[0].slices), ms[0].settle) + EffectAll(ms[1..])
  }

  /** What a request will still commit. */
  ghost function Owed(q: Request): seq<Write> {
    if q.closed then []
    else if q.todo == [] then q.session.flushed + q.session.pending
    else Committed(q.session, Flat(q.todo[0].slices), q.todo[0].settle) + EffectAll(q.todo[1..])
  }

  /** The committed writes of one request, in commit order. */
  function Project(log: seq<Entry>, r: nat): seq<Write> {
    if log == [] then []
    else Project(log[..|log| - 1], r) + if log[|log| - 1].req == r then [log[|log| - 1].w] else []
  }

  lemma {:induction false} ProjectAppend(log: seq<Entry>, ws: seq<Write>, who: nat, r: nat)
    ensures Project(log + Tag(who, ws), r) == Project(log, r) + if who == r then ws else []
  {
    if ws == [] {
      assert log + Tag(who, ws) == log;
    } else {
      var n := |ws| - 1;
      var all := log + Tag(who, ws);
      assert Tag(who, ws)[..n] == Tag(who, ws[..n]);
      assert all[..|all| - 1] == log + Tag(who, ws[..n]);
      ProjectAppend(log, ws[..n], who, r);
      assert ws == ws[..n] + [ws[n]];
    }
  }

  ghost predicate Sound(q: Request) {
    q.session.Valid() && ReadOnlyTail(q.tail)
  }

  /** The last slice with its boundary leaves a clean session and commits what the rest of the mutation is worth. */
  lemma LastSliceCommits(s: Session, ops: seq<Op>, settle: Settle, busy: set<nat>)
    requires s.Valid() && LastSlice(s, ops, settle, busy, true).Ran?
    ensures LastSlice(s, ops, settle, busy, true) == Ran(CLEAN, Committed(s, ops, settle))
  {
    RunIgnoresLocks(s, ops, busy);
    RunKeepsValid(s, ops, busy);
    var s1, c := RunOps(s, ops, {}).session, RunOps(s, ops, {}).committed;
    assert c + [] == c;
  }

  lemma FlatLast(slices: seq<seq<Op>>)
    requires |slices| <= 1
    ensures Flat(slices) == First(slices)
  {
    if slices != [] {
      assert Flat(slices[1..]) == [] && slices[0] + [] == slices[0];
    }
  }

  lemma AdvanceLast(q: Request, busy: set<nat>)
    requires q.session.Valid() && q.todo != [] && |q.todo[0].slices| <= 1 && Advance(q, busy, true).Moved?
    ensures Advance(q, busy, true)
         == Moved(q.(session := CLEAN, todo := q.todo[1..]), Committed(q.session, First(q.todo[0].slices), q.todo[0].settle))
  {
    LastSliceCommits(q.session, First(q.todo[0].slices), q.todo[0].settle, busy);
  }

  lemma SliceConserves(q: Request, busy: set<nat>)
    requires Sound(q) && !q.closed && q.todo != [] && |q.todo[0].slices| > 1 && Advance(q, busy, true).Moved?
    ensures Sound(Advance(q, busy, true).req)
    ensures Owed(q) == Advance(q, busy, true).committed + Owed(Advance(q, busy, true).req)
  {
    var m := q.todo[0];
    var q' := Advance(q, busy, true).req;
    RunIgnoresLocks(q.session, m.slices[0], busy);
    RunKeepsValid(q.session, m.slices[0], busy);
    RunAppend(q.session, m.slices[0], Flat(m.slices[1..]));
    assert q'.todo[1..] == q.todo[1..];
    PartsOwed(q.session, m.slices[0], Flat(m.slices[1..]), m.settle);
  }

  /** What a first part commits and what the rest is then worth. */
  lemma PartsOwed(s: Session, ops: seq<Op>, rest: seq<Op>, settle: Settle)
    ensures RunOps(s, ops, {}).Ran?
    ensures Committed(s, ops + rest, settle) == RunOps(s, ops, {}).committed + Committed(RunOps(s, ops, {}).session, rest, settle)
  {
    RunAppend(s, ops, rest);
    var r := RunOps(s, ops, {});
    var t := RunOps(r.session, rest, {});
    Associative(r.committed, t.committed, if settle == Returned then t.session.flushed + t.session.pending else []);
  }

  lemma LastConserves(q: Request, busy: set<nat>)
    requires Sound(q) && !q.closed && q.todo != [] && |q.todo[0].slices| <= 1 && Advance(q, busy, true).Moved?
    ensures Sound(Advance(q, busy, true).req)
    ensures Owed(q) == Advance(q, busy, true).committed + Owed(Advance(q, busy, true).req)
  {
    AdvanceLast(q, busy);
    FlatLast(q.todo[0].slices);
    OwedAtStart(q.(session := CLEAN, todo := q.todo[1..]));
  }

  lemma OwedAtStart(q: Request)
    requires q.session == CLEAN && !q.closed
    ensures Owed(q) == EffectAll(q.todo)
  {
    if q.todo != [] {
      CommittedIsEffect(Flat(q.todo[0].slices), q.todo[0].settle);
    }
  }

  lemma TailConserves(q: Request, busy: set<nat>)
    requires Sound(q) && !q.closed && q.todo == [] && Advance(q, busy, true).Moved?
    ensures Sound(Advance(q, busy, true).req)
    ensures Owed(q) == Advance(q, busy, true).committed + Owed(Advance(q, busy, true).req)
  {
    if q.tail != [] {
      RunIgnoresLocks(q.session, q.tail[0], busy);
      ReadOnlyRun(q.session, q.tail[0]);
    }
  }

  /** A turn moves writes from what is owed to what is committed, and nothing else. */
  lemma AdvanceConserves(q: Request, busy: set<nat>)
    requires Sound(q) && !q.closed && Advance(q, busy, true).Moved?
    ensures Sound(Advance(q, busy, true).req)
    ensures Owed(q) == Advance(q, busy, true).committed + Owed(Advance(q, busy, true).req)
  {
    if q.todo == [] {
      TailConserves(q, busy);
    } else if |q.todo[0].slices| > 1 {
      SliceConserves(q, busy);
    } else {
      LastConserves(q, busy);
    }
  }

  /** Request r: what it has committed, then what it still owes, is its reference meaning. */
  ghost predicate InBalance(program: Program, q: Request, log: seq<Entry>, r: nat) {
    Sound(q) && Project(log, r) + Owed(q) == EffectAll(program.mutations)
  }

  ghost predicate Balanced(programs: seq<Program>, st: State) {
    && |st.reqs| == |programs|
    && forall r :: 0 <= r < |programs| ==> InBalance(programs[r], st.reqs[r], st.log, r)
  }

  lemma OwnBalance(program: Program, was: Request, q: Request, log: seq<Entry>, c: seq<Write>, r: nat)
    requires InBalance(program, was, log, r) && Sound(q) && Owed(was) == c + Owed(q)
    ensures InBalance(program, q, log + Tag(r, c), r)
  {
    ProjectAppend(log, c, r, r);
    Associative(Project(log, r), c, Owed(q));
  }

  lemma OtherBalance(program: Program, q: Request, log: seq<Entry>, c: seq<Write>, who: nat, r: nat)
    requires InBalance(program, q, log, r) && who != r
    ensures InBalance(program, q, log + Tag(who, c), r)
  {
    ProjectAppend(log, c, who, r);
  }

  lemma BalancedUpdate(programs: seq<Program>, st: State, who: nat, q: Request, c: seq<Write>)
    requires Balanced(programs, st) && who < |st.reqs|
    requires Sound(q) && Owed(st.reqs[who]) == c + Owed(q)
    ensures Balanced(programs, State(st.reqs[who := q], st.log + Tag(who, c)))
  {
    forall r: nat | r < |programs|
      ensures InBalance(programs[r], st.reqs[who := q][r], st.log + Tag(who, c), r)
    {
      if r == who {
        OwnBalance(programs[r], st.reqs[r], q, st.log, c, r);
      } else {
        OtherBalance(programs[r], st.reqs[r], st.log, c, who, r);
      }
    }
  }

  lemma StepBalanced(programs: seq<Program>, st: State, who: nat, st': State)
    requires Balanced(programs, st) && Step(st, who, st', true)
    ensures Balanced(programs, st')
  {
    AdvanceConserves(st.reqs[who], Busy(st.reqs, who));
    BalancedUpdate(programs, st, who, Turn(st, who, true).req, Turn(st, who, true).committed);
  }

  /** In every interleaving, disciplined or not, each request's share of the committed log is a
      prefix of the in-order effect of its root mutations, and all of it once the request closes:
      successes whole, failures only what they committed themselves, teardown nothing. */
  lemma {:induction false} MutationsAreAtomic(programs: seq<Program>, states: seq<State>, turns: seq<nat>, k: nat, r: nat)
    requires IsRun(states, turns, true) && states[0] == Init(programs) && k < |states| && r < |programs|
    requires forall p :: 0 <= p < |programs| ==> ReadOnlyTail(programs[p].tail)
    ensures Balanced(programs, states[k])
    ensures Project(states[k].log, r) <= EffectAll(programs[r].mutations)
    ensures states[k].reqs[r].closed ==> Project(states[k].log, r) == EffectAll(programs[r].mutations)
    decreases k
  {
    if k == 0 {
      forall p | 0 <= p < |programs|
        ensures InBalance(programs[p], states[0].reqs[p], states[0].log, p)
      {
        if programs[p].mutations != [] {
          CommittedIsEffect(Flat(programs[p].mutations[0].slices), programs[p].mutations[0].settle);
        }
      }
    } else {
      MutationsAreAtomic(programs, states, turns, k - 1, r);
      assert Step(states[k - 1], turns[k - 1], states[k], true);
      StepBalanced(programs, states[k - 1], turns[k - 1], states[k]);
    }
    assert InBalance(programs[r], states[k].reqs[r], states[k].log, r);
  }

  // ------------------------------------------------------------------- the outage

  /** A flush-only mutation of one row: the shape of the 2026-09-19 outage. */
  function Touch(row: nat): Mutation {
    Mutation([[Change(Write(row, 0)), Flush]], Returned)
  }

  lemma TouchRun(row: nat, busy: set<nat>)
    ensures row in busy ==> RunOps(CLEAN, Touch(row).slices[0], busy).Blocked?
    ensures row !in busy ==>
      RunOps(CLEAN, Touch(row).slices[0], busy) == Ran(Session(true, [], [Write(row, 0)]), [])
  {
    var ops := Touch(row).slices[0];
    var w := Write(row, 0);
    var s1 := Session(true, [w], []);
    assert ops[1..] == [Flush] && [Flush][1..] == [];
    assert CLEAN.pending + [w] == [w] && [] + [w] == [w];
    assert Rows([w]) == {row};
    assert Exec(CLEAN, ops[0], busy) == Ran(s1, []);
    assert RunOps(s1, [Flush], busy) == (if row in busy then Blocked else Ran(Session(true, [], [w]), []));
  }

  /** Some interleaving of the programs dispatches a request whose statement waits
      for a suspended one: the loop is frozen. */
  ghost predicate CanFreeze(programs: seq<Program>, boundary: bool) {
    exists states, turns, r :: FrozenRun(programs, states, turns, r, boundary)
  }

  ghost predicate FrozenRun(programs: seq<Program>, states: seq<State>, turns: seq<nat>, r: nat, boundary: bool) {
    && IsRun(states, turns, boundary) && states[0] == Init(programs)
    && Ready(states[|turns|], r) && Turn(states[|turns|], r, boundary).Stuck?
  }

  /** The boundary together with the discipline rules the outage out. */
  lemma DisciplineNeverFreezes(programs: seq<Program>)
    requires forall p, i :: 0 <= p < |programs| && 0 <= i < |programs[p].mutations| ==> Disciplined(programs[p].mutations[i])
    requires forall p :: 0 <= p < |programs| ==> ReadOnlyTail(programs[p].tail)
    ensures !CanFreeze(programs, true)
  {
    forall states, turns, r ensures !FrozenRun(programs, states, turns, r, true) {
      if FrozenRun(programs, states, turns, r, true) {
        NoBlockingOverRuns(programs, states, turns, |turns|);
      }
    }
  }

  lemma LockedRowBlocks(reqs: seq<Request>, row: nat, boundary: bool)
    requires |reqs| == 2 && reqs[1] == Request([Touch(row)], [], CLEAN, false)
    requires exists w :: w in reqs[0].session.flushed && w.row == row
    ensures Advance(reqs[1], Busy(reqs, 1), boundary).Stuck?
  {
    assert row in Busy(reqs, 1);
    TouchRun(row, Busy(reqs, 1));
  }

  /** Any first slice that gives the loop back with a flushed write outstanding, because it
      awaits or because there is no boundary, lets a second request freeze the loop. */
  lemma FlushedWriteAcrossYieldFreezes(m: Mutation, boundary: bool)
    requires m.slices != [] && RunOps(CLEAN, m.slices[0], {}).Ran?
    requires RunOps(CLEAN, m.slices[0], {}).session.flushed != []
    requires |m.slices| > 1 || !boundary
    ensures exists row :: CanFreeze([Program([m], []), Program([Touch(row)], [])], boundary)
  {
    var row := RunOps(CLEAN, m.slices[0], {}).session.flushed[0].row;
    var programs := [Program([m], []), Program([Touch(row)], [])];
    var start := Init(programs);
    assert Busy(start.reqs, 0) == {};
    var p := Turn(start, 0, boundary);
    var next := State(start.reqs[0 := p.req], start.log + Tag(0, p.committed));
    assert Step(start, 0, next, boundary);
    assert next.reqs[0].session.flushed[0] in next.reqs[0].session.flushed;
    LockedRowBlocks(next.reqs, row, boundary);
    assert FrozenRun(programs, [start, next], [0], 1, boundary);
  }

  /** Without the boundary two flush-only requests on one row are enough; with it they are not. */
  lemma TwoTouches(row: nat)
    ensures var start := Init([Program([Touch(row)], []), Program([Touch(row)], [])]);
      && Turn(start, 0, false).Moved?
      && Advance(start.reqs[1], Busy(start.reqs[0 := Turn(start, 0, false).req], 1), false).Stuck?
      && Turn(start, 0, true).Moved?
      && Advance(start.reqs[1], Busy(start.reqs[0 := Turn(start, 0, true).req], 1), true).Moved?
  {
    var start := Init([Program([Touch(row)], []), Program([Touch(row)], [])]);
    assert Busy(start.reqs, 0) == {};
    TouchRun(row, {});
    var held := start.reqs[0 := Turn(start, 0, false).req];
    assert held[0].session.flushed == [Write(row, 0)] && Write(row, 0) in held[0].session.flushed;
    assert row in Busy(held, 1);
    TouchRun(row, Busy(held, 1));
    var free := start.reqs[0 := Turn(start, 0, true).req];
    assert free[0].session == CLEAN;
    assert Busy(free, 1) == {};
  }
}
