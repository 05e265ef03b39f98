/** Exactly which requests can freeze the event loop, with the root-mutation boundary in place. */
module LoopFreeze {
  import opened SessionLayer
  import opened EventLoop

  /** Run alone from session s, no slice but the last ends with a flushed write outstanding. */
  predicate YieldsClean(s: Session, slices: seq<seq<Op>>)
    decreases |slices|
  {
    |slices| <= 1 ||
    match RunOps(s, slices[0], {})
    case Blocked => false
    case Ran(s1, _) => s1.flushed == [] && YieldsClean(s1, slices[1..])
  }

  ghost predicate CleanTodo(s: Session, todo: seq<Mutation>) {
    todo != [] ==>
      YieldsClean(s, todo[0].slices) && forall i :: 1 <= i < |todo| ==> YieldsClean(CLEAN, todo[i].slices)
  }

  ghost predicate Tidy(q: Request) {
    q.session.Valid() && q.session.flushed == [] && CleanTodo(q.session, q.todo) && ReadOnlyTail(q.tail)
  }

  ghost predicate AllTidy(st: State) {
    forall r :: 0 <= r < |st.reqs| ==> Tidy(st.reqs[r])
  }

  /** The discipline that the resolvers follow is one way to yield cleanly. */
  lemma {:induction false} DisciplinedYieldsClean(s: Session, m: Mutation)
    requires s.Valid() && s.flushed == [] && Disciplined(m)
    ensures YieldsClean(s, m.slices)
    decreases |m.slices|
  {
    if |m.slices| > 1 {
      NoLocksLeft(s, m.slices[0], false);
      RunKeepsValid(s, m.slices[0], {});
      var rest := m.(slices := m.slices[1..]);
      assert forall i :: 0 <= i < |rest.slices| ==> rest.slices[i] == m.slices[i + 1];
      DisciplinedYieldsClean(RunOps(s, m.slices[0], {}).session, rest);
    }
  }

  lemma CleanTodoRest(todo: seq<Mutation>)
    requires todo != [] && forall i :: 1 <= i < |todo| ==> YieldsClean(CLEAN, todo[i].slices)
    ensures CleanTodo(CLEAN, todo[1..])
  {
    assert forall i :: 0 <= i < |todo[1..]| ==> todo[1..][i] == todo[i + 1];
  }

  lemma AdvanceTidy(q: Request)
    requires Tidy(q)
    ensures Advance(q, {}, true).Moved? && Tidy(Advance(q, {}, true).req)
  {
    if q.todo != [] {
      var m := q.todo[0];
      RunIgnoresLocks(q.session, First(m.slices), {});
      RunKeepsValid(q.session, First(m.slices), {});
      if |m.slices| > 1 {
        var todo := [m.(slices := m.slices[1..])] + q.todo[1..];
        assert forall i :: 1 <= i < |todo| ==> todo[i] == q.todo[i];
      } else {
        CleanTodoRest(q.todo);
      }
    } else if q.tail != [] {
      ReadOnlyRun(q.session, q.tail[0]);
    }
  }

  lemma {:induction false} TidyNeverBlocks(states: seq<State>, turns: seq<nat>, k: nat)
    requires IsRun(states, turns, true) && AllTidy(states[0]) && k < |states|
    ensures AllTidy(states[k])
    ensures forall r: nat :: Ready(states[k], r) ==> Turn(states[k], r, true).Moved?
    decreases k
  {
    if k > 0 {
      TidyNeverBlocks(states, turns, k - 1);
      var st, r := states[k - 1], turns[k - 1];
      assert Step(st, r, states[k], true);
      assert Busy(st.reqs, r) == {};
      AdvanceTidy(st.reqs[r]);
    }
    forall r: nat | Ready(states[k], r) ensures Turn(states[k], r, true).Moved? {
      assert Busy(states[k].reqs, r) == {};
      AdvanceTidy(states[k].reqs[r]);
    }
  }

  ghost predicate CleanProgram(p: Program) {
    forall i :: 0 <= i < |p.mutations| ==> YieldsClean(CLEAN, p.mutations[i].slices)
  }

  /** Any number of requests that yield cleanly never freeze, in any interleaving. */
  lemma CleanProgramsNeverFreeze(programs: seq<Program>)
    requires forall p :: 0 <= p < |programs| ==> CleanProgram(programs[p]) && ReadOnlyTail(programs[p].tail)
    ensures !CanFreeze(programs, true)
  {
    forall states, turns, r ensures !FrozenRun(programs, states, turns, r, true) {
      if FrozenRun(programs, states, turns, r, true) {
        TidyNeverBlocks(states, turns, |turns|);
      }
    }
  }

  /** The first row that a request leaves locked when it gives the loop back. */
  function LeakedRow(s: Session, todo: seq<Mutation>): nat
    decreases Slices(todo)
  {
    if todo == [] then 0
    else if |todo[0].slices| <= 1 then LeakedRow(CLEAN, todo[1..])
    else
      match RunOps(s, todo[0].slices[0], {})
      case Blocked => 0
      case Ran(s1, _) =>
        if s1.flushed != [] then s1.flushed[0].row
        else
          var rest := [todo[0].(slices := todo[0].slices[1..])] + todo[1..];
          assert rest[1..] == todo[1..];
          LeakedRow(s1, rest)
  }

  /** How a second mutation sends its write: at once, or with the commit at its end, which goes through or is refused. */
  datatype Sending = AtOnce | WithCommit | WithRefusedCommit

  function Second(row: nat, how: Sending): Mutation {
    match how
    case AtOnce => Touch(row)
    case WithCommit => Mutation([[Change(Write(row, 0))]], Returned)
    case WithRefusedCommit => Mutation([[Change(Write(row, 0))]], CommitRefused)
  }

  function Partner(row: nat, how: Sending): Request {
    Request([Second(row, how)], [], CLEAN, false)
  }

  /** A mutation that fails before it has sent anything waits for nobody. */
  lemma FailureNeverWaits(w: Write, settle: Settle, busy: set<nat>)
    requires settle == Raised || settle == ReturnedException
    ensures Advance(Request([Mutation([[Change(w)]], settle)], [], CLEAN, false), busy, true)
         == Moved(Request([], [], CLEAN, false), [])
  {
    assert [Change(w)][1..] == [];
    assert RunOps(CLEAN, [Change(w)], busy) == Ran(Session(true, [w], []), []);
  }

  lemma PartnerBlocks(reqs: seq<Request>, row: nat, how: Sending)
    requires |reqs| == 2 && reqs[1] == Partner(row, how)
    requires exists w :: w in reqs[0].session.flushed && w.row == row
    ensures Advance(reqs[1], Busy(reqs, 1), true).Stuck?
  {
    if how == AtOnce {
      LockedRowBlocks(reqs, row, true);
    } else {
      var busy, ops := Busy(reqs, 1), First(Second(row, how).slices);
      assert row in busy && ops[1..] == [];
      assert RunOps(CLEAN, ops, busy) == Ran(Session(true, [Write(row, 0)], []), []);
      assert Write(row, 0) in [Write(row, 0)] && row in Rows([Write(row, 0)]);
    }
  }

  ghost predicate FreezesFrom(st: State, states: seq<State>, turns: seq<nat>) {
    && IsRun(states, turns, true) && states[0] == st
    && Ready(states[|turns|], 1) && Turn(states[|turns|], 1, true).Stuck?
  }

  lemma PrependTurn(st: State, next: State, states: seq<State>, turns: seq<nat>)
    requires Step(st, 0, next, true) && FreezesFrom(next, states, turns)
    ensures FreezesFrom(st, [st] + states, [0] + turns)
  {
    forall i | 0 <= i < |turns| + 1 ensures Step(([st] + states)[i], ([0] + turns)[i], ([st] + states)[i + 1], true) {
      if i > 0 {
        assert Step(states[i - 1], turns[i - 1], states[i], true);
      }
    }
  }

  /** One turn of a request that will leak: it leaks now, or is one slice closer. */
  lemma LeakingTurn(q: Request)
    requires q.session.Valid() && q.session.flushed == [] && !q.closed && !CleanTodo(q.session, q.todo)
    ensures Advance(q, {}, true).Moved?
    ensures var next := Advance(q, {}, true).req;
      && next.session.Valid() && !next.closed
      && if next.session.flushed != [] then next.session.flushed[0].row == LeakedRow(q.session, q.todo)
         else !CleanTodo(next.session, next.todo) && Slices(next.todo) < Slices(q.todo)
              && LeakedRow(next.session, next.todo) == LeakedRow(q.session, q.todo)
  {
    var m := q.todo[0];
    RunIgnoresLocks(q.session, First(m.slices), {});
    RunKeepsValid(q.session, First(m.slices), {});
    if |m.slices| > 1 {
      var rest := [m.(slices := m.slices[1..])] + q.todo[1..];
      assert rest[1..] == q.todo[1..];
      assert forall i :: 1 <= i < |q.todo| ==> rest[i] == q.todo[i];
    } else {
      assert Advance(q, {}, true).req.session == CLEAN;
      assert forall i :: 1 <= i < |q.todo| ==> q.todo[1..][i - 1] == q.todo[i];
    }
  }

  /** Resumed over and over, a request that does not yield cleanly comes to a yield where its partner blocks. */
  lemma {:induction false} LeakFreezes(q: Request, row: nat, how: Sending, log: seq<Entry>) returns (states: seq<State>, turns: seq<nat>)
    requires q.session.Valid() && q.session.flushed == [] && !q.closed && !CleanTodo(q.session, q.todo)
    requires row == LeakedRow(q.session, q.todo)
    ensures FreezesFrom(State([q, Partner(row, how)], log), states, turns)
    decreases Slices(q.todo)
  {
    var st := State([q, Partner(row, how)], log);
    assert Busy(st.reqs, 0) == {};
    LeakingTurn(q);
    var p := Turn(st, 0, true);
    var next := State(st.reqs[0 := p.req], st.log + Tag(0, p.committed));
    assert next.reqs == [p.req, Partner(row, how)];
    if p.req.session.flushed != [] {
      assert p.req.session.flushed[0] in p.req.session.flushed;
      PartnerBlocks(next.reqs, row, how);
      states, turns := [st, next], [0];
    } else {
      var more, later := LeakFreezes(p.req, row, how, next.log);
      PrependTurn(st, next, more, later);
      states, turns := [st] + more, [0] + later;
    }
  }

  /** With the boundary in place, some second request, however it sends its write, can be made to freeze the loop
      behind a program exactly when one of its mutations yields with a flushed write outstanding. */
  lemma FreezesExactly(p: Program, how: Sending)
    requires ReadOnlyTail(p.tail)
    ensures (exists row :: CanFreeze([p, Program([Second(row, how)], [])], true)) <==> !CleanProgram(p)
  {
    if CleanProgram(p) {
      forall row ensures !CanFreeze([p, Program([Second(row, how)], [])], true) {
        CleanProgramsNeverFreeze([p, Program([Second(row, how)], [])]);
      }
    } else {
      var q := Request(p.mutations, p.tail, CLEAN, false);
      var row := LeakedRow(CLEAN, p.mutations);
      var programs := [p, Program([Second(row, how)], [])];
      var states, turns := LeakFreezes(q, row, how, []);
      assert Init(programs) == State([q, Partner(row, how)], []);
      assert FrozenRun(programs, states, turns, 1, true);
    }
  }
}
