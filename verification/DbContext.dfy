/** global_config/db_context.py and the settle wrapper of schema.py: the session
    bound to a request, its early end, and its teardown under every failure. */
module DbContext {
  import opened Prelude
  import opened SessionLayer

  /** How a call ends: normally, with an ordinary exception, or with one that
      `except Exception` does not catch (cancellation, interpreter exit). */
  datatype Fault = Fine | Error | Fatal

  datatype Call =
    | Opened(id: nat)
    | CommitCall(id: nat, result: Fault)
    | RollbackCall(id: nat, result: Fault)
    | CloseCall(id: nat, result: Fault)

  /** A request handler as the session sees it, with the fate of each teardown call. */
  datatype Handler = Handler(body: seq<Act>, ending: Fault,
                             commit: Fault, rollbackAfterCommit: Fault, rollback: Fault, close: Fault)

  datatype Act =
    | Do(op: Op)
    | End(commit: bool, commitResult: Fault, rollbackResult: Fault)
    | Nested(inner: Handler, caught: bool)

  /** What a resolver handed to the settle wrapper. */
  datatype Resolved = Value | ExceptionValue | RaisedError | RaisedFatal

  /** What one request session did: its calls up to the end of the body and after it, how the
      body ended, the session it left and the log at that moment. */
  datatype Report = Report(id: nat, bodyOut: Fault, left: Session, body: seq<Call>, tail: seq<Call>, log: seq<Write>)

  /** Whether a transaction is open after some operations: reads and changes begin one, a commit ends it. */
  predicate Begun(ops: seq<Op>) {
    ops != [] &&
    match ops[|ops| - 1]
    case Read => true
    case Change(_) => true
    case Flush => Begun(ops[..|ops| - 1])
    case CommitNow => false
  }

  lemma {:induction false} BegunIsOpen(ops: seq<Op>)
    ensures RunOps(CLEAN, ops, {}).Ran? && (RunOps(CLEAN, ops, {}).session.inTransaction <==> Begun(ops))
  {
    RunIgnoresLocks(CLEAN, ops, {});
    if ops != [] {
      var n := |ops| - 1;
      BegunIsOpen(ops[..n]);
      assert ops == ops[..n] + [ops[n]] && [ops[n]][1..] == [];
      RunAppend(CLEAN, ops[..n], [ops[n]]);
    }
  }

  /** No session inside the session. */
  predicate Flat(body: seq<Act>) {
    forall i :: 0 <= i < |body| ==> !body[i].Nested?
  }

  /** The reference meaning of a flat handler, after the operations `ops` of its open transaction: a transaction that
      is committed leaves all its changes, any other only those it had committed itself, and what an early end raises
      stops the handler. */
  function Meant(ops: seq<Op>, acts: seq<Act>, fine: bool): seq<Write>
    decreases |acts|
  {
    if acts == [] then Effect(ops, if fine then Returned else Raised)
    else match acts[0]
      case Do(op) => Meant(ops + [op], acts[1..], fine)
      case End(commit, c, r) =>
        if !Begun(ops) then Meant(ops, acts[1..], fine)
        else Effect(ops, if commit && c == Fine then Returned else Raised)
             + if (if commit then c else r) == Fine then Meant([], acts[1..], fine) else []
      case Nested(_, _) => []
  }

  function OpsOf(body: seq<Act>): (r: seq<Op>)
    requires forall i :: 0 <= i < |body| ==> body[i].Do?
    ensures |r| == |body| && forall i :: 0 <= i < |body| ==> r[i] == body[i].op
  {
    seq(|body|, i requires 0 <= i < |body| => body[i].op)
  }

  /** A handler without early ends means all its changes when it ends well and its commit goes through, and otherwise
      those through its last own commit. */
  lemma {:induction false} PlainHandlerMeans(ops: seq<Op>, body: seq<Act>, fine: bool)
    requires forall i :: 0 <= i < |body| ==> body[i].Do?
    ensures Meant(ops, body, fine) == if fine then Changes(ops + OpsOf(body)) else Changes(ThroughLastCommit(ops + OpsOf(body)))
    decreases |body|
  {
    if body == [] {
      assert ops + OpsOf(body) == ops;
    } else {
      PlainHandlerMeans(ops + [body[0].op], body[1..], fine);
      assert ops + [body[0].op] + OpsOf(body[1..]) == ops + OpsOf(body);
    }
  }

  /** What had been committed on the way and what ending the transaction commits are the worth of its operations. */
  lemma FinishIsEffect(ops: seq<Op>, kept: bool)
    ensures RunOps(CLEAN, ops, {}).Ran?
    ensures RunOps(CLEAN, ops, {}).committed + Finish(RunOps(CLEAN, ops, {}).session, kept, {}).committed
         == Effect(ops, if kept then Returned else Raised)
  {
    RunAccountsForChanges(ops);
    var r := RunOps(CLEAN, ops, {});
    assert r.committed + [] == r.committed;
    assert r.committed + (r.session.flushed + r.session.pending) == r.committed + r.session.flushed + r.session.pending;
  }

  /** A handler that has run some operations since its last early end, after a log of `base`. */
  ghost predicate Stands(s: Session, log: seq<Write>, base: seq<Write>, ops: seq<Op>) {
    RunOps(CLEAN, ops, {}).Ran? && s == RunOps(CLEAN, ops, {}).session && log == base + RunOps(CLEAN, ops, {}).committed
  }

  lemma StandsFirst(log: seq<Write>)
    ensures Stands(CLEAN, log, log, [])
  {
  }

  lemma StandsNext(s: Session, log: seq<Write>, base: seq<Write>, ops: seq<Op>, op: Op)
    requires Stands(s, log, base, ops)
    ensures Exec(s, op, {}).Ran? && Stands(Exec(s, op, {}).session, log + Exec(s, op, {}).committed, base, ops + [op])
  {
    RunAppend(CLEAN, ops, [op]);
    var e := Exec(s, op, {});
    assert [op][1..] == [] && RunOps(s, [op], {}) == Ran(e.session, e.committed + []) && e.committed + [] == e.committed;
  }

  /** Ending the transaction adds the rest of what its operations are worth. */
  lemma StandsEnded(s: Session, log: seq<Write>, base: seq<Write>, ops: seq<Op>, kept: bool)
    requires Stands(s, log, base, ops)
    ensures log + Finish(s, kept, {}).committed == base + Effect(ops, if kept then Returned else Raised)
    ensures s.inTransaction <==> Begun(ops)
  {
    FinishIsEffect(ops, kept);
    BegunIsOpen(ops);
  }

  predicate KeepsAll(h: Handler) {
    h.ending == Fine && h.commit == Fine
  }

  /** A flat handler after i of its acts, which began with the log `was`: it stands, and what it has logged and still
      means are what it means; or an early end has raised, and the log is all it means. */
  ghost predicate OnCourse(h: Handler, i: nat, out: Fault, s: Session, log: seq<Write>, was: seq<Write>, base: seq<Write>, ops: seq<Op>)
    requires i <= |h.body|
  {
    Flat(h.body) ==>
      if out == Fine then Stands(s, log, base, ops) && base + Meant(ops, h.body[i..], KeepsAll(h)) == was + Meant([], h.body, KeepsAll(h))
      else log == was + Meant([], h.body, KeepsAll(h))
  }

  lemma StartsOnCourse(h: Handler, log: seq<Write>)
    ensures OnCourse(h, 0, Fine, CLEAN, log, log, log, [])
  {
    assert h.body[0..] == h.body;
    StandsFirst(log);
  }

  lemma DoOnCourse(h: Handler, i: nat, s: Session, log: seq<Write>, was: seq<Write>, base: seq<Write>, ops: seq<Op>, op: Op)
    requires i < |h.body| && h.body[i] == Do(op) && OnCourse(h, i, Fine, s, log, was, base, ops)
    ensures Exec(s, op, {}).Ran?
    ensures OnCourse(h, i + 1, Fine, Exec(s, op, {}).session, log + Exec(s, op, {}).committed, was, base, ops + [op])
  {
    assert h.body[i..][0] == h.body[i] && h.body[i..][1..] == h.body[i + 1..];
    if Flat(h.body) {
      StandsNext(s, log, base, ops, op);
    }
  }

  lemma EndOnCourse(h: Handler, i: nat, s: Session, log: seq<Write>, was: seq<Write>, base: seq<Write>, ops: seq<Op>,
                    out: Fault, s': Session, log': seq<Write>)
    requires i < |h.body| && h.body[i].End? && OnCourse(h, i, Fine, s, log, was, base, ops)
    requires var e := h.body[i];
      if !s.inTransaction then out == Fine && s' == s && log' == log
      else && log' == log + Finish(s, e.commit && e.commitResult == Fine, {}).committed && (out == Fine ==> s' == CLEAN)
           && (out == Fine <==> (if e.commit then e.commitResult else e.rollbackResult) == Fine)
    ensures Begun(ops) ==> OnCourse(h, i + 1, out, s', log', was, log', [])
    ensures !Begun(ops) ==> OnCourse(h, i + 1, out, s', log', was, base, ops)
  {
    var rest := h.body[i + 1..];
    assert h.body[i..][0] == h.body[i] && h.body[i..][1..] == rest;
    if Flat(h.body) {
      var kept := h.body[i].commit && h.body[i].commitResult == Fine;
      var worth := Effect(ops, if kept then Returned else Raised);
      StandsEnded(s, log, base, ops, kept);
      if Begun(ops) {
        StandsFirst(log');
        if out == Fine {
          Associative(base, worth, Meant([], rest, KeepsAll(h)));
        } else {
          Associative(base, worth, []);
        }
      }
    }
  }

  lemma EndsOnCourse(h: Handler, s: Session, log: seq<Write>, was: seq<Write>, base: seq<Write>, ops: seq<Op>)
    requires Flat(h.body) && OnCourse(h, |h.body|, Fine, s, log, was, base, ops)
    ensures log + Finish(s, KeepsAll(h), {}).committed == was + Meant([], h.body, KeepsAll(h))
  {
    StandsEnded(s, log, base, ops, KeepsAll(h));
  }

  /** How often session k was opened minus how often it was closed. */
  function Balance(calls: seq<Call>, k: nat): int {
    if calls == [] then 0 else
      Balance(calls[..|calls| - 1], k)
      + match calls[|calls| - 1]
        case Opened(id) => if id == k then 1 else 0
        case CloseCall(id, _) => if id == k then -1 else 0
        case _ => 0
  }

  /** Everything opened was closed again, apart from the given session. */
  ghost predicate LeavesOpen(calls: seq<Call>, only: Option<nat>) {
    forall k: nat :: Balance(calls, k) == if only == Some(k) then 1 else 0
  }

  lemma {:induction false} BalanceAppend(a: seq<Call>, b: seq<Call>, k: nat)
    ensures Balance(a + b, k) == Balance(a, k) + Balance(b, k)
  {
    if b == [] {
      assert a + b == a;
    } else {
      var n := |b| - 1;
      assert (a + b)[..|a| + n] == a + b[..n];
      BalanceAppend(a, b[..n], k);
    }
  }

  lemma AppendClosed(a: seq<Call>, b: seq<Call>, only: Option<nat>)
    requires LeavesOpen(a, only) && LeavesOpen(b, None)
    ensures LeavesOpen(a + b, only)
  {
    forall k: nat ensures Balance(a + b, k) == if only == Some(k) then 1 else 0 {
      BalanceAppend(a, b, k);
    }
  }

  predicate Quiet(calls: seq<Call>) {
    forall i :: 0 <= i < |calls| ==> calls[i].CommitCall? || calls[i].RollbackCall?
  }

  lemma {:induction false} QuietBalance(calls: seq<Call>, k: nat)
    requires Quiet(calls)
    ensures Balance(calls, k) == 0
  {
    if calls != [] {
      QuietBalance(calls[..|calls| - 1], k);
    }
  }

  lemma QuietClosed(calls: seq<Call>)
    requires Quiet(calls)
    ensures LeavesOpen(calls, None)
  {
    forall k: nat ensures Balance(calls, k) == 0 {
      QuietBalance(calls, k);
    }
  }

  lemma OpenedFirst(id: nat)
    ensures LeavesOpen([Opened(id)], Some(id))
  {
    assert [Opened(id)][..0] == [];
  }

  /** A body that left only its own session open, followed by its teardown. */
  lemma ClosedByTail(body: seq<Call>, quiet: seq<Call>, id: nat, close: Fault)
    requires LeavesOpen(body, Some(id)) && Quiet(quiet)
    ensures LeavesOpen(body + (quiet + [CloseCall(id, close)]), None)
  {
    forall k: nat ensures Balance(body + (quiet + [CloseCall(id, close)]), k) == 0 {
      BalanceAppend(body, quiet + [CloseCall(id, close)], k);
      QuietBalance(quiet, k);
      assert (quiet + [CloseCall(id, close)])[..|quiet|] == quiet;
    }
  }

  predicate DiedAt(calls: seq<Call>, i: int) {
    0 <= i < |calls| && !calls[i].Opened? && calls[i].result == Fatal
  }

  /** The teardown of one session: what it may call, in what order, and with what result. */
  ghost predicate Teardown(calls: seq<Call>, id: nat, bodyOut: Fault, open: bool, out: Fault) {
    // close comes last, exactly once, and only a fatal failure of it is seen
    && calls != [] && calls[|calls| - 1].CloseCall?
    && (forall i :: 0 <= i < |calls| ==> calls[i].id == id && (calls[i].CloseCall? ==> i == |calls| - 1))
    && (calls[|calls| - 1].result == Fatal ==> out == Fatal)
    // commit at most once: first, after a normal body with work to commit
    && (forall i :: 0 <= i < |calls| && calls[i].CommitCall? ==> i == 0 && bodyOut == Fine && open)
    && (bodyOut == Fine && open ==> calls[0].CommitCall?)
    && (forall i :: 0 <= i < |calls| ==> !calls[i].Opened?)
    // a refused commit is rolled back next, and the request fails
    && (calls[0] == CommitCall(id, Error) ==> |calls| > 1 && calls[1].RollbackCall? && out != Fine)
    // a failed body is rolled back
    && (bodyOut == Error ==> calls[0].RollbackCall?)
    && (bodyOut != Fine ==> out != Fine)
    // success means nothing was raised
    && (out == Fine <==> bodyOut == Fine && (open ==> calls[0].result == Fine) && calls[|calls| - 1].result != Fatal)
    // and what is raised is fatal when the body or one of the calls was
    && (out == Fatal <==> bodyOut == Fatal || exists i :: DiedAt(calls, i))
  }

  /** What is being raised after the `else` part: a commit is tried only after a normal body. */
  function AfterElse(bodyOut: Fault, open: bool, h: Handler): Fault {
    if bodyOut != Fine || !open then bodyOut
    else if h.commit == Error && h.rollbackAfterCommit != Fine then h.rollbackAfterCommit
    else h.commit
  }

  function ElseCalls(id: nat, bodyOut: Fault, open: bool, h: Handler): seq<Call> {
    if bodyOut != Fine || !open then []
    else [CommitCall(id, h.commit)] + if h.commit == Error then [RollbackCall(id, h.rollbackAfterCommit)] else []
  }

  /** The `else` and `except` parts together. */
  function EndCalls(id: nat, bodyOut: Fault, open: bool, h: Handler): seq<Call> {
    ElseCalls(id, bodyOut, open, h) + if AfterElse(bodyOut, open, h) == Error then [RollbackCall(id, h.rollback)] else []
  }

  function EndOut(bodyOut: Fault, open: bool, h: Handler): Fault {
    var raised := AfterElse(bodyOut, open, h);
    if h.close == Fatal || (raised == Error && h.rollback == Fatal) then Fatal else raised
  }

  /** The calls that end a session are a proper teardown, whichever of them fail. */
  lemma EndIsTeardown(id: nat, bodyOut: Fault, open: bool, h: Handler)
    ensures Quiet(EndCalls(id, bodyOut, open, h))
    ensures Teardown(EndCalls(id, bodyOut, open, h) + [CloseCall(id, h.close)], id, bodyOut, open, EndOut(bodyOut, open, h))
  {
    var calls := EndCalls(id, bodyOut, open, h) + [CloseCall(id, h.close)];
    if EndOut(bodyOut, open, h) == Fatal && bodyOut != Fatal {
      if h.close == Fatal {
        assert DiedAt(calls, |calls| - 1);
      } else if AfterElse(bodyOut, open, h) == Error {
        assert DiedAt(calls, |calls| - 2);
      } else {
        assert DiedAt(calls, if h.commit == Fatal then 0 else 1);
      }
    }
  }

  class Context {
    var current: Option<nat>
    var sessions: map<nat, Session>
    var next: nat
    var calls: seq<Call>
    var committed: seq<Write>

    ghost predicate Valid()
      reads this
    {
      && (forall k :: k in sessions ==> k < next && sessions[k].Valid())
      && (current.Some? ==> current.value < next)
    }

    ghost predicate Bound()
      reads this
    {
      current.Some? ==> current.value in sessions
    }

    /** Ends the bound session's open transaction now. */
    method FinishRequestTransaction(commit: bool, commitResult: Fault, rollbackResult: Fault)
      returns (out: Fault, ghost seg: seq<Call>)
      requires Valid() && Bound()
      modifies this`sessions, this`calls, this`committed
      ensures Valid() && Bound() && sessions.Keys == old(sessions.Keys)
      ensures calls == old(calls) + seg && Quiet(seg)
      ensures forall k :: k in sessions && Some(k) != current ==> sessions[k] == old(sessions)[k]
      // nothing bound, or nothing begun: no call at all
      ensures current.None? || !old(sessions)[current.value].inTransaction ==>
        out == Fine && seg == [] && sessions == old(sessions) && committed == old(committed)
      // otherwise the transaction is over, unless the commit itself died: then nothing rolls it back
      ensures current.Some? && old(sessions)[current.value].inTransaction && !(commit && commitResult == Fatal) ==>
        sessions[current.value] == CLEAN
      ensures current.Some? && old(sessions)[current.value].inTransaction && commit && commitResult == Fatal ==>
        seg == [CommitCall(current.value, Fatal)] && sessions == old(sessions) && out == Fatal
      // its writes are kept exactly on a commit that went through
      ensures current.Some? && old(sessions)[current.value].inTransaction ==>
        committed == old(committed) + Finish(old(sessions)[current.value], commit && commitResult == Fine, {}).committed
      ensures current.Some? && old(sessions)[current.value].inTransaction ==>
        (out == Fine <==> if commit then commitResult == Fine else rollbackResult == Fine)
      // and a refused commit is rolled back before it is raised
      ensures current.Some? && old(sessions)[current.value].inTransaction && commit && commitResult == Error ==>
        seg == [CommitCall(current.value, Error), RollbackCall(current.value, rollbackResult)]
    {
      out, seg := Fine, [];
      if current.None? {
        return;
      }
      var id := current.value;
      var s := sessions[id];
      if !s.inTransaction {
        return;
      }
      if !commit {
        calls := calls + [RollbackCall(id, rollbackResult)];
        seg := [RollbackCall(id, rollbackResult)];
        sessions := sessions[id := CLEAN];
        out := rollbackResult;
        return;
      }
      out := commitResult;
      calls := calls + [CommitCall(id, commitResult)];
      seg := [CommitCall(id, commitResult)];
      if commitResult == Fatal {
        return;
      }
      if commitResult == Fine {
        committed := committed + (s.flushed + s.pending);
      } else {
        calls := calls + [RollbackCall(id, rollbackResult)];
        seg := seg + [RollbackCall(id, rollbackResult)];
        if rollbackResult != Fine {
          out := rollbackResult;
        }
      }
      sessions := sessions[id := CLEAN];
    }

    /** The GraphQL middleware, at the moment a resolver has settled. */
    method EndTransactionAfterRootMutation(rootMutation: bool, resolved: Resolved, commitResult: Fault, rollbackResult: Fault)
      returns (out: Fault)
      requires Valid() && Bound()
      modifies this`sessions, this`calls, this`committed
      ensures Valid() && Bound() && sessions.Keys == old(sessions.Keys)
      // nested fields and queries pass straight through
      ensures !rootMutation ==> sessions == old(sessions) && calls == old(calls) && committed == old(committed)
      // a settled root mutation leaves no transaction open, unless its commit died
      ensures rootMutation && current.Some? && !(resolved == Value && commitResult == Fatal) ==> sessions[current.value] == CLEAN
      ensures rootMutation && current.Some? && resolved == Value && commitResult == Fatal && old(sessions)[current.value].inTransaction ==>
        sessions == old(sessions) && out == Fatal
      // and keeps its writes exactly when it returned a value and the commit went through
      ensures rootMutation && current.Some? ==>
        committed == old(committed) + Finish(old(sessions)[current.value], resolved == Value && commitResult == Fine, {}).committed
      // a raise is never turned into a success
      ensures resolved.RaisedError? || resolved.RaisedFatal? ==> out != Fine
    {
      out := if resolved == RaisedError then Error else if resolved == RaisedFatal then Fatal else Fine;
      if !rootMutation {
        return;
      }
      var ended, _ := FinishRequestTransaction(resolved == Value, commitResult, rollbackResult);
      if ended != Fine {
        out := ended;
      }
    }

    /** The `else` and `except` parts: commit after a normal body, roll back whatever is being raised. */
    method CommitOrRollBack(self: nat, bodyOut: Fault, h: Handler) returns (raised: Fault)
      requires Valid() && self in sessions
      modifies this`calls, this`committed
      ensures raised == if AfterElse(bodyOut, sessions[self].inTransaction, h) == Error && h.rollback == Fatal then Fatal
                        else AfterElse(bodyOut, sessions[self].inTransaction, h)
      ensures calls == old(calls) + EndCalls(self, bodyOut, sessions[self].inTransaction, h)
      ensures committed == old(committed) + Finish(sessions[self], bodyOut == Fine && h.commit == Fine, {}).committed
    {
      var s := sessions[self];
      raised := bodyOut;
      if bodyOut == Fine && (s.inTransaction || s.pending != []) {
        raised := h.commit;
        calls := calls + [CommitCall(self, h.commit)];
        if h.commit == Fine {
          committed := committed + (s.flushed + s.pending);
        } else if h.commit == Error {
          calls := calls + [RollbackCall(self, h.rollbackAfterCommit)];
          if h.rollbackAfterCommit != Fine {
            raised := h.rollbackAfterCommit;
          }
        }
      }
      assert calls == old(calls) + ElseCalls(self, bodyOut, s.inTransaction, h);
      if raised == Error {
        calls := calls + [RollbackCall(self, h.rollback)];
        if h.rollback == Fatal {
          raised := Fatal;
        }
      }
    }

    /** Everything after the body of request_session, its `finally` part last. */
    method EndSession(self: nat, token: Option<nat>, bodyOut: Fault, h: Handler) returns (out: Fault, ghost quiet: seq<Call>)
      requires Valid() && self in sessions && (token.Some? ==> token.value < next)
      modifies this`calls, this`committed, this`sessions, this`current
      ensures Valid() && sessions == old(sessions) - {self}
      ensures current == if h.close == Fatal then old(current) else token
      ensures h.close == Fatal ==> out == Fatal
      ensures Quiet(quiet) && calls == old(calls) + (quiet + [CloseCall(self, h.close)])
      ensures Teardown(quiet + [CloseCall(self, h.close)], self, bodyOut, old(sessions)[self].inTransaction, out)
      ensures committed == old(committed) + Finish(old(sessions)[self], bodyOut == Fine && h.commit == Fine, {}).committed
    {
      ghost var open := sessions[self].inTransaction;
      EndIsTeardown(self, bodyOut, open, h);
      quiet := EndCalls(self, bodyOut, open, h);
      out := CommitOrRollBack(self, bodyOut, h);
      if h.close == Fatal {
        out := Fatal;
      }
      assert out == EndOut(bodyOut, open, h);
      CloseSession(self, token, h.close);
    }

    /** The `finally` part: the context variable comes back unless closing died. */
    method CloseSession(self: nat, token: Option<nat>, close: Fault)
      requires Valid() && self in sessions && (token.Some? ==> token.value < next)
      modifies this`calls, this`sessions, this`current
      ensures Valid() && sessions == old(sessions) - {self} && calls == old(calls) + [CloseCall(self, close)]
      ensures current == if close == Fatal then old(current) else token
    {
      calls := calls + [CloseCall(self, close)];
      sessions := sessions - {self};
      if close != Fatal {
        current := token;
      }
    }

    /** One act of a handler. The log began as `was`; since the last early end, when it was `base`, the handler has run `ops`. */
    method RunAct(self: nat, h: Handler, i: nat, ghost was: seq<Write>, ghost base: seq<Write>, ghost ops: seq<Op>)
      returns (out: Fault, ghost seg: seq<Call>, ghost base': seq<Write>, ghost ops': seq<Op>)
      requires Valid() && self in sessions && current == Some(self) && i < |h.body|
      requires OnCourse(h, i, Fine, sessions[self], committed, was, base, ops)
      modifies this
      ensures Valid() && self < next && self in sessions && current.Some? && current.value >= self
      ensures out == Fine ==> current == Some(self)
      ensures old(next) <= next && sessions - {self} == old(sessions) - {self}
      ensures calls == old(calls) + seg && LeavesOpen(seg, None)
      ensures old(committed) <= committed
      ensures OnCourse(h, i + 1, out, sessions[self], committed, was, base', ops')
      decreases h, 0
    {
      out, seg, base', ops' := Fine, [], base, ops;
      match h.body[i] {
        case Do(op) =>
          DoOnCourse(h, i, sessions[self], committed, was, base, ops, op);
          ops' := ops + [op];
          ResolverStep(self, op);
          QuietClosed(seg);
        case End(commit, c, r) =>
          ghost var s, log := sessions[self], committed;
          out, seg := FinishRequestTransaction(commit, c, r);
          QuietClosed(seg);
          EndOnCourse(h, i, s, log, was, base, ops, out, sessions[self], committed);
          if Begun(ops) {
            base', ops' := committed, [];
          }
        case Nested(inner, caught) =>
          ghost var sub;
          out, sub := RequestSession(inner);
          seg := sub.body + sub.tail;
          if out == Error && caught {
            out := Fine;
          }
      }
    }

    /** The handler's own code, up to the point where the body returns or raises. */
    method RunBody(self: nat, h: Handler) returns (out: Fault, ghost seg: seq<Call>)
      requires Valid() && self in sessions && current == Some(self) && sessions[self] == CLEAN
      modifies this
      ensures Valid() && self < next && self in sessions && current.Some? && current.value >= self
      ensures old(next) <= next && sessions - {self} == old(sessions) - {self}
      ensures calls == old(calls) + seg && LeavesOpen(seg, None)
      ensures old(committed) <= committed
      ensures Flat(h.body) ==>
        committed + Finish(sessions[self], out == Fine && h.commit == Fine, {}).committed == old(committed) + Meant([], h.body, KeepsAll(h))
      decreases h, 1
    {
      out, seg := Fine, [];
      QuietClosed(seg);
      ghost var base, ops := committed, [];
      StartsOnCourse(h, committed);
      var i := 0;
      while i < |h.body| && out == Fine
        invariant 0 <= i <= |h.body|
        invariant Valid() && self < next && self in sessions && current.Some? && current.value >= self
        invariant out == Fine ==> current == Some(self)
        invariant old(next) <= next && sessions - {self} == old(sessions) - {self}
        invariant calls == old(calls) + seg && LeavesOpen(seg, None)
        invariant old(committed) <= committed
        invariant OnCourse(h, i, out, sessions[self], committed, old(committed), base, ops)
        decreases |h.body| - i
      {
        ghost var more;
        out, more, base, ops := RunAct(self, h, i, old(committed), base, ops);
        AppendClosed(seg, more, None);
        seg := seg + more;
        i := i + 1;
      }
      if out == Fine {
        if Flat(h.body) {
          EndsOnCourse(h, sessions[self], committed, old(committed), base, ops);
        }
        out := h.ending;
      }
    }

    /** `with request_session(): body`, nested to any depth. */
    method RequestSession(h: Handler) returns (out: Fault, ghost report: Report)
      requires Valid()
      modifies this
      ensures Valid() && sessions == old(sessions) && report.id == old(next) < next
      // the context variable is back exactly when closing the session did not itself die
      ensures current == old(current) <==> h.close != Fatal
      ensures h.close == Fatal ==> out == Fatal && current.Some? && current.value >= old(next)
      // every session opened in here, at any depth, had close called on it
      ensures calls == old(calls) + (report.body + report.tail) && LeavesOpen(report.body + report.tail, None)
      // the calls after the body follow the teardown protocol
      ensures Teardown(report.tail, report.id, report.bodyOut, report.left.inTransaction, out)
      // the body's own commits stay; teardown keeps what a normal body left open, if its commit went through
      ensures old(committed) <= report.log
      // a flat handler leaves in the log exactly what its operations mean
      ensures Flat(h.body) ==> committed == old(committed) + Meant([], h.body, KeepsAll(h))
      ensures committed == report.log + Finish(report.left, report.bodyOut == Fine && h.commit == Fine, {}).committed
      decreases h, 2
    {
      var self := next;
      var token := current;
      next := next + 1;
      sessions := sessions[self := CLEAN];
      calls := calls + [Opened(self)];
      current := Some(self);
      OpenedFirst(self);
      var bodyOut;
      ghost var seg, quiet;
      bodyOut, seg := RunBody(self, h);
      AppendClosed([Opened(self)], seg, Some(self));
      ghost var body, left, log := [Opened(self)] + seg, sessions[self], committed;
      assert calls == old(calls) + body;
      out, quiet := EndSession(self, token, bodyOut, h);
      ClosedByTail(body, quiet, self, h.close);
      report := Report(self, bodyOut, left, body, quiet + [CloseCall(self, h.close)], log);
    }

    /** One statement of a handler on its own session. */
    method ResolverStep(id: nat, op: Op)
      requires Valid() && id in sessions
      modifies this`sessions, this`committed
      ensures Valid() && sessions == old(sessions)[id := Exec(old(sessions)[id], op, {}).session]
      ensures committed == old(committed) + Exec(old(sessions)[id], op, {}).committed
    {
      RunKeepsValid(sessions[id], [op], {});
      committed := committed + Exec(sessions[id], op, {}).committed;
      sessions := sessions[id := Exec(sessions[id], op, {}).session];
    }
  }
}
