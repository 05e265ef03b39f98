/** One request's SQLAlchemy session: pending changes, flushed statements and
    what commit and rollback do with them (autoflush off, autobegin on first use). */
module SessionLayer {

  /** A row written with a value. */
  datatype Write = Write(row: nat, value: int)

  datatype Session = Session(inTransaction: bool, pending: seq<Write>, flushed: seq<Write>) {
    ghost predicate Valid() {
      pending != [] || flushed != [] ==> inTransaction
    }
  }

  const CLEAN := Session(false, [], [])

  /** What resolver code does to the session between two awaits. */
  datatype Op =
    | Read
    | Change(w: Write)
    | Flush
    | CommitNow

  /** A blocking driver either returns or waits for a row that nobody can free. */
  datatype Outcome = Blocked | Ran(session: Session, committed: seq<Write>)

  function Rows(ws: seq<Write>): set<nat> {
    set w <- ws :: w.row
  }

  /** Sends the pending statements; each takes its row's lock or waits for it. */
  function DoFlush(s: Session, busy: set<nat>): Outcome {
    if Rows(s.pending) !! busy then Ran(s.(pending := [], flushed := s.flushed + s.pending), [])
    else Blocked
  }

  /** `finish_request_transaction`: ends an open transaction, a no-op without one. */
  function Finish(s: Session, commit: bool, busy: set<nat>): Outcome {
    if !s.inTransaction then Ran(s, [])
    else if !commit then Ran(CLEAN, [])
    else if Rows(s.pending) !! busy then Ran(CLEAN, s.flushed + s.pending)
    else Blocked
  }

  /** One operation while the rows in `busy` are locked by suspended requests. */
  function Exec(s: Session, op: Op, busy: set<nat>): Outcome {
    match op
    case Read => Ran(s.(inTransaction := true), [])
    case Change(w) => Ran(s.(inTransaction := true, pending := s.pending + [w]), [])
    case Flush => DoFlush(s, busy)
    case CommitNow => Finish(s, true, busy)
  }

  function RunOps(s: Session, ops: seq<Op>, busy: set<nat>): Outcome
    decreases |ops|
  {
    if ops == [] then Ran(s, []) else
      match Exec(s, ops[0], busy)
      case Blocked => Blocked
      case Ran(s1, c1) =>
        match RunOps(s1, ops[1..], busy)
        case Blocked => Blocked
        case Ran(s2, c2) => Ran(s2, c1 + c2)
  }

  lemma Associative(a: seq<Write>, b: seq<Write>, c: seq<Write>)
    ensures (a + b) + c == a + (b + c)
  {
  }

  lemma {:induction false} RunKeepsValid(s: Session, ops: seq<Op>, busy: set<nat>)
    requires s.Valid() && RunOps(s, ops, busy).Ran?
    ensures RunOps(s, ops, busy).session.Valid()
    decreases |ops|
  {
    if ops != [] {
      RunKeepsValid(Exec(s, ops[0], busy).session, ops[1..], busy);
    }
  }

  /** Locks can only delay a run, never change what it does. */
  lemma {:induction false} RunIgnoresLocks(s: Session, ops: seq<Op>, busy: set<nat>)
    ensures RunOps(s, ops, {}).Ran?
    ensures RunOps(s, ops, busy).Ran? ==> RunOps(s, ops, busy) == RunOps(s, ops, {})
    decreases |ops|
  {
    if ops != [] {
      RunIgnoresLocks(Exec(s, ops[0], {}).session, ops[1..], {});
      if Exec(s, ops[0], busy).Ran? {
        RunIgnoresLocks(Exec(s, ops[0], busy).session, ops[1..], busy);
      }
    }
  }

  lemma {:induction false} RunAppend(s: Session, a: seq<Op>, b: seq<Op>)
    ensures RunOps(s, a, {}).Ran?
    ensures var r := RunOps(s, a, {}); var t := RunOps(r.session, b, {});
      t.Ran? && RunOps(s, a + b, {}) == Ran(t.session, r.committed + t.committed)
    decreases |a|
  {
    if a == [] {
      RunIgnoresLocks(s, b, {});
      assert a + b == b;
    } else {
      var first := Exec(s, a[0], {});
      assert (a + b)[0] == a[0] && (a + b)[1..] == a[1..] + b;
      RunAppend(first.session, a[1..], b);
      var r := RunOps(first.session, a[1..], {});
      var t := RunOps(r.session, b, {});
      assert first.committed + (r.committed + t.committed) == (first.committed + r.committed) + t.committed;
    }
  }

  // -------------------------------------------- what a mutation means, lock-free

  /** How a root mutation settles; a refused commit is rolled back and raised. */
  datatype Settle = Returned | ReturnedException | Raised | CommitRefused

  function Changes(ops: seq<Op>): seq<Write> {
    if ops == [] then []
    else (if ops[0].Change? then [ops[0].w] else []) + Changes(ops[1..])
  }

  /** The operations up to and including the last explicit commit. */
  function ThroughLastCommit(ops: seq<Op>): seq<Op> {
    if ops == [] then []
    else if ops[|ops| - 1] == CommitNow then ops
    else ThroughLastCommit(ops[..|ops| - 1])
  }

  /** The reference meaning: a success leaves all its changes, a failure only those it had committed itself. */
  function Effect(ops: seq<Op>, settle: Settle): seq<Write> {
    if settle == Returned then Changes(ops) else Changes(ThroughLastCommit(ops))
  }

  /** What the session machinery commits for the rest of a mutation. */
  function Committed(s: Session, ops: seq<Op>, settle: Settle): seq<Write> {
    match RunOps(s, ops, {})
    case Blocked => []
    case Ran(s1, c) => c + if settle == Returned then s1.flushed + s1.pending else []
  }

  lemma {:induction false} ChangesAppend(a: seq<Op>, b: seq<Op>)
    ensures Changes(a + b) == Changes(a) + Changes(b)
  {
    if a == [] {
      assert a + b == b;
    } else {
      assert (a + b)[1..] == a[1..] + b;
      ChangesAppend(a[1..], b);
      var head := if a[0].Change? then [a[0].w] else [];
      assert Changes(a + b) == head + (Changes(a[1..]) + Changes(b));
    }
  }

  /** Nothing is lost or reordered: committed, flushed and pending partition the changes so far. */
  lemma {:induction false} RunAccountsForChanges(ops: seq<Op>)
    ensures var r := RunOps(CLEAN, ops, {});
      && r.Ran? && r.session.Valid()
      && r.committed == Changes(ThroughLastCommit(ops))
      && r.committed + r.session.flushed + r.session.pending == Changes(ops)
  {
    if ops != [] {
      var front, last := ops[..|ops| - 1], ops[|ops| - 1];
      assert ops == front + [last];
      RunAccountsForChanges(front);
      RunAppend(CLEAN, front, [last]);
      ChangesAppend(front, [last]);
      var r := RunOps(CLEAN, front, {});
      assert [last][1..] == [];
      assert RunOps(r.session, [last], {}) == Exec(r.session, last, {}) by {
        assert Exec(r.session, last, {}).committed + [] == Exec(r.session, last, {}).committed;
      }
    }
  }

  /** The session machinery commits exactly the reference meaning of a mutation. */
  lemma CommittedIsEffect(ops: seq<Op>, settle: Settle)
    ensures Committed(CLEAN, ops, settle) == Effect(ops, settle)
  {
    RunAccountsForChanges(ops);
  }

  // ------------------------------------------------------------- lock discipline

  /** Whether a statement may be flushed but uncommitted after one operation. */
  predicate HeldAfter(op: Op, held: bool) {
    op == Flush || (op != CommitNow && held)
  }

  /** Whether one may be after all of them. */
  predicate HoldsLocks(ops: seq<Op>, held: bool) {
    if ops == [] then held else HoldsLocks(ops[1..], HeldAfter(ops[0], held))
  }

  /** A slice that ends with no flush outstanding leaves no row lock behind. */
  lemma {:induction false} NoLocksLeft(s: Session, ops: seq<Op>, held: bool)
    requires s.Valid() && !HoldsLocks(ops, held)
    requires !held ==> s.flushed == []
    ensures RunOps(s, ops, {}).Ran? && RunOps(s, ops, {}).session.flushed == []
    decreases |ops|
  {
    RunIgnoresLocks(s, ops, {});
    if ops != [] {
      NoLocksLeft(Exec(s, ops[0], {}).session, ops[1..], HeldAfter(ops[0], held));
    }
  }
}
