/** The archive's tasks over their shared queue, stop flag and tables: each method is what a
    task does between two awaits, proved to be the step that ArchivePipeline reasons about. */
module ArchiveService {
  import opened Prelude
  import opened ArchivePipeline
  import opened ArchiveFates

  class Archive {
    const capacity: int
    var accepted: seq<Item>
    var queue: seq<nat>
    var unfinished: int
    var stop: bool
    var sub: Subscriber
    var writers: seq<Writer>
    var ended: Ended
    var rows: seq<Row>
    ghost var stored: seq<nat>

    ghost function View(): State
      reads this
    {
      State(accepted, queue, unfinished, stop, sub, writers, ended)
    }

    /** The rows are those of the persisted messages, and every message meets the fate its payload calls for. */
    ghost predicate Valid()
      reads this
    {
      FatesByPayload(View()) && RowsOf(rows, stored, accepted, ended.persisted)
    }

    constructor (writerCount: nat, capacity: int)
      ensures View() == Start(writerCount) && rows == [] && Valid() && this.capacity == capacity
    {
      this.capacity := capacity;
      accepted, queue, unfinished, stop, sub := [], [], 0, false, Listening;
      writers := seq(writerCount, i => Checking);
      ended := Ended(multiset{}, multiset{}, multiset{}, multiset{});
      rows, stored := [], [];
    }

    method SetStop()
      modifies this`stop
      ensures View() == Do(old(View()), Stop, capacity)
    {
      stop := true;
    }

    /** A message reaches the subscriber: the stop check, the filters, then the put begins. */
    method OnMessage(topic: string, retain: bool, raw: Raw, now: real)
      modifies this`sub
      ensures !old(sub).Listening? ==> sub == old(sub)
      ensures old(sub).Listening? && stop ==> sub == Gone
      ensures old(sub).Listening? && !stop && (retain || exists head: string :: topic == head + "statistics") ==> sub == Listening
      ensures old(sub).Listening? && !stop && !retain && !(exists head: string :: topic == head + "statistics") ==>
        sub == Putting(Item(topic, raw, now))
      ensures View() == Do(old(View()), Receive(topic, retain, raw, now), capacity)
    {
      EndsWithExactly(topic, "statistics");
      if !sub.Listening? {
        return;
      }
      if stop {
        sub := Gone;
        return;
      }
      if retain {
        return;
      }
      if EndsWith(topic, "statistics") {
        return;
      }
      sub := Putting(Item(topic, raw, now));
    }

    /** `queue.put` goes through once there is room, and counts one more unfinished task. */
    method ResumePut()
      modifies this`accepted, this`queue, this`unfinished, this`sub
      ensures old(sub).Putting? && (capacity <= 0 || |old(queue)| < capacity) ==>
        accepted == old(accepted) + [old(sub).item] && queue == old(queue) + [|old(accepted)|]
        && unfinished == old(unfinished) + 1 && sub == Listening
      ensures !old(sub).Putting? || (0 < capacity <= |old(queue)|) ==> View() == old(View())
      ensures View() == Do(old(View()), Put, capacity)
    {
      if sub.Putting? && !(capacity > 0 && |queue| >= capacity) {
        queue := queue + [|accepted|];
        accepted := accepted + [sub.item];
        unfinished := unfinished + 1;
        sub := Listening;
      }
    }

    method ResumeLoopTest(w: nat, act: WriterAct)
      requires w < |writers| && writers[w].Checking?
      modifies this`writers
      ensures |writers| == |old(writers)|
      ensures act.Check? ==> (writers[w] == Left <==> stop && queue == []) && (writers[w] == Getting <==> !(stop && queue == []))
      ensures View() == Do(old(View()), Turn(w, act), capacity)
    {
      if act.Check? {
        writers := writers[w := if stop && queue == [] then Left else Getting];
      } else if act.Cancel? {
        writers := writers[w := Died(None)];
      }
    }

    method ResumeGet(w: nat, act: WriterAct)
      requires w < |writers| && writers[w].Getting?
      modifies this`writers, this`queue
      ensures |writers| == |old(writers)|
      ensures act.Take? && old(queue) != [] ==> writers[w] == Holding(old(queue)[0]) && old(queue) == [old(queue)[0]] + queue
      ensures !act.Take? ==> queue == old(queue)
      ensures View() == Do(old(View()), Turn(w, act), capacity)
    {
      if act.Timeout? {
        writers := writers[w := Checking];
      } else if act.Take? && queue != [] {
        writers := writers[w := Holding(queue[0])];
        queue := queue[1..];
      } else if act.Cancel? {
        writers := writers[w := Died(None)];
      }
    }

    /** A payload that cannot be decoded is dropped and acknowledged; any other parser exception ends the writer. */
    method ResumeDecode(w: nat, act: WriterAct)
      requires w < |writers| && writers[w].Holding?
      modifies this`writers, this`unfinished, this`ended
      ensures |writers| == |old(writers)|
      ensures act.Decode? && old(writers)[w].m < |accepted| ==>
        var m := old(writers)[w].m;
        if Parses(accepted[m].raw) then writers[w] == Saving(m) && unfinished == old(unfinished) && ended == old(ended)
        else if Undecodable(accepted[m].raw) then
          writers[w] == Checking && unfinished == old(unfinished) - 1 && ended == old(ended).(dropped := old(ended).dropped + multiset{m})
        else writers[w] == Died(Some(m)) && unfinished == old(unfinished) && ended == old(ended)
      ensures View() == Do(old(View()), Turn(w, act), capacity)
    {
      var m := writers[w].m;
      if act.Decode? && m < |accepted| {
        DecodeExactly(accepted[m].raw);
        match DecodePayload(accepted[m].raw)
        case Payload(_) =>
          writers := writers[w := Saving(m)];
        case Rejected =>
          ended := ended.(dropped := ended.dropped + multiset{m});
          unfinished := unfinished - 1;
          writers := writers[w := Checking];
        case Unhandled =>
          writers := writers[w := Died(Some(m))];
      }
    }

    /** The row of one message: its topic, its decoded payload, its arrival time. */
    method InsertRow(m: nat)
      requires ParsesAt(accepted, m) && RowsOf(rows, stored, accepted, ended.persisted)
      modifies this`rows, this`stored
      ensures RowsOf(rows, stored, accepted, ended.persisted + multiset{m})
      ensures |rows| == |old(rows)| + 1 && old(rows) <= rows && IsRowOf(rows[|rows| - 1], accepted[m])
    {
      DecodeExactly(accepted[m].raw);
      var row := Row(accepted[m].topic, DecodePayload(accepted[m].raw).json, accepted[m].ts);
      RowsMore(rows, stored, accepted, ended.persisted, row, m);
      rows := rows + [row];
      stored := stored + [m];
    }

    /** The insert commits, fails and is logged, or is cancelled; the finally clause acknowledges it. */
    method ResumePersist(w: nat, act: WriterAct)
      requires w < |writers| && writers[w].Saving?
      modifies this`writers, this`unfinished, this`ended
      ensures |writers| == |old(writers)|
      ensures !act.Commit? ==> ended.persisted == old(ended).persisted
      ensures act.Commit? ==> ended.persisted == old(ended).persisted + multiset{old(writers)[w].m} && unfinished == old(unfinished)
      ensures act.Fail? ==> ended.failed == old(ended).failed + multiset{old(writers)[w].m} && unfinished == old(unfinished)
      ensures act.Commit? || act.Fail? ==> writers[w] == Settling
      ensures act.Cancel? ==> writers[w].Died? && unfinished == old(unfinished) - 1 && ended.persisted == old(ended).persisted
      ensures View() == Do(old(View()), Turn(w, act), capacity)
    {
      var m := writers[w].m;
      if act.Commit? {
        ended := ended.(persisted := ended.persisted + multiset{m});
        writers := writers[w := Settling];
      } else if act.Fail? {
        ended := ended.(failed := ended.failed + multiset{m});
        writers := writers[w := Settling];
      } else if act.Cancel? {
        ended := ended.(cancelled := ended.cancelled + multiset{m});
        unfinished := unfinished - 1;
        writers := writers[w := Died(None)];
      }
    }

    method ResumeSettle(w: nat, act: WriterAct)
      requires w < |writers| && writers[w].Settling?
      modifies this`writers, this`unfinished
      ensures |writers| == |old(writers)|
      ensures act.TaskDone? ==> writers[w] == Checking && unfinished == old(unfinished) - 1
      ensures View() == Do(old(View()), Turn(w, act), capacity)
    {
      if act.TaskDone? {
        unfinished := unfinished - 1;
        writers := writers[w := Checking];
      } else if act.Cancel? {
        unfinished := unfinished - 1;
        writers := writers[w := Died(None)];
      }
    }

    /** A commit leaves its row, anything else none. */
    method ResumeSaving(w: nat, act: WriterAct)
      requires w < |writers| && writers[w].Saving? && ParsesAt(accepted, writers[w].m) && RowsOf(rows, stored, accepted, ended.persisted)
      modifies this`writers, this`unfinished, this`ended, this`rows, this`stored
      ensures View() == Do(old(View()), Turn(w, act), capacity)
      ensures RowsOf(rows, stored, accepted, ended.persisted)
      ensures act.Commit? ==> |rows| == |old(rows)| + 1 && old(rows) <= rows && IsRowOf(rows[|rows| - 1], accepted[old(writers)[w].m])
      ensures !act.Commit? ==> rows == old(rows)
    {
      ghost var m, was := writers[w].m, ended.persisted;
      if act.Commit? {
        InsertRow(writers[w].m);
      }
      ResumePersist(w, act);
      assert ended.persisted == if act.Commit? then was + multiset{m} else was;
    }

    /** The event loop resumes a writer that is not at its insert. */
    method ResumeWriter(w: nat, act: WriterAct)
      requires w < |writers| && !writers[w].Saving?
      modifies this`writers, this`queue, this`unfinished, this`ended
      ensures View() == Do(old(View()), Turn(w, act), capacity) && ended.persisted == old(ended).persisted
    {
      match writers[w]
      case Checking => ResumeLoopTest(w, act);
      case Getting => ResumeGet(w, act);
      case Holding(_) => ResumeDecode(w, act);
      case Settling => ResumeSettle(w, act);
      case Left => assert writers[w := writers[w]] == writers;
      case Died(_) => assert writers[w := writers[w]] == writers;
    }

    method ResumeTurn(w: nat, act: WriterAct)
      requires w < |writers| ==> HandledByPayload(accepted, writers[w])
      requires RowsOf(rows, stored, accepted, ended.persisted)
      modifies this`writers, this`queue, this`unfinished, this`ended, this`rows, this`stored
      ensures View() == Do(old(View()), Turn(w, act), capacity) && RowsOf(rows, stored, accepted, ended.persisted)
    {
      if w < |writers| {
        if writers[w].Saving? {
          ResumeSaving(w, act);
        } else {
          ResumeWriter(w, act);
        }
      }
    }

    /** The event loop resumes one task. */
    method Resume(a: Action)
      requires Valid()
      modifies this
      ensures Valid() && View() == Do(old(View()), a, capacity)
    {
      StepByPayload(View(), a, capacity);
      RowsKept(rows, stored, accepted, Do(View(), a, capacity).accepted, ended.persisted);
      match a
      case Stop => SetStop();
      case Receive(topic, retain, raw, now) => OnMessage(topic, retain, raw, now);
      case Put => ResumePut();
      case SubscriberEnds => sub := Gone;
      case Turn(w, act) =>
        ResumeTurn(w, act);
    }

    /** Any interleaving, from the empty start: the invariant holds after it. */
    method Schedule(acts: seq<Action>, writerCount: nat)
      requires View() == Start(writerCount) && rows == [] && Valid()
      modifies this
      ensures View() == Run(Start(writerCount), acts, capacity) && Inv(View(), capacity) && Valid()
    {
      assert acts[..0] == [];
      for i := 0 to |acts|
        invariant Valid() && View() == Run(Start(writerCount), acts[..i], capacity)
      {
        Resume(acts[i]);
        assert acts[..i + 1][..i] == acts[..i];
      }
      assert acts[..|acts|] == acts;
      Conservation(writerCount, acts, capacity);
    }
  }
}
