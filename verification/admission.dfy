/** The admission scheduler of the server's parent process: how many workers
    are running (`clientes_activos`), the waiting room of accepted sockets
    (`sockets_en_espera`, `clientes_en_espera_app`), and the two events that
    move them: a new connection, and the exit of a worker (the `SIGCHLD`
    handler). A spawned worker is an abstract event; the sockets are plain
    connection ids. */
module Admission {
  import opened Wrappers

  /** Size of the waiting-room array (`MAX_CLIENTES_TOTAL`). */
  const MaxClientsTotal := 256

  /** A connected socket. */
  type ConnId = int

  /** The two limits read from the command line. */
  datatype Limits = Limits(maxActive: int, maxWaiting: int)

  /** The parent's counters; the waiting room in arrival order. */
  datatype Scheduler = Scheduler(active: int, waiting: seq<ConnId>)

  /** The first line the server writes to a new connection. */
  datatype Handshake = OkConnect | Wait | Reject

  /** The bytes written for a handshake: one line. */
  function Wire(h: Handshake): (w: string)
    ensures |w| > 1 && w[|w| - 1] == '\n'
    ensures forall i :: 0 <= i < |w| - 1 ==> w[i] != '\n'
  {
    match h
    case OkConnect => "OK_CONNECT\n"
    case Wait => "WAIT\n"
    case Reject => "REJECT\n"
  }

  /** A client tells the three answers apart by the line it reads. */
  lemma WireDistinct(a: Handshake, b: Handshake)
    ensures Wire(a) == Wire(b) <==> a == b
  {
    if a != b {
      assert Wire(a)[0] != Wire(b)[0] || |Wire(a)| != |Wire(b)|;
    }
  }

  datatype Arrival = Arrival(next: Scheduler, reply: Handshake)

  /** How many sockets the waiting room can actually hold: the configured
      limit, but never more than the array it lives in. */
  function Capacity(lim: Limits): (n: nat)
    ensures n <= MaxClientsTotal
    ensures 0 <= lim.maxWaiting <= MaxClientsTotal ==> n == lim.maxWaiting
    ensures lim.maxWaiting > MaxClientsTotal ==> n == MaxClientsTotal
  {
    if lim.maxWaiting < 0 then 0
    else if lim.maxWaiting < MaxClientsTotal then lim.maxWaiting
    else MaxClientsTotal
  }

  /** A new connection: served at once while a worker slot is free, else
      queued while the waiting room has room, else turned away. */
  function Arrive(s: Scheduler, lim: Limits, c: ConnId): (r: Arrival)
    ensures r.reply == OkConnect <==> s.active < lim.maxActive
    ensures r.reply == Wait <==> !(s.active < lim.maxActive) && |s.waiting| < Capacity(lim)
    ensures r.reply == OkConnect ==> r.next == Scheduler(s.active + 1, s.waiting)
    ensures r.reply == Wait ==> r.next == Scheduler(s.active, s.waiting + [c])
    ensures r.reply == Reject ==> r.next == s
  {
    if s.active < lim.maxActive then Arrival(Scheduler(s.active + 1, s.waiting), OkConnect)
    else if |s.waiting| < Capacity(lim) then Arrival(Scheduler(s.active, s.waiting + [c]), Wait)
    else Arrival(s, Reject)
  }

  /** The accept branch as written: the waiting room is bounded only by the
      configured limit, and the socket goes into array slot `|waiting|`. */
  function ArriveAsWritten(s: Scheduler, lim: Limits, c: ConnId): (r: (Arrival, Option<nat>))
    ensures r.0.reply == OkConnect <==> s.active < lim.maxActive
    ensures r.0.reply == Wait <==> !(s.active < lim.maxActive) && |s.waiting| < lim.maxWaiting
    ensures r.0.reply == Wait <==> r.1.Some?
    ensures r.1.Some? ==> r.1.value == |s.waiting| && r.0.next.waiting == s.waiting + [c]
  {
    if s.active < lim.maxActive then (Arrival(Scheduler(s.active + 1, s.waiting), OkConnect), None)
    else if |s.waiting| < lim.maxWaiting then (Arrival(Scheduler(s.active, s.waiting + [c]), Wait), Some(|s.waiting|))
    else (Arrival(s, Reject), None)
  }

  /** With a waiting limit of 257, the 257th queued socket is stored in slot
      256 of a 256-slot array. */
  lemma WaitingRoomOverflow()
    ensures var s := Scheduler(1, seq(MaxClientsTotal, i => i));
            var r := ArriveAsWritten(s, Limits(1, MaxClientsTotal + 1), MaxClientsTotal);
            r.0.reply == Wait && r.1 == Some(MaxClientsTotal)
  {
  }

  /** Whenever the configured limit fits the array, the capped scheduler
      does exactly what the code does. */
  lemma ArriveAgrees(s: Scheduler, lim: Limits, c: ConnId)
    requires lim.maxWaiting <= MaxClientsTotal
    ensures Arrive(s, lim, c) == ArriveAsWritten(s, lim, c).0
  {
  }

  /** The outcome of one pass of the `SIGCHLD` handler's loop. */
  datatype Exit = Exit(next: Scheduler, promoted: Option<ConnId>)

  /** A worker has been reaped: the count drops, and if anyone is waiting
      the oldest waiting socket gets `OK_CONNECT` and a worker of its own. */
  function ChildExit(s: Scheduler): (r: Exit)
    ensures |s.waiting| == 0 ==> r == Exit(Scheduler(s.active - 1, s.waiting), None)
    ensures |s.waiting| > 0 ==> r.promoted == Some(s.waiting[0])
    ensures |s.waiting| > 0 ==> r.next.active == s.active && r.next.waiting == s.waiting[1..]
  {
    var freed := s.active - 1;
    if |s.waiting| > 0 then Exit(Scheduler(freed + 1, s.waiting[1..]), Some(s.waiting[0]))
    else Exit(Scheduler(freed, s.waiting), None)
  }

  /** The shift of the waiting-room array on a promotion, with the array
      as a value: the first `count` slots are in use; the head is handed out
      and slots `1..count` move one place left. Slots from `count - 1` on are
      left as they were. */
  method Promote(slots: seq<ConnId>, count: nat) returns (head: ConnId, shifted: seq<ConnId>)
    requires 0 < count <= |slots|
    ensures head == slots[0]
    ensures |shifted| == |slots|
    ensures shifted[..count - 1] == slots[1..count]
    ensures shifted[count - 1..] == slots[count - 1..]
  {
    head := slots[0];
    shifted := slots;
    var i := 0;
    while i < count - 1
      invariant 0 <= i <= count - 1
      invariant |shifted| == |slots|
      invariant forall k :: 0 <= k < i ==> shifted[k] == slots[k + 1]
      invariant forall k :: i <= k < |slots| ==> shifted[k] == slots[k]
    {
      shifted := shifted[i := shifted[i + 1]];
      i := i + 1;
    }
    assert shifted[..count - 1] == slots[1..count];
    assert shifted[count - 1..] == slots[count - 1..];
  }

  /** The array shift and the queue of the transition system agree: the
      used slots after the shift hold exactly `waiting[1..]`. */
  lemma PromoteMatchesChildExit(s: Scheduler, slots: seq<ConnId>, shifted: seq<ConnId>)
    requires 0 < |s.waiting| <= |slots| && slots[..|s.waiting|] == s.waiting
    requires |shifted| == |slots| && shifted[..|s.waiting| - 1] == slots[1..|s.waiting|]
    ensures shifted[..|ChildExit(s).next.waiting|] == ChildExit(s).next.waiting
    ensures ChildExit(s).promoted == Some(slots[0])
  {
    assert slots[1..|s.waiting|] == s.waiting[1..];
    assert slots[0] == s.waiting[0];
  }

  // ---------------------------------------------------------------------
  // Invariant

  /** The counters stay within the limits, and nobody waits while a worker
      slot is free. */
  predicate Valid(s: Scheduler, lim: Limits) {
    && 0 <= s.active
    && (s.active <= lim.maxActive || s.active == 0)
    && |s.waiting| <= Capacity(lim)
    && (|s.waiting| > 0 ==> s.active >= lim.maxActive)
  }

  lemma InitialValid(lim: Limits)
    ensures Valid(Scheduler(0, []), lim)
  {
  }

  /** An arrival moves exactly one counter up by one, or neither, and keeps
      both within their limits. */
  lemma ArriveKeepsValid(s: Scheduler, lim: Limits, c: ConnId)
    requires Valid(s, lim)
    ensures Valid(Arrive(s, lim, c).next, lim)
    ensures var n := Arrive(s, lim, c).next;
            || (n.active == s.active + 1 && |n.waiting| == |s.waiting|)
            || (n.active == s.active && |n.waiting| == |s.waiting| + 1)
            || n == s
  {
  }

  /** The exit of a running worker keeps the invariant. */
  lemma ChildExitKeepsValid(s: Scheduler, lim: Limits)
    requires Valid(s, lim) && s.active > 0
    ensures Valid(ChildExit(s).next, lim)
  {
  }

  // ---------------------------------------------------------------------
  // Runs

  datatype Event = Connect(conn: ConnId) | ChildDone

  /** What the parent did with a connection. */
  datatype Notice = Admitted(conn: ConnId) | Queued(conn: ConnId) | Rejected(conn: ConnId) | Promoted(conn: ConnId)

  datatype Trace = Trace(last: Scheduler, log: seq<Notice>)

  /** One event. A `SIGCHLD` needs a running worker; with none it is ignored. */
  function Step(s: Scheduler, lim: Limits, e: Event): (r: Trace)
    ensures |r.log| <= 1
    ensures e.Connect? ==> |r.log| == 1 && r.log[0].conn == e.conn && !r.log[0].Promoted?
    ensures e.ChildDone? ==> forall i :: 0 <= i < |r.log| ==> r.log[i].Promoted?
  {
    match e
    case Connect(c) =>
      var a := Arrive(s, lim, c);
      Trace(a.next, [match a.reply
                     case OkConnect => Admitted(c)
                     case Wait => Queued(c)
                     case Reject => Rejected(c)])
    case ChildDone =>
      if s.active <= 0 then Trace(s, [])
      else
        var x := ChildExit(s);
        Trace(x.next, if x.promoted.Some? then [Promoted(x.promoted.value)] else [])
  }

  /** The connections that arrive in a sequence of events, in order. */
  function Connections(evs: seq<Event>): seq<ConnId> {
    if |evs| == 0 then []
    else (if evs[0].Connect? then [evs[0].conn] else []) + Connections(evs[1..])
  }

  /** The connections of the handshake notices (all but promotions), in order. */
  function HandshakeConns(log: seq<Notice>): seq<ConnId> {
    if |log| == 0 then []
    else (if log[0].Promoted? then [] else [log[0].conn]) + HandshakeConns(log[1..])
  }

  lemma {:induction false} HandshakeConnsAppend(a: seq<Notice>, b: seq<Notice>)
    ensures HandshakeConns(a + b) == HandshakeConns(a) + HandshakeConns(b)
  {
    if |a| > 0 {
      assert (a + b)[1..] == a[1..] + b;
      HandshakeConnsAppend(a[1..], b);
    } else {
      assert a + b == b;
    }
  }

  /** A connection gets exactly one handshake; a `SIGCHLD` gets none. */
  lemma HandshakeOfStep(s: Scheduler, lim: Limits, e: Event)
    ensures HandshakeConns(Step(s, lim, e).log) == if e.Connect? then [e.conn] else []
  {
    var t := Step(s, lim, e);
    if |t.log| == 1 {
      assert t.log[1..] == [];
    }
  }

  /** A sequence of events, with everything the parent did along the way:
      every connection is answered with exactly one handshake, in the order
      the connections arrived. */
  function Run(s: Scheduler, lim: Limits, evs: seq<Event>): (r: Trace)
    ensures HandshakeConns(r.log) == Connections(evs)
    ensures |r.log| <= |evs|
    decreases |evs|
  {
    if |evs| == 0 then Trace(s, [])
    else
      var t := Step(s, lim, evs[0]);
      var u := Run(t.last, lim, evs[1..]);
      HandshakeOfStep(s, lim, evs[0]);
      HandshakeConnsAppend(t.log, u.log);
      Trace(u.last, t.log + u.log)
  }

  /** The connections of the `Queued` notices, in order. */
  function QueuedConns(log: seq<Notice>): seq<ConnId> {
    if |log| == 0 then []
    else (if log[0].Queued? then [log[0].conn] else []) + QueuedConns(log[1..])
  }

  /** The connections of the `Promoted` notices, in order. */
  function PromotedConns(log: seq<Notice>): seq<ConnId> {
    if |log| == 0 then []
    else (if log[0].Promoted? then [log[0].conn] else []) + PromotedConns(log[1..])
  }

  lemma {:induction false} QueuedConnsAppend(a: seq<Notice>, b: seq<Notice>)
    ensures QueuedConns(a + b) == QueuedConns(a) + QueuedConns(b)
  {
    if |a| > 0 {
      assert (a + b)[1..] == a[1..] + b;
      QueuedConnsAppend(a[1..], b);
    } else {
      assert a + b == b;
    }
  }

  lemma {:induction false} PromotedConnsAppend(a: seq<Notice>, b: seq<Notice>)
    ensures PromotedConns(a + b) == PromotedConns(a) + PromotedConns(b)
  {
    if |a| > 0 {
      assert (a + b)[1..] == a[1..] + b;
      PromotedConnsAppend(a[1..], b);
    } else {
      assert a + b == b;
    }
  }

  /** One event keeps the queue discipline: what was waiting plus what got
      queued is what got promoted plus what is still waiting. */
  lemma StepFifo(s: Scheduler, lim: Limits, e: Event)
    ensures var t := Step(s, lim, e);
            s.waiting + QueuedConns(t.log) == PromotedConns(t.log) + t.last.waiting
  {
    var t := Step(s, lim, e);
    if |t.log| == 1 {
      assert t.log[1..] == [];
    }
    if e.ChildDone? && s.active > 0 && |s.waiting| > 0 {
      assert s.waiting == [s.waiting[0]] + s.waiting[1..];
    }
  }

  /** Two queue steps in a row compose into one. */
  lemma ChainFifo(w0: seq<ConnId>, w1: seq<ConnId>, w2: seq<ConnId>,
                  q1: seq<ConnId>, q2: seq<ConnId>, p1: seq<ConnId>, p2: seq<ConnId>)
    requires w0 + q1 == p1 + w1 && w1 + q2 == p2 + w2
    ensures w0 + (q1 + q2) == (p1 + p2) + w2
  {
    calc {
      w0 + (q1 + q2);
      (w0 + q1) + q2;
      (p1 + w1) + q2;
      p1 + (w1 + q2);
      p1 + (p2 + w2);
      (p1 + p2) + w2;
    }
  }

  /** The waiting room is first-in first-out over a whole run: the sockets
      promoted are, in order, the ones that were waiting followed by the
      ones queued, less those still waiting at the end. */
  lemma {:induction false} RunFifo(s: Scheduler, lim: Limits, evs: seq<Event>)
    ensures var r := Run(s, lim, evs);
            s.waiting + QueuedConns(r.log) == PromotedConns(r.log) + r.last.waiting
    decreases |evs|
  {
    if |evs| > 0 {
      var t := Step(s, lim, evs[0]);
      var u := Run(t.last, lim, evs[1..]);
      StepFifo(s, lim, evs[0]);
      RunFifo(t.last, lim, evs[1..]);
      QueuedConnsAppend(t.log, u.log);
      PromotedConnsAppend(t.log, u.log);
      hide Step, QueuedConns, PromotedConns;
      ChainFifo(s.waiting, t.last.waiting, u.last.waiting,
                QueuedConns(t.log), QueuedConns(u.log), PromotedConns(t.log), PromotedConns(u.log));
    }
  }

  /** Nobody jumps the queue: the promotions of a run are a prefix of the
      sockets that were waiting or got queued. */
  lemma PromotionsInOrder(s: Scheduler, lim: Limits, evs: seq<Event>)
    ensures PromotedConns(Run(s, lim, evs).log) <= s.waiting + QueuedConns(Run(s, lim, evs).log)
  {
    var r := Run(s, lim, evs);
    RunFifo(s, lim, evs);
    assert (PromotedConns(r.log) + r.last.waiting)[..|PromotedConns(r.log)|] == PromotedConns(r.log);
  }

  /** The invariant holds along every run. */
  lemma {:induction false} RunKeepsValid(s: Scheduler, lim: Limits, evs: seq<Event>)
    requires Valid(s, lim)
    ensures Valid(Run(s, lim, evs).last, lim)
    decreases |evs|
  {
    if |evs| > 0 {
      var t := Step(s, lim, evs[0]);
      match evs[0] {
        case Connect(c) => ArriveKeepsValid(s, lim, c);
        case ChildDone =>
          if s.active > 0 {
            ChildExitKeepsValid(s, lim);
          }
      }
      RunKeepsValid(t.last, lim, evs[1..]);
    }
  }

  /** One worker slot and one waiting place: the first client is served,
      the second waits, the third is turned away, and when the first
      worker ends the second is promoted. */
  lemma OneSlotOneSeat(a: ConnId, b: ConnId, c: ConnId)
    ensures Run(Scheduler(0, []), Limits(1, 1), [Connect(a), Connect(b), Connect(c), ChildDone])
         == Trace(Scheduler(1, []), [Admitted(a), Queued(b), Rejected(c), Promoted(b)])
  {
    var lim := Limits(1, 1);
    var s1 := Scheduler(1, []);
    var s2 := Scheduler(1, [b]);
    assert Step(Scheduler(0, []), lim, Connect(a)) == Trace(s1, [Admitted(a)]);
    assert Step(s1, lim, Connect(b)) == Trace(s2, [Queued(b)]);
    assert Step(s2, lim, Connect(c)) == Trace(s2, [Rejected(c)]);
    assert Step(s2, lim, ChildDone) == Trace(s1, [Promoted(b)]);
    assert Run(s2, lim, [ChildDone]) == Trace(s1, [Promoted(b)]) by {
      assert [ChildDone][1..] == [];
    }
    assert Run(s2, lim, [Connect(c), ChildDone]) == Trace(s1, [Rejected(c), Promoted(b)]) by {
      assert [Connect(c), ChildDone][1..] == [ChildDone];
    }
    assert Run(s1, lim, [Connect(b), Connect(c), ChildDone]) == Trace(s1, [Queued(b), Rejected(c), Promoted(b)]) by {
      assert [Connect(b), Connect(c), ChildDone][1..] == [Connect(c), ChildDone];
    }
    assert [Connect(a), Connect(b), Connect(c), ChildDone][1..] == [Connect(b), Connect(c), ChildDone];
  }
}
