/** What a listener sees of each connection, and what becomes of the connections, over every run of the server. */
module ServerRuns {
  import opened Seqs
  import opened ServerSpec
  import SelectLoop

  /** The events of connection `c`, in order. */
  function Trace(log: seq<Entry>, c: nat): seq<Event> {
    if log == [] then []
    else
      var last := log[|log| - 1];
      Trace(log[..|log| - 1], c) + if last.who == c then [last.event] else []
  }

  lemma {:induction false} TraceAppend(a: seq<Entry>, b: seq<Entry>, c: nat)
    ensures Trace(a + b, c) == Trace(a, c) + Trace(b, c)
  {
    if b == [] {
      assert a + b == a;
    } else {
      var (most, last) := (b[..|b| - 1], b[|b| - 1]);
      assert (a + b)[..|a + b| - 1] == a + most;
      TraceAppend(a, most, c);
      Assoc(Trace(a, c), Trace(most, c), if last.who == c then [last.event] else []);
    }
  }

  /** Connection `c` has one of the first `n` descriptors, which is ready, and does not end. */
  ghost predicate HasData(s: ServerState, p: Pass, n: int, c: nat) {
    exists i :: 0 <= i < n && i in s.table && s.table[i] == c && i in p.ready && !Closing(s, p, i)
  }

  /** What a pass that visits the first `n` descriptors tells the listener about `c`: one event at most. */
  ghost function Told(s: ServerState, p: Pass, n: int, c: nat): seq<Event> {
    if !p.listener then []
    else if Accepting(s, p) && s.fd < n && c == s.born then [Conn]
    else if Ends(s, p, n, c) then [Close]
    else if HasData(s, p, n, c) then [Data]
    else []
  }

  lemma ToldNone(s: ServerState, p: Pass, c: nat)
    requires Inv(s) && s.valid
    ensures Trace(Events(s, p, 0), c) == Told(s, p, 0, c)
  {
  }

  lemma ToldNext(s: ServerState, p: Pass, n: nat, c: nat)
    requires Inv(s) && s.valid && KernelOk(s, p)
    ensures Told(s, p, n + 1, c) == Told(s, p, n, c) + Trace(EventsAt(s, p, n), c)
  {
    hide Ledger;
    assert Ends(s, p, n + 1, c) <==> Ends(s, p, n, c) || (n in s.table && s.table[n] == c && Closing(s, p, n));
    assert HasData(s, p, n + 1, c) <==>
      HasData(s, p, n, c) || (n in s.table && s.table[n] == c && n in p.ready && !Closing(s, p, n));
    var at := EventsAt(s, p, n);
    assert at != [] ==> at[..0] == [];
  }

  lemma {:induction false} PassTrace(s: ServerState, p: Pass, n: nat, c: nat)
    requires Inv(s) && s.valid && KernelOk(s, p)
    ensures Trace(Events(s, p, n), c) == Told(s, p, n, c)
  {
    hide Told, EventsAt, Inv, KernelOk, Trace;
    if n == 0 {
      ToldNone(s, p, c);
    } else {
      PassTrace(s, p, n - 1, c);
      TraceAppend(Events(s, p, n - 1), EventsAt(s, p, n - 1), c);
      ToldNext(s, p, n - 1, c);
    }
  }

  // ---------- one pass, by what the kernel answers in it ----------

  lemma NoEvents(s: ServerState, p: Pass)
    ensures Events(s, p, 0) == []
  {
  }

  lemma NextEvents(s: ServerState, p: Pass, n: nat)
    requires Inv(s) && s.valid && KernelOk(s, p)
    ensures n in p.ready && n != s.fd ==> n in s.table
    ensures Events(s, p, n + 1) == Events(s, p, n) +
            if !p.listener || n !in p.ready then []
            else if n == s.fd then [Entry(s.born, Conn)]
            else [Entry(s.table[n], if n in p.established || n in p.readable then Data else Close)]
  {
    hide Ledger;
  }

  /** What the listener is told when the first `n` descriptors have been visited; `ds` are those that are ready. */
  ghost predicate Tells(s: ServerState, p: Pass, n: nat, ds: seq<int>, told: seq<Entry>) {
    && |told| == |ds|
    && (forall a, b :: 0 <= a < b < |ds| ==> ds[a] < ds[b])
    && (forall i :: i in ds <==> 0 <= i < n && i in p.ready)
    && forall k :: 0 <= k < |ds| ==>
         if ds[k] == s.fd then told[k] == Entry(s.born, Conn)
         else ds[k] in s.table &&
              told[k] == Entry(s.table[ds[k]], if ds[k] in p.established || ds[k] in p.readable then Data else Close)
  }

  lemma FdNotInTable(s: ServerState)
    requires Inv(s)
    ensures s.fd !in s.table
  {
  }

  lemma NoneTold(s: ServerState, p: Pass)
    ensures Tells(s, p, 0, [], [])
  {
  }

  lemma TellsNext(s: ServerState, p: Pass, n: nat, ds: seq<int>, told: seq<Entry>, e: Entry)
    requires Tells(s, p, n, ds, told)
    requires n in p.ready ==>
               if n == s.fd then e == Entry(s.born, Conn)
               else
                 n in s.table && e == Entry(s.table[n], if n in p.established || n in p.readable then Data else Close)
    ensures if n in p.ready then Tells(s, p, n + 1, ds + [n], told + [e]) else Tells(s, p, n + 1, ds, told)
  {
    assert forall a :: 0 <= a < |ds| ==> ds[a] in ds;
  }

  lemma {:induction false} EventsTell(s: ServerState, p: Pass, n: nat) returns (ds: seq<int>)
    requires Inv(s) && s.valid && KernelOk(s, p) && p.listener
    ensures Tells(s, p, n, ds, Events(s, p, n))
  {
    hide Inv, KernelOk, Events, Tells;
    if n == 0 {
      NoEvents(s, p);
      ds := [];
      NoneTold(s, p);
    } else {
      ds := EventsTell(s, p, n - 1);
      NextEvents(s, p, n - 1);
      var i := n - 1;
      var e := if i !in s.table then Entry(s.born, Conn)
               else Entry(s.table[i], if i in p.established || i in p.readable then Data else Close);
      FdNotInTable(s);
      assert Events(s, p, n) == if i in p.ready then Events(s, p, i) + [e] else Events(s, p, i);
      TellsNext(s, p, i, ds, Events(s, p, i), e);
      ds := if i in p.ready then ds + [i] else ds;
    }
  }

  lemma {:induction false} NobodyListens(s: ServerState, p: Pass, n: nat)
    requires !p.listener
    ensures Events(s, p, n) == []
  {
    if n > 0 {
      NobodyListens(s, p, n - 1);
    }
  }

  lemma ReadyIsBounded(s: ServerState, p: Pass)
    requires Inv(s) && s.valid && KernelOk(s, p)
    ensures forall i :: i in p.ready ==> 0 <= i <= s.max
  {
    hide Ledger;
  }

  /** An installed listener is called once for each ready descriptor, in ascending order: with CONN and the new
      connection for the listening one, and with DATA for any other that is established or has bytes to read, otherwise
      with CLOSE. */
  lemma PassEvents(s: ServerState, p: Pass) returns (ds: seq<int>)
    requires Inv(s) && s.valid && KernelOk(s, p)
    ensures forall a, b :: 0 <= a < b < |ds| ==> ds[a] < ds[b]
    ensures forall i :: i in ds <==> i in p.ready && p.listener
    ensures var s' := AfterPass(s, p);
            if s.fd in p.ready then
              s'.born == s.born + 1 && s'.heard == if p.listener then s.heard + {s.born} else s.heard
            else
              s'.born == s.born && s'.heard == s.heard
    ensures var log := AfterPass(s, p).log;
            && |log| == |s.log| + |ds| && log[..|s.log|] == s.log
            && forall k :: 0 <= k < |ds| ==>
                 if ds[k] == s.fd then log[|s.log| + k] == Entry(s.born, Conn)
                 else ds[k] in s.table &&
                      log[|s.log| + k] ==
                      Entry(s.table[ds[k]], if ds[k] in p.established || ds[k] in p.readable then Data else Close)
  {
    hide Inv, KernelOk, Events, NewTable, Deleted;
    ReadyIsBounded(s, p);
    if p.listener {
      MaxIsNat(s);
      ds := EventsTell(s, p, s.max + 1);
    } else {
      NobodyListens(s, p, s.max + 1);
      ds := [];
    }
  }

  lemma MaxIsNat(s: ServerState)
    ensures s.max >= 0
  {
  }

  /** What becomes of descriptor `i` in a pass. Its connection ends exactly if a listener is installed and it is ready,
      but neither established nor with bytes to read: then it is told CLOSE, deleted once, and out of the table.
      Otherwise it stays, and is told DATA if it is ready and there is a listener, and nothing if not. A new connection
      gets the descriptor that accept returned. */
  lemma PassFate(s: ServerState, p: Pass, i: int)
    requires Inv(s) && s.valid && KernelOk(s, p)
    ensures var s' := AfterPass(s, p);
            var ends := p.listener && i in p.ready && i !in p.established && i !in p.readable;
            var arrives := s.fd in p.ready && i == p.accepted;
            && (i in s'.table <==> arrives || (i in s.table && !ends))
            && (i in s'.table ==> s'.table[i] == if arrives then s.born else s.table[i])
            && (i in s.table ==>
                  var c := s.table[i];
                  && Trace(s'.log, c) == Trace(s.log, c) +
                       (if !p.listener || i !in p.ready then [] else if ends then [Close] else [Data])
                  && Count(s'.deleted, c) == (if ends then 1 else 0)
                  && (ends ==> !Live(s', c)))
  {
    hide Inv, KernelOk, AfterPass, Told, Ends, Live, Count, Trace;
    FateInTable(s, p, i);
    if i in s.table {
      FateOfConnection(s, p, i, s.table[i]);
      PassToOne(s, p, s.table[i]);
    }
  }

  lemma PassToOne(s: ServerState, p: Pass, c: nat)
    requires Inv(s) && s.valid && KernelOk(s, p) && c < s.born && Live(s, c)
    ensures var (s', ends) := (AfterPass(s, p), Ends(s, p, s.max + 1, c));
            && Trace(s'.log, c) == Trace(s.log, c) + Told(s, p, s.max + 1, c)
            && Count(s'.deleted, c) == (if ends then 1 else 0)
            && (Live(s', c) <==> !ends)
  {
    hide KernelOk, Events, Deleted, NewTable, Told, Ends, Live, Count, Trace;
    PassTrace(s, p, s.max + 1, c);
    TraceAppend(s.log, Events(s, p, s.max + 1), c);
    LiveAfterPass(s, p, c);
    PassKeepsLedger(s, p);
  }

  lemma FateInTable(s: ServerState, p: Pass, i: int)
    requires Inv(s) && s.valid && KernelOk(s, p)
    ensures var s' := AfterPass(s, p);
            var ends := p.listener && i in p.ready && i !in p.established && i !in p.readable;
            var arrives := s.fd in p.ready && i == p.accepted;
            && (i in s'.table <==> arrives || (i in s.table && !ends))
            && (i in s'.table ==> s'.table[i] == if arrives then s.born else s.table[i])
  {
    hide Ledger, Events, Deleted;
  }

  lemma FateOfConnection(s: ServerState, p: Pass, i: int, c: nat)
    requires Inv(s) && s.valid && KernelOk(s, p) && i in s.table && c == s.table[i]
    ensures var ends := p.listener && i in p.ready && i !in p.established && i !in p.readable;
            && c < s.born && Live(s, c)
            && (Ends(s, p, s.max + 1, c) <==> ends)
            && Told(s, p, s.max + 1, c) ==
                 (if !p.listener || i !in p.ready then [] else if ends then [Close] else [Data])
  {
    hide Ledger;
    assert HasData(s, p, s.max + 1, c) <==> i in p.ready && !Closing(s, p, i);
  }

  // ---------- the protocol ----------

  /** DATA* [CLOSE], and no CLOSE yet if the connection is still open. */
  predicate Tail(tr: seq<Event>, open: bool) {
    forall i :: 0 <= i < |tr| ==> tr[i] == Data || (tr[i] == Close && i == |tr| - 1 && !open)
  }

  /** CONN DATA* [CLOSE]. */
  predicate Session(tr: seq<Event>) {
    tr != [] && tr[0] == Conn && Tail(tr[1..], false)
  }

  ghost predicate TraceOf(s: ServerState, c: nat) {
    var tr := Trace(s.log, c);
    if c >= s.born then tr == []
    else if c in s.heard then tr != [] && tr[0] == Conn && Tail(tr[1..], Live(s, c))
    else Tail(tr, Live(s, c))
  }

  lemma TailMore(tr: seq<Event>, e: seq<Event>)
    requires Tail(tr, true) && (e == [] || e == [Data] || e == [Close])
    ensures Tail(tr + e, e != [Close])
  {
  }

  lemma NoOneYet(s: ServerState, p: Pass, c: nat)
    requires Inv(s) && s.valid && c >= s.born
    ensures Told(s, p, s.max + 1, c) == if p.listener && Accepting(s, p) && c == s.born then [Conn] else []
  {
  }

  lemma NoTail()
    ensures Tail([], true) && Tail([], false) && Tail([Conn][1..], true)
  {
  }

  lemma PassKeepsTrace(s: ServerState, p: Pass, c: nat)
    requires Inv(s) && s.valid && KernelOk(s, p) && TraceOf(s, c)
    ensures TraceOf(AfterPass(s, p), c)
  {
    hide Ledger, KernelOk, Tail, Events, Trace;
    var (tr, e) := (Trace(s.log, c), Told(s, p, s.max + 1, c));
    PassTrace(s, p, s.max + 1, c);
    TraceAppend(s.log, Events(s, p, s.max + 1), c);
    LiveAfterPass(s, p, c);
    if c < s.born {
      assert HasData(s, p, s.max + 1, c) ==> Live(s, c);
      if !Live(s, c) {
        assert tr + e == tr;
      } else if c in s.heard {
        TailMore(tr[1..], e);
        assert (tr + e)[1..] == tr[1..] + e;
      } else {
        TailMore(tr, e);
      }
    } else {
      NoOneYet(s, p, c);
      assert tr + e == e;
      NoTail();
    }
  }

  lemma StepKeepsTrace(s: ServerState, op: Op, c: nat)
    requires Inv(s) && Enabled(s, op) && TraceOf(s, c)
    ensures TraceOf(Apply(s, op), c)
  {
    hide Ledger, Trace, InTable;
    if op.Select? {
      PassKeepsTrace(s, op.p, c);
    }
  }

  /** Where a run of starts, passes and stops leads from a new server, if the kernel allows it. */
  function Run(ops: seq<Op>): Option<ServerState> {
    if ops == [] then Some(FRESH)
    else
      var (before, op) := (Run(ops[..|ops| - 1]), ops[|ops| - 1]);
      if before.Some? && Enabled(before.value, op) then Some(Apply(before.value, op)) else None
  }

  /** The invariant of every run. In particular, at every select the watched descriptors are the listening one and those
      in the table, and `max` bounds them. */
  lemma {:induction false} EveryRun(ops: seq<Op>, s: ServerState, c: nat)
    requires Run(ops) == Some(s)
    ensures Inv(s) && TraceOf(s, c)
  {
    hide Enabled, Apply;
    if ops != [] {
      var (before, op) := (Run(ops[..|ops| - 1]).value, ops[|ops| - 1]);
      EveryRun(ops[..|ops| - 1], before, c);
      StepKeepsInv(before, op);
      StepKeepsTrace(before, op, c);
    }
  }

  /** Every accepted connection is told to the listener as CONN DATA* [CLOSE], exactly if a listener was installed
      when it was accepted; a connection not yet accepted is not told at all. */
  lemma Protocol(ops: seq<Op>, s: ServerState, c: nat)
    requires Run(ops) == Some(s)
    ensures Session(Trace(s.log, c)) <==> c in s.heard
    ensures c >= s.born ==> Trace(s.log, c) == []
    ensures Live(s, c) && c in s.heard ==> Tail(Trace(s.log, c)[1..], true)
  {
    EveryRun(ops, s, c);
  }

  /** With a listener installed throughout, every connection is heard. */
  lemma {:induction false} AllHeard(ops: seq<Op>, s: ServerState, c: nat)
    requires Run(ops) == Some(s) && c < s.born
    requires forall op :: op in ops && op.Select? ==> op.p.listener
    ensures c in s.heard && Session(Trace(s.log, c))
  {
    hide Trace, Session;
    if ops != [] {
      var (before, op) := (Run(ops[..|ops| - 1]).value, ops[|ops| - 1]);
      if c < before.born {
        AllHeard(ops[..|ops| - 1], before, c);
      }
    }
    Protocol(ops, s, c);
  }

  /** A connection accepted in a pass gets no DATA and no CLOSE in that pass, even on a recycled descriptor. */
  lemma NewConnectionIsQuiet(ops: seq<Op>, s: ServerState, p: Pass)
    requires Run(ops) == Some(s) && Enabled(s, Select(p)) && Accepting(s, p)
    ensures var s' := Apply(s, Select(p));
            && s'.born == s.born + 1 && s'.table[p.accepted] == s.born
            && s'.heard == (if p.listener then s.heard + {s.born} else s.heard)
            && s'.max == (if p.accepted > s.max then p.accepted else s.max)
            && Trace(s'.log, s.born) == if p.listener then [Conn] else []
  {
    EveryRun(ops, s, s.born);
    PassTrace(s, p, s.max + 1, s.born);
    NoOneYet(s, p, s.born);
    TraceAppend(s.log, Events(s, p, s.max + 1), s.born);
  }

  /** Every accepted connection is deleted at most once, and has been deleted exactly if it is not in the table;
      so once the server has stopped, exactly once. */
  lemma DeletedExactlyOnce(ops: seq<Op>, s: ServerState, c: nat)
    requires Run(ops) == Some(s)
    ensures Count(s.deleted, c) == if c < s.born && !Live(s, c) then 1 else 0
    ensures !s.valid && c < s.born ==> Count(s.deleted, c) == 1
  {
    EveryRun(ops, s, c);
  }

  /** A deleted connection is never told to the listener again. */
  lemma NothingAfterDeletion(ops: seq<Op>, s: ServerState, op: Op, c: nat)
    requires Run(ops) == Some(s) && Enabled(s, op) && Count(s.deleted, c) > 0
    ensures Trace(Apply(s, op).log, c) == Trace(s.log, c) && Count(Apply(s, op).deleted, c) == Count(s.deleted, c)
  {
    EveryRun(ops, s, c);
    StepKeepsInv(s, op);
    if op.Select? {
      PassTrace(s, op.p, s.max + 1, c);
      TraceAppend(s.log, Events(s, op.p, s.max + 1), c);
      assert Ends(s, op.p, s.max + 1, c) || HasData(s, op.p, s.max + 1, c) ==> Live(s, c);
      LiveAfterPass(s, op.p, c);
    }
  }

  /** A server that has just been started is valid and watches its socket, and select may report it. */
  lemma StartWorks(fd: int, p: Pass)
    requires 0 <= fd < 1024
    requires p.ready <= {fd} && 0 <= p.accepted < 1024 && p.accepted != fd
    ensures Run([Op.Start(fd, true)]).Some?
    ensures var s := Run([Op.Start(fd, true)]).value;
            && s.valid && s.fd == fd && s.watched == {fd} && s.max == fd && s.table == map[]
            && Enabled(s, Select(p))
  {
    var ops := [Op.Start(fd, true)];
    assert ops[..0] == [];
  }

  /** Starting a server that is valid, or with a socket that does not work, makes no new server. */
  lemma StartTwice(ops: seq<Op>, s: ServerState, fd: int, ok: bool)
    requires Run(ops) == Some(s) && Enabled(s, Op.Start(fd, ok))
    ensures var s' := Apply(s, Op.Start(fd, ok));
            && (s'.valid <==> s.valid || ok)
            && (s.valid ==> s' == s)
            && (!s.valid ==> s'.fd == fd && s'.table == map[])
            && s'.log == s.log && s'.deleted == s.deleted && s'.born == s.born
  {
    EveryRun(ops, s, 0);
  }

  function Selects(ps: seq<Pass>): seq<Op> {
    seq(|ps|, i requires 0 <= i < |ps| => Select(ps[i]))
  }

  lemma SelectIsPass(s: ServerState, p: Pass)
    requires Enabled(s, Select(p))
    ensures Apply(s, Select(p)) == AfterPass(s, p)
  {
  }

  /** What TcpServer_DoWork does on a server that a run has led to continues the run: all of the above holds of it. */
  lemma {:induction false} DoWorkContinuesRun(ops: seq<Op>, s: ServerState, ps: seq<Pass>)
    requires Run(ops) == Some(s) && SelectLoop.Passes(s, ps).Some?
    ensures Run(ops + Selects(ps)) == SelectLoop.Passes(s, ps)
  {
    hide Enabled, AfterPass, Apply;
    if ps == [] {
      assert ops + Selects(ps) == ops;
    } else {
      var most := ps[..|ps| - 1];
      DoWorkContinuesRun(ops, s, most);
      var all := ops + Selects(ps);
      assert all[..|all| - 1] == ops + Selects(most);
      assert all[|all| - 1] == Select(ps[|ps| - 1]);
      SelectIsPass(SelectLoop.Passes(s, most).value, ps[|ps| - 1]);
    }
  }
}
