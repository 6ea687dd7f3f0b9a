/** The connection table of tcp_server.c as a state machine. One step is one pass of the select loop,
    described by the table as it was when the pass began. */
module ServerSpec {
  const FD_SIZE: nat := 1024

  datatype Event = Conn | Data | Close

  /** An event delivered to the listener. Connections are numbered in the order they are accepted. */
  datatype Entry = Entry(who: nat, event: Event)

  /** `table` maps descriptors to connections. `heard` holds the connections accepted while a listener
      was installed; `log` and `deleted` are what the listener and TcpClient_Del have seen. */
  datatype ServerState = ServerState(valid: bool, fd: int, table: map<int, nat>, watched: set<int>, max: nat,
                           born: nat, heard: set<nat>, log: seq<Entry>, deleted: seq<nat>)

  const FRESH := ServerState(false, -1, map[], {}, 0, 0, {}, [], [])

  /** What the kernel answers during one pass: the ready descriptors, the descriptor accept returns, and for which
      descriptors TcpClient_IsValid holds and TcpClient_Available is positive. And whether a listener is installed. */
  datatype Pass = Pass(ready: set<int>, accepted: int, established: set<int>, readable: set<int>, listener: bool)

  datatype Op = Start(fd: int, ok: bool) | Select(p: Pass) | Stop

  predicate Accepting(s: ServerState, p: Pass) {
    s.fd in p.ready
  }

  /** The descriptors whose connections end in this pass. */
  predicate Closing(s: ServerState, p: Pass, i: int) {
    p.listener && i in p.ready && i != s.fd && i !in p.established && i !in p.readable
  }

  /** select reports only watched descriptors; accept returns a descriptor that is not open at that moment,
      so one that was closed earlier in the same pass may come back. */
  predicate KernelOk(s: ServerState, p: Pass) {
    && p.ready <= s.watched
    && (Accepting(s, p) ==>
          && 0 <= p.accepted < FD_SIZE && p.accepted != s.fd
          && (p.accepted in s.table ==>
                && p.accepted < s.fd && p.listener && p.accepted in p.ready
                && p.accepted !in p.established && p.accepted !in p.readable))
  }

  function EventsAt(s: ServerState, p: Pass, i: int): seq<Entry> {
    if !p.listener || i !in p.ready then []
    else if i == s.fd then [Entry(s.born, Conn)]
    else if i !in s.table then []
    else [Entry(s.table[i], if Closing(s, p, i) then Close else Data)]
  }

  function DeletedAt(s: ServerState, p: Pass, i: int): seq<nat> {
    if Closing(s, p, i) && i in s.table then [s.table[i]] else []
  }

  function Events(s: ServerState, p: Pass, n: nat): seq<Entry> {
    if n == 0 then [] else Events(s, p, n - 1) + EventsAt(s, p, n - 1)
  }

  function Deleted(s: ServerState, p: Pass, n: nat): seq<nat> {
    if n == 0 then [] else Deleted(s, p, n - 1) + DeletedAt(s, p, n - 1)
  }

  /** The table without the connections that end, and with the new one. */
  function NewTable(s: ServerState, p: Pass): map<int, nat> {
    var kept := map i | i in s.table && !Closing(s, p, i) :: s.table[i];
    if Accepting(s, p) then kept[p.accepted := s.born] else kept
  }

  function AfterPass(s: ServerState, p: Pass): ServerState {
    var accepts := Accepting(s, p);
    s.(table := NewTable(s, p),
       watched := (set i | i in s.watched && !Closing(s, p, i)) + if accepts then {p.accepted} else {},
       max := if accepts && p.accepted > s.max then p.accepted else s.max,
       born := if accepts then s.born + 1 else s.born,
       heard := if accepts && p.listener then s.heard + {s.born} else s.heard,
       log := s.log + Events(s, p, s.max + 1),
       deleted := s.deleted + Deleted(s, p, s.max + 1))
  }

  /** The connections in the table, by descriptor. */
  function InTable(table: map<int, nat>, n: nat): seq<nat> {
    if n == 0 then []
    else InTable(table, n - 1) + if n - 1 in table then [table[n - 1]] else []
  }

  predicate Enabled(s: ServerState, op: Op) {
    match op
    case Start(fd, ok) => ok ==> 0 <= fd < FD_SIZE
    case Select(p) => s.valid && KernelOk(s, p)
    case Stop => true
  }

  function Apply(s: ServerState, op: Op): ServerState
    requires Enabled(s, op)
  {
    match op
    case Start(fd, ok) =>
      if s.valid then s
      else if ok then s.(valid := true, fd := fd, watched := {fd}, max := fd)
      else s.(fd := fd)
    case Select(p) => AfterPass(s, p)
    case Stop =>
      s.(valid := false, table := map[], deleted := s.deleted + InTable(s.table, FD_SIZE))
  }

  // ---------- the table ----------

  ghost predicate Inv(s: ServerState) {
    && (s.valid ==> 0 <= s.fd <= s.max < FD_SIZE)
    && (!s.valid ==> s.table == map[])
    && s.fd !in s.table
    && (s.valid ==> s.watched == {s.fd} + s.table.Keys)
    && (forall i :: i in s.table ==> 0 <= i <= s.max && s.table[i] < s.born)
    && (forall i, j :: i in s.table && j in s.table && s.table[i] == s.table[j] ==> i == j)
    && (forall c :: c in s.heard ==> c < s.born)
    && Ledger(s)
  }

  predicate Live(s: ServerState, c: nat) {
    exists i :: i in s.table && s.table[i] == c
  }

  function Count(xs: seq<nat>, c: nat): nat {
    multiset(xs)[c]
  }

  /** Every accepted connection is either in the table or has been deleted, once. */
  ghost predicate Ledger(s: ServerState) {
    forall c: nat :: Count(s.deleted, c) == if c < s.born && !Live(s, c) then 1 else 0
  }

  /** Connection `c` has one of the first `n` descriptors. */
  ghost predicate Among(s: ServerState, n: int, c: nat) {
    exists i :: 0 <= i < n && i in s.table && s.table[i] == c
  }

  /** ... and ends in this pass. */
  ghost predicate Ends(s: ServerState, p: Pass, n: int, c: nat) {
    exists i :: 0 <= i < n && i in s.table && s.table[i] == c && Closing(s, p, i)
  }

  lemma NoneEnds(s: ServerState, p: Pass, c: nat)
    ensures !Ends(s, p, 0, c)
  {
  }

  lemma EndsNext(s: ServerState, p: Pass, n: nat, c: nat)
    requires Inv(s)
    ensures var now := n in s.table && s.table[n] == c && Closing(s, p, n);
            && (Ends(s, p, n + 1, c) <==> Ends(s, p, n, c) || now)
            && !(Ends(s, p, n, c) && now)
            && Count(DeletedAt(s, p, n), c) == if now then 1 else 0
  {
    hide Ledger;
  }

  /** A pass deletes a connection at most once, and only if it ends. */
  lemma {:induction false} DeletedOnce(s: ServerState, p: Pass, n: nat, c: nat)
    requires Inv(s)
    ensures Count(Deleted(s, p, n), c) == if Ends(s, p, n, c) then 1 else 0
  {
    hide Inv, Ends, Closing, DeletedAt;
    if n == 0 {
      NoneEnds(s, p, c);
    } else {
      DeletedOnce(s, p, n - 1, c);
      EndsNext(s, p, n - 1, c);
    }
  }

  lemma {:induction false} InTableOnce(s: ServerState, n: nat, c: nat)
    requires Inv(s)
    ensures Count(InTable(s.table, n), c) == if Among(s, n, c) then 1 else 0
  {
    hide Ledger;
    if n > 0 {
      InTableOnce(s, n - 1, c);
    }
  }

  lemma PassKeepsTable(s: ServerState, p: Pass)
    requires Inv(s) && s.valid && KernelOk(s, p)
    ensures var s' := AfterPass(s, p);
            && s'.fd <= s'.max < FD_SIZE && s'.fd !in s'.table
            && s'.watched == {s'.fd} + s'.table.Keys
            && (forall i :: i in s'.table ==> 0 <= i <= s'.max && s'.table[i] < s'.born)
            && (forall i, j :: i in s'.table && j in s'.table && s'.table[i] == s'.table[j] ==> i == j)
  {
  }

  lemma LiveAfterPass(s: ServerState, p: Pass, c: nat)
    requires Inv(s) && s.valid && KernelOk(s, p)
    ensures Live(AfterPass(s, p), c) <==>
              (Live(s, c) && !Ends(s, p, s.max + 1, c)) || (Accepting(s, p) && c == s.born)
    ensures Ends(s, p, s.max + 1, c) ==> Live(s, c)
  {
    hide Ledger;
    var s' := AfterPass(s, p);
    if i :| i in s.table && s.table[i] == c {
      assert !Closing(s, p, i) ==> i in s'.table && s'.table[i] == c;
    }
    if Accepting(s, p) {
      assert p.accepted in s'.table && s'.table[p.accepted] == s.born;
    }
  }

  lemma CountAppend(a: seq<nat>, b: seq<nat>, c: nat)
    ensures Count(a + b, c) == Count(a, c) + Count(b, c)
  {
  }

  lemma LiveIsBorn(s: ServerState, c: nat)
    requires Inv(s) && Live(s, c)
    ensures c < s.born
  {
  }

  lemma PassKeepsLedger(s: ServerState, p: Pass)
    requires Inv(s) && s.valid && KernelOk(s, p)
    ensures Ledger(AfterPass(s, p))
  {
    hide NewTable, Events, Deleted, Live, Ends, Closing, KernelOk, Count;
    var s' := AfterPass(s, p);
    forall c: nat
      ensures Count(s'.deleted, c) == if c < s'.born && !Live(s', c) then 1 else 0
    {
      CountAppend(s.deleted, Deleted(s, p, s.max + 1), c);
      DeletedOnce(s, p, s.max + 1, c);
      LiveAfterPass(s, p, c);
      assert Live(s, c) ==> c < s.born by {
        if Live(s, c) {
          LiveIsBorn(s, c);
        }
      }
    }
  }

  lemma StopKeepsLedger(s: ServerState)
    requires Inv(s)
    ensures Ledger(Apply(s, Stop))
  {
    hide InTable;
    var s' := Apply(s, Stop);
    assert forall c: nat :: Live(s, c) ==> Among(s, FD_SIZE, c);
    forall c: nat
      ensures Count(s'.deleted, c) == if c < s'.born && !Live(s', c) then 1 else 0
    {
      InTableOnce(s, FD_SIZE, c);
    }
  }

  lemma StartKeepsLedger(s: ServerState, op: Op)
    requires Inv(s) && op.Start? && Enabled(s, op)
    ensures Ledger(Apply(s, op))
  {
  }

  lemma StepKeepsInv(s: ServerState, op: Op)
    requires Inv(s) && Enabled(s, op)
    ensures Inv(Apply(s, op))
  {
    hide Ledger;
    match op
    case Start(_, _) =>
      StartKeepsLedger(s, op);
    case Select(p) =>
      PassKeepsTable(s, p);
      PassKeepsLedger(s, p);
    case Stop =>
      StopKeepsLedger(s);
  }
}
