/** The select loop of tcp_server.c over its array of clients. */
module SelectLoop {
  import opened Seqs
  import opened ServerSpec

  /** A TcpClient as the server sees it: a handle on a descriptor, numbered by order of acceptance. */
  class Connection {
    const fd: int
    ghost const serial: nat

    constructor (fd: int, ghost serial: nat)
      ensures this.fd == fd && this.serial == serial
    {
      this.fd, this.serial := fd, serial;
    }
  }

  /** Successive passes of the loop. */
  function Passes(s: ServerState, ps: seq<Pass>): Option<ServerState> {
    if ps == [] then Some(s)
    else
      var (before, p) := (Passes(s, ps[..|ps| - 1]), ps[|ps| - 1]);
      if before.Some? && Enabled(before.value, Select(p)) then Some(AfterPass(before.value, p)) else None
  }

  lemma {:induction false} PassesPrefix(s: ServerState, ps: seq<Pass>, k: nat)
    requires k <= |ps| && Passes(s, ps).Some?
    ensures Passes(s, ps[..k]).Some?
    ensures k < |ps| ==> Enabled(Passes(s, ps[..k]).value, Select(ps[k]))
                         && Passes(s, ps[..k + 1]) == Some(AfterPass(Passes(s, ps[..k]).value, ps[k]))
  {
    hide AfterPass;
    if k == |ps| {
      assert ps[..k] == ps;
    } else if k + 1 == |ps| {
      assert ps[..k + 1] == ps;
    } else {
      var most := ps[..|ps| - 1];
      PassesPrefix(s, most, k);
      assert most[..k] == ps[..k] && most[..k + 1] == ps[..k + 1];
    }
  }

  lemma {:induction false} NothingReady(s: ServerState, p: Pass, n: nat)
    requires p.ready == {}
    ensures Events(s, p, n) == [] && Deleted(s, p, n) == []
  {
    if n > 0 {
      NothingReady(s, p, n - 1);
    }
  }

  /** A select that times out changes nothing. */
  lemma IdlePass(s: ServerState, p: Pass)
    requires p.ready == {}
    ensures AfterPass(s, p) == s
  {
    NothingReady(s, p, s.max + 1);
    assert NewTable(s, p) == s.table;
    assert (set i | i in s.watched && !Closing(s, p, i)) == s.watched;
    assert s.log + [] == s.log && s.deleted + [] == s.deleted;
  }

  lemma NoneInTable(table: map<int, nat>)
    ensures InTable(table, 0) == []
  {
  }

  lemma InTableNext(table: map<int, nat>, n: nat)
    ensures InTable(table, n + 1) == InTable(table, n) + if n in table then [table[n]] else []
  {
  }

  /** What slot `j` of the client array holds once the loop has passed the descriptors below `i`. */
  ghost predicate SlotHolds(s: ServerState, p: Pass, i: int, j: int, c: Connection?) {
    if Accepting(s, p) && s.fd < i && j == p.accepted then c != null && c.fd == j && c.serial == s.born
    else if j in s.table && !(j < i && Closing(s, p, j)) then c != null && c.fd == j && c.serial == s.table[j]
    else c == null
  }

  /** The watched descriptors at that point. */
  ghost function WatchedAt(s: ServerState, p: Pass, i: int): set<int> {
    (set j | j in s.watched && !(j < i && Closing(s, p, j))) +
    if Accepting(s, p) && s.fd < i then {p.accepted} else {}
  }

  /** What passing descriptor `i` adds. */
  lemma Visit(s: ServerState, p: Pass, i: nat)
    requires Inv(s) && s.valid && KernelOk(s, p) && i <= s.max
    ensures Events(s, p, i + 1) == Events(s, p, i) + EventsAt(s, p, i)
    ensures Deleted(s, p, i + 1) == Deleted(s, p, i) + DeletedAt(s, p, i)
    ensures i < FD_SIZE
    ensures i in p.ready && i == s.fd ==>
              && 0 <= p.accepted < FD_SIZE && p.accepted != i
              && (p.accepted in s.table ==> p.accepted < i && Closing(s, p, p.accepted))
    ensures i in p.ready && i != s.fd ==> i in s.table && !(Accepting(s, p) && s.fd < i && i == p.accepted)
    ensures EventsAt(s, p, i) ==
            if !p.listener || i !in p.ready then []
            else if i == s.fd then [Entry(s.born, Conn)]
            else [Entry(s.table[i], if Closing(s, p, i) then Close else Data)]
    ensures DeletedAt(s, p, i) == if Closing(s, p, i) then [s.table[i]] else []
    ensures WatchedAt(s, p, i + 1) ==
            if i in p.ready && i == s.fd then WatchedAt(s, p, i) + {p.accepted}
            else if Closing(s, p, i) then WatchedAt(s, p, i) - {i}
            else WatchedAt(s, p, i)
  {
    hide Ledger;
  }

  lemma StartOfPass(s: ServerState, p: Pass)
    requires Inv(s) && s.valid
    ensures Events(s, p, 0) == [] && Deleted(s, p, 0) == []
    ensures WatchedAt(s, p, 0) == s.watched
    ensures forall j :: j in s.table ==> s.table[j] < s.born
    ensures 0 <= s.fd <= s.max
  {
  }

  lemma EndOfPass(s: ServerState, p: Pass)
    requires Inv(s) && s.valid && KernelOk(s, p)
    ensures WatchedAt(s, p, s.max + 1) == AfterPass(s, p).watched
  {
  }

  class TcpServer {
    var fd: int
    var valid: bool
    /** Whether a listener is installed. */
    var cb: bool
    const client: array<Connection?>

    ghost var born: nat
    ghost var heard: set<nat>
    ghost var log: seq<Entry>
    ghost var deleted: seq<nat>

    ghost predicate Slots()
      reads this, client
    {
      client.Length == FD_SIZE &&
      forall j :: 0 <= j < FD_SIZE && client[j] != null ==> client[j].fd == j
    }

    ghost function Table(): map<int, nat>
      requires client.Length == FD_SIZE
      reads this, client
    {
      map j | 0 <= j < FD_SIZE && client[j] != null :: client[j].serial
    }

    /** The abstract state, given the loop's own variables. */
    ghost function View(watched: set<int>, max: nat): ServerState
      requires client.Length == FD_SIZE
      reads this, client
    {
      ServerState(valid, fd, Table(), watched, max, born, heard, log, deleted)
    }

    /** TcpServer_New. */
    constructor ()
      ensures Slots() && View({}, 0) == FRESH && fresh(client) && !cb
      ensures !valid && fd == -1 && client.Length == 1024 && forall j :: 0 <= j < 1024 ==> client[j] == null
    {
      fd, valid, cb := -1, false, false;
      client := new Connection?[FD_SIZE];
      born, heard, log, deleted := 0, {}, [], [];
      new;
      for i := 0 to FD_SIZE
        invariant forall j :: 0 <= j < i ==> client[j] == null
        invariant View({}, 0).(table := map[]) == FRESH && !cb && !valid && fd == -1
      {
        client[i] := null;
      }
    }

    /** TcpServer_Start: `socket` is the new socket, and `ok` whether it could be made, bound and listened on. */
    method Start(socket: int, ok: bool) returns (ret: bool)
      requires Slots() && (ok ==> 0 <= socket < FD_SIZE)
      modifies this`fd, this`valid
      ensures Slots() && ret == valid && (ret <==> old(valid) || ok)
      ensures fd == if old(valid) then old(fd) else socket
      ensures View({socket}, if ok then socket else 0) ==
              Apply(old(View({socket}, if ok then socket else 0)), Op.Start(socket, ok))
    {
      if !valid {
        fd := socket;
        valid := ok;
      }
      ret := valid;
    }

    /** TcpServer_SetListener. */
    method SetListener(installed: bool)
      modifies this`cb
      ensures cb == installed
    {
      cb := installed;
    }

    /** Calling the listener. */
    ghost method Tell(c: Connection, event: Event)
      modifies this`log
      ensures log == old(log) + [Entry(c.serial, event)]
    {
      log := log + [Entry(c.serial, event)];
    }

    /** TcpClient_Del. */
    ghost method Delete(c: Connection?)
      modifies this`deleted
      ensures deleted == old(deleted) + if c == null then [] else [c.serial]
    {
      if c != null {
        deleted := deleted + [c.serial];
      }
    }

    /** The part of SelectHandler under `if( s->cb )`. */
    method Notify(p: Pass, index: nat, event: Event, watched: set<int>) returns (watched': set<int>)
      requires Slots() && index < FD_SIZE
      modifies this`log, this`deleted, client
      ensures var c := old(client[index]);
              var stays := c != null && (event == Conn || index in p.established || index in p.readable);
              && (forall j :: 0 <= j < FD_SIZE && j != index ==> client[j] == old(client[j]))
              && client[index] == (if stays then c else null)
              && watched' == (if stays then watched else watched - {index})
              && log == old(log) + (if c == null then [] else [Entry(c.serial, if stays then event else Close)])
              && deleted == old(deleted) + (if c == null || stays then [] else [c.serial])
    {
      var c := client[index];
      watched' := watched;
      if c != null && (index in p.established || event == Conn || index in p.readable) {
        Tell(c, event);
      } else {
        if c != null {
          Tell(c, Close);
        }
        Delete(c);
        client[index] := null;
        watched' := watched' - {index};
      }
    }

    /** The state of the loop of SelectHandler once it has passed the descriptors below `i`. */
    ghost predicate At(s: ServerState, p: Pass, i: int, watched: set<int>, ret: nat)
      reads this, client
    {
      var accepted := Accepting(s, p) && fd < i;
      && valid && fd == s.fd && cb == p.listener && client.Length == FD_SIZE && i >= 0
      && (forall j :: 0 <= j < FD_SIZE ==> SlotHolds(s, p, i, j, client[j]))
      && watched == WatchedAt(s, p, i)
      && ret == (if accepted && p.accepted > s.max then p.accepted else s.max)
      && born == (if accepted then s.born + 1 else s.born)
      && heard == (if accepted && cb then s.heard + {s.born} else s.heard)
      && log == s.log + Events(s, p, i) && deleted == s.deleted + Deleted(s, p, i)
    }

    /** The body of that loop, for a descriptor that is ready. */
    method Serve(p: Pass, i: nat, max: nat, watched: set<int>, ret: nat, ghost s: ServerState)
      returns (ret': nat, watched': set<int>)
      requires Inv(s) && s.valid && KernelOk(s, p) && i <= max == s.max && i in p.ready
      requires At(s, p, i, watched, ret)
      modifies this`born, this`heard, this`log, this`deleted, client
      ensures At(s, p, i + 1, watched', ret')
    {
      hide Inv, KernelOk, Events, Deleted, EventsAt, DeletedAt, WatchedAt, NewTable;
      StartOfPass(s, p);
      Visit(s, p, i);
      ret', watched' := ret, watched;
      var index, event := i, Data;
      if index == fd {
        index := p.accepted;
        watched' := watched' + {index};
        ret' := if index > max then index else max;
        client[index] := new Connection(index, born);
        event := Conn;
        heard := if cb then heard + {born} else heard;
        born := born + 1;
      }
      if cb {
        watched' := Notify(p, index, event, watched');
      }
    }

    lemma NotReady(s: ServerState, p: Pass, i: nat, watched: set<int>, ret: nat)
      requires Inv(s) && s.valid && KernelOk(s, p) && i <= s.max && i !in p.ready
      requires At(s, p, i, watched, ret)
      ensures At(s, p, i + 1, watched, ret)
    {
      hide Inv, KernelOk, Events, Deleted, EventsAt, DeletedAt, WatchedAt, NewTable;
      StartOfPass(s, p);
      Visit(s, p, i);
    }

    lemma FinalTable(s: ServerState, p: Pass)
      requires client.Length == FD_SIZE && Inv(s) && KernelOk(s, p)
      requires s.valid
      requires forall j :: 0 <= j < FD_SIZE ==> SlotHolds(s, p, s.max + 1, j, client[j])
      ensures Table() == NewTable(s, p)
    {
      hide Ledger;
    }

    lemma AtStart(s: ServerState, p: Pass, watched: set<int>, max: nat)
      requires Slots() && cb == p.listener && s == View(watched, max) && Inv(s) && s.valid
      ensures At(s, p, 0, watched, max)
    {
      hide Ledger;
      StartOfPass(s, p);
    }

    lemma AtEnd(s: ServerState, p: Pass, watched: set<int>, ret: nat)
      requires Inv(s) && s.valid && KernelOk(s, p) && At(s, p, s.max + 1, watched, ret)
      ensures Slots() && View(watched, ret) == AfterPass(s, p)
    {
      hide Ledger, Events, Deleted, WatchedAt, NewTable;
      StartOfPass(s, p);
      FinalTable(s, p);
      EndOfPass(s, p);
    }

    /** SelectHandler: `p.ready` is the snapshot of ready descriptors. */
    method SelectHandler(p: Pass, watched: set<int>, max: nat) returns (ret: nat, watched': set<int>)
      requires Slots() && cb == p.listener
      requires Inv(View(watched, max)) && Enabled(View(watched, max), Select(p))
      modifies this, client
      ensures Slots() && cb == old(cb)
      ensures View(watched', ret) == AfterPass(old(View(watched, max)), p)
    {
      hide Inv, KernelOk, Events, Deleted, WatchedAt, NewTable, TcpServer.At;
      ghost var s := View(watched, max);
      assert KernelOk(s, p);
      ret, watched' := max, watched;
      AtStart(s, p, watched, max);
      for i := 0 to max + 1
        invariant fd == s.fd && cb == p.listener
        invariant At(s, p, i, watched', ret)
      {
        if i in p.ready {
          ret, watched' := Serve(p, i, max, watched', ret, s);
        } else {
          NotReady(s, p, i, watched', ret);
        }
      }
      AtEnd(s, p, watched', ret);
    }

    /** TcpServer_DoWork: one element of `ps` for each return of select, until another thread clears `valid`.
        The watched descriptors and their bound are the loop's own variables. */
    method DoWork(ps: seq<Pass>) returns (ghost watched: set<int>, ghost max: nat)
      requires Slots() && (valid ==> 0 <= fd)
      requires valid ==> Inv(View({fd}, fd)) && Passes(View({fd}, fd), ps).Some?
      modifies this, client
      ensures Slots()
      ensures old(valid) ==> Passes(old(View({fd}, fd)), ps) == Some(View(watched, max))
      ensures !old(valid) ==> unchanged(this) && unchanged(client)
    {
      hide AfterPass, Inv;
      watched, max := {}, 0;
      if valid {
        ghost var s := View({fd}, fd);
        var watched': set<int>, max': nat := {fd}, fd;
        for k := 0 to |ps|
          invariant Slots() && Inv(View(watched', max'))
          invariant Passes(s, ps[..k]) == Some(View(watched', max'))
        {
          PassesPrefix(s, ps, k);
          ghost var before := View(watched', max');
          StepKeepsInv(before, Select(ps[k]));
          SetListener(ps[k].listener);
          assert View(watched', max') == before by { assert Table() == before.table; }
          if ps[k].ready != {} {
            max', watched' := SelectHandler(ps[k], watched', max');
          } else {
            IdlePass(before, ps[k]);
          }
        }
        assert ps[..|ps|] == ps;
        watched, max := watched', max';
      }
    }

    /** TcpServer_Stop; the last loop's variables are gone, whatever they were. */
    method Stop(ghost watched: set<int>, ghost max: nat)
      requires Slots()
      modifies this, client
      ensures Slots() && cb == old(cb) && !valid
      ensures View(watched, max) == Apply(old(View(watched, max)), Op.Stop)
      ensures forall j :: 0 <= j < 1024 ==> client[j] == null
    {
      hide InTable;
      ghost var table := Table();
      valid := false;
      assert InTable(table, 0) == [] by { NoneInTable(table); }
      for i := 0 to FD_SIZE
        invariant !valid && fd == old(fd) && cb == old(cb)
        invariant born == old(born) && heard == old(heard) && log == old(log)
        invariant forall j :: i <= j < FD_SIZE ==> client[j] == old(client[j])
        invariant forall j :: 0 <= j < i ==> client[j] == null
        invariant deleted == old(deleted) + InTable(table, i)
      {
        InTableNext(table, i);
        Delete(client[i]);
        client[i] := null;
      }
    }
  }
}
