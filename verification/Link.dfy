/** One TCP connection from end to end: messages sent at one side, bytes in flight, and the parser at the other. */
module Link {
  import opened Seqs
  import opened Wire
  import opened Net
  import opened Receive
  import opened Parser
  import opened Client
  import Stream

  /** `sent` and `got` are histories; `wire` holds the bytes accepted by send and not yet read;
      `acc` is what the receiving parser holds. */
  datatype Link = Link(sent: seq<Msg>, wire: seq<byte>, acc: seq<byte>, got: seq<Msg>)

  /** A TcpClient_SendMsg whose bytes are all accepted, or a TcpClient_RecvMsg that takes `n` bytes. */
  datatype Op = Send(m: Msg) | Recv(n: nat)

  const IDLE := Link([], [], [], [])

  /** What the contracts of SendMsg and RecvMsg leave open: which message, and how many bytes the reads deliver. */
  predicate Enabled(l: Link, op: Op)
    requires Waiting(l.acc)
  {
    match op
    case Send(m) => Sendable(m)
    case Recv(n) => n <= |l.wire| && Surplus(l.acc, l.wire[..n], true) == []
  }

  function Apply(l: Link, op: Op): (l': Link)
    requires Waiting(l.acc) && Enabled(l, op)
    ensures Waiting(l'.acc)
  {
    match op
    case Send(m) => l.(sent := l.sent + [m], wire := l.wire + Encode(m))
    case Recv(n) =>
      var o := Take(l.acc, l.wire[..n], true);
      Link(l.sent, l.wire[n..], o.Rest(), if o.Done? then l.got + [o.msg] else l.got)
  }

  /** Where a run of sends and receives leads from an idle connection, if all its steps can happen. */
  function Run(ops: seq<Op>): (r: Option<Link>)
    ensures r.Some? ==> Waiting(r.value.acc)
  {
    if ops == [] then Some(IDLE)
    else
      var (before, op) := (Run(ops[..|ops| - 1]), ops[|ops| - 1]);
      if before.Some? && Enabled(before.value, op) then Some(Apply(before.value, op)) else None
  }

  ghost predicate AllSendable(ms: seq<Msg>) {
    forall m :: m in ms ==> Sendable(m)
  }

  /** The messages returned so far are the first of those sent, and the bytes held by the parser
      and in flight are exactly the encodings of the others. */
  ghost predicate Inv(l: Link) {
    && Waiting(l.acc)
    && AllSendable(l.sent)
    && l.got <= l.sent
    && l.acc + l.wire == EncodeAll(l.sent[|l.got|..])
  }

  lemma PrefixOfFirst(m: Msg, tail: seq<byte>, s: seq<byte>, rest: seq<byte>)
    requires HEADER_SIZE <= |s| && s + rest == Encode(m) + tail
    ensures Announced(s) == |m.payload|
    ensures |s| == |Encode(m)| ==> Parse(s) == m && rest == tail
  {
    LoadImage(Big, HeaderOf(m), m.payload + tail);
    assert Encode(m) + tail == Image(Big, HeaderOf(m)) + (m.payload + tail);
    AnnouncedPrefix(s, rest);
    if |s| == |Encode(m)| {
      assert s == (s + rest)[..|s|] == Encode(m);
      assert rest == (s + rest)[|s|..] == tail;
      LoadImage(Big, HeaderOf(m), m.payload);
      assert s[HEADER_SIZE..] == m.payload;
    }
  }

  /** What a prefix of some encodings leads to: never a rejected header, and a whole message only when
      it is the first of them. */
  lemma PrefixOfMany(ms: seq<Msg>, s: seq<byte>, rest: seq<byte>)
    requires AllSendable(ms) && s + rest == EncodeAll(ms)
    ensures HEADER_SIZE <= |s| ==> ms != [] && Announced(s) == |ms[0].payload| && Accepts(s, true)
    ensures HEADER_SIZE <= |s| == HEADER_SIZE + Announced(s) ==> Parse(s) == ms[0] && rest == EncodeAll(ms[1..])
  {
    if HEADER_SIZE <= |s| {
      var (m, tail) := (ms[0], EncodeAll(ms[1..]));
      assert Sendable(m);
      EncodeAllFirst(ms);
      PrefixOfFirst(m, tail, s, rest);
    }
  }

  lemma SendKeepsInv(l: Link, m: Msg)
    requires Inv(l) && Enabled(l, Send(m))
    ensures Inv(Apply(l, Send(m)))
  {
    var rest := l.sent[|l.got|..];
    assert (l.sent + [m])[|l.got|..] == rest + [m];
    EncodeAllAppend(rest, [m]);
    EncodeAllFirst([m]);
    assert EncodeAll([m]) == Encode(m) by { assert EncodeAll([m][1..]) == []; }
    Assoc(l.acc, l.wire, Encode(m));
  }

  lemma NoSurplus(acc: seq<byte>, a: seq<byte>)
    requires Waiting(acc) && Surplus(acc, a, true) == []
    requires HEADER_SIZE <= |acc + a| ==> Accepts(acc + a, true)
    ensures Take(acc, a, true) == More(acc + a) ||
            (&& HEADER_SIZE <= |acc + a| == HEADER_SIZE + Announced(acc + a)
             && Take(acc, a, true) == Done(Parse(acc + a)))
  {
    hide Parse, Load;
    assert (acc + a)[..|acc + a|] == acc + a;
  }

  lemma RecvKeepsInv(l: Link, n: nat)
    requires Inv(l) && Enabled(l, Recv(n))
    ensures Inv(Apply(l, Recv(n)))
  {
    hide EncodeAll, Parse, Accepts, Announced, Take, Surplus;
    var (a, b) := (l.wire[..n], l.wire[n..]);
    var rest := l.sent[|l.got|..];
    assert l.wire == a + b;
    Assoc(l.acc, a, b);
    PrefixOfMany(rest, l.acc + a, b);
    NoSurplus(l.acc, a);
    if Take(l.acc, a, true).Done? {
      assert l.sent[|l.got| + 1..] == rest[1..];
      assert [] + b == b;
    }
  }

  lemma IdleIsInv()
    ensures Inv(IDLE)
  {
  }

  lemma NothingLost(l: Link)
    requires Inv(l)
    ensures EncodeAll(l.sent) == EncodeAll(l.got) + l.acc + l.wire
  {
    EncodeAllAppend(l.got, l.sent[|l.got|..]);
    assert l.sent == l.got + l.sent[|l.got|..];
    Assoc(EncodeAll(l.got), l.acc, l.wire);
  }

  /** In every run, whatever the reads deliver, the messages returned are a prefix of the messages sent,
      in order and equal field for field, and no byte is lost or made up. */
  lemma {:induction false} EveryRun(ops: seq<Op>, l: Link)
    requires Run(ops) == Some(l)
    ensures Inv(l)
    ensures EncodeAll(l.sent) == EncodeAll(l.got) + l.acc + l.wire
    decreases |ops|
  {
    if ops == [] {
      IdleIsInv();
    } else {
      hide Inv, Apply, Enabled;
      var op := ops[|ops| - 1];
      var k := Run(ops[..|ops| - 1]).value;
      EveryRun(ops[..|ops| - 1], k);
      if op.Send? {
        SendKeepsInv(k, op.m);
      } else {
        RecvKeepsInv(k, op.n);
      }
    }
    NothingLost(l);
  }

  /** Once every byte has been read, every message has been returned. */
  lemma AllDelivered(ops: seq<Op>, l: Link)
    requires Run(ops) == Some(l) && l.wire == []
    ensures l.got == l.sent && l.acc == []
  {
    EveryRun(ops, l);
    var rest := l.sent[|l.got|..];
    assert l.acc + [] == l.acc;
    if rest != [] {
      EncodeAllFirst(rest);
      PrefixOfMany(rest, l.acc, []);
    }
  }

  /** Nothing that was sent is rejected, or overruns. */
  lemma NothingRejected(l: Link, n: nat)
    requires Inv(l) && n <= |l.wire|
    ensures var o := Take(l.acc, l.wire[..n], true); o.More? || o.Done?
  {
    hide EncodeAll;
    var (a, b) := (l.wire[..n], l.wire[n..]);
    assert l.wire == a + b;
    Assoc(l.acc, a, b);
    PrefixOfMany(l.sent[|l.got|..], l.acc + a, b);
  }

  /** A receive that may happen returns a message exactly if it takes all the bytes missing from the next one,
      and it cannot take more. */
  lemma ReturnsNext(ops: seq<Op>, l: Link, n: nat)
    requires Run(ops) == Some(l) && |l.got| < |l.sent| && n <= |l.wire|
    ensures var next := l.sent[|l.got|]; var missing := |Encode(next)| - |l.acc|;
            && 0 < missing <= |l.wire|
            && (Enabled(l, Recv(n)) <==> n <= missing)
            && (n <= missing ==>
                  Apply(l, Recv(n)).got == if n == missing then l.got + [next] else l.got)
  {
    EveryRun(ops, l);
    hide EncodeAll, Run, Take, Surplus, Parse, Accepts;
    var rest := l.sent[|l.got|..];
    var (a, b) := (l.wire[..n], l.wire[n..]);
    assert l.wire == a + b;
    Assoc(l.acc, a, b);
    EncodeAllFirst(rest);
    PrefixOfMany(rest, l.acc, l.wire);
    PrefixOfMany(rest, l.acc + a, b);
    Stream.PartOfFirst(rest[0], l.acc, a);
  }

  // ---------- the calls themselves, and their progress ----------

  /** `rs` may be the reads of a call in this state. */
  ghost predicate Receives(l: Link, rs: seq<ReadCall>)
    requires Waiting(l.acc)
  {
    Enabled(l, Recv(Got(rs))) && CallReads(l.acc, l.wire[..Got(rs)], rs, true)
  }

  /** Any call of TcpClient_RecvMsg for which memory is given is a Recv step, of as many bytes as its reads deliver. */
  method ReceiveStep(c: TcpClient, ghost l: Link) returns (ret: Message?, ghost rs: seq<ReadCall>)
    requires c.Valid() && c.fd != null && Inv(l) && l.wire == c.fd.inbox && l.acc == c.parser.Acc()
    modifies c.parser, c.parser.cache.mem, c.parser.Body(), c.fd
    ensures c.Valid() && (ret != null ==> ret.Whole())
    ensures c.fd.readLog == old(c.fd.readLog) + rs
    ensures Receives(l, rs)
    ensures Apply(l, Recv(Got(rs))) ==
            Link(l.sent, c.fd.inbox, c.parser.Acc(), if ret == null then l.got else l.got + [ret.Value()])
  {
    hide Take, Surplus, CallReads, Inv, Got;
    ret, rs := c.RecvMsg(true);
    NothingRejected(l, Got(rs));
  }

  /** A call of TcpClient_SendMsg whose bytes are all accepted is a Send step. */
  method SendStep(c: TcpClient, msg: Message, ghost l: Link) returns (ret: bool, ghost sent: int)
    requires c.fd != null && msg.Whole() && msg.mem.Length <= INT_MAX && Waiting(l.acc)
    modifies c.fd, msg.mem
    ensures msg.Whole() && msg.Value() == old(msg.Value())
    ensures c.fd.sends == old(c.fd.sends) + [SendCall(Encode(msg.Value()), sent)]
    ensures old(c.fd.outbox) <= c.fd.outbox
    ensures sent == msg.mem.Length ==>
              && ret && Enabled(l, Send(msg.Value()))
              && Apply(l, Send(msg.Value())).wire == l.wire + c.fd.outbox[|old(c.fd.outbox)|..]
  {
    hide Encode;
    ghost var m := msg.Value();
    ret, sent := c.SendMsg(msg);
    assert Encode(m)[..|Encode(m)|] == Encode(m);
  }

  /** One call after another, with the given reads, leads to `end`. */
  ghost predicate Calls(l: Link, calls: seq<seq<ReadCall>>, end: Link)
    requires Waiting(l.acc)
    decreases |calls|
  {
    if calls == [] then end == l
    else Receives(l, calls[0]) && Calls(Apply(l, Recv(Got(calls[0]))), calls[1..], end)
  }

  /** No attempt of the call gives up. */
  ghost predicate Persists(l: Link, rs: seq<ReadCall>)
    requires Waiting(l.acc) && Receives(l, rs)
  {
    !CallGaveUp(l.acc, l.wire[..Got(rs)], rs, true)
  }

  /** How many of the calls persist. */
  ghost function Persistent(l: Link, calls: seq<seq<ReadCall>>, end: Link): nat
    requires Waiting(l.acc) && Calls(l, calls, end)
    decreases |calls|
  {
    if calls == [] then 0
    else (if Persists(l, calls[0]) then 1 else 0) + Persistent(Apply(l, Recv(Got(calls[0]))), calls[1..], end)
  }

  /** A call returns a message, the next one, exactly if no attempt of it gives up. */
  lemma PersistentCallReturns(l: Link, rs: seq<ReadCall>)
    requires Inv(l) && Receives(l, rs)
    ensures var l' := Apply(l, Recv(Got(rs)));
            && Inv(l') && l'.sent == l.sent
            && (Persists(l, rs) ==> |l.got| < |l.sent|)
            && l'.got == if Persists(l, rs) then l.got + [l.sent[|l.got|]] else l.got
  {
    hide Take, Surplus, CallReads, CallGaveUp, Got, EncodeAll;
    var n := Got(rs);
    NothingRejected(l, n);
    RecvKeepsInv(l, n);
    IncompleteGaveUp(l.acc, l.wire[..n], rs, true);
  }

  /** So does, in particular, every call all of whose reads bring something when they ask for something. */
  lemma WillingCallReturns(l: Link, rs: seq<ReadCall>)
    requires Inv(l) && Receives(l, rs)
    requires forall k :: 0 <= k < |rs| && rs[k].size > 0 ==> rs[k].result > 0
    ensures |l.got| < |l.sent| && Apply(l, Recv(Got(rs))).got == l.got + [l.sent[|l.got|]]
  {
    hide Take, Surplus, CallReads, CallGaveUp, Got, EncodeAll;
    PersistentCallReturns(l, rs);
    WillingCall(l.acc, l.wire[..Got(rs)], rs, true);
    IncompleteGaveUp(l.acc, l.wire[..Got(rs)], rs, true);
  }

  /** What a call does that takes `a` of the bytes that are there: the rest of a message, and more. */
  lemma PartOfNext(m: Msg, tail: seq<byte>, acc: seq<byte>, a: seq<byte>, b: seq<byte>)
    requires Sendable(m) && Waiting(acc) && acc + (a + b) == Encode(m) + tail && Surplus(acc, a, true) == []
    ensures |acc + a| <= |Encode(m)|
    ensures Take(acc, a, true) == if |acc + a| == |Encode(m)| then Done(m) else More(acc + a)
    ensures |acc + a| == |Encode(m)| ==> b == tail
  {
    hide Take, Surplus, Encode, Parse, Load;
    Assoc(acc, a, b);
    if HEADER_SIZE <= |acc| {
      PrefixOfFirst(m, tail, acc, a + b);
    }
    if HEADER_SIZE <= |acc + a| {
      PrefixOfFirst(m, tail, acc + a, b);
    }
    Stream.PartOfFirst(m, acc, a);
  }

  /** If the rest of a message has arrived, whatever follows it, then a call all of whose reads bring something when
      they ask for something returns the message and leaves what follows; whatever its reads do, a call returns this
      message or none. */
  method ReceiveWhole(c: TcpClient, ghost m: Msg, ghost tail: seq<byte>)
    returns (ret: Message?, ghost rs: seq<ReadCall>)
    requires c.Valid() && c.fd != null && Sendable(m)
    requires c.parser.Acc() + c.fd.inbox == Encode(m) + tail
    modifies c.parser, c.parser.cache.mem, c.parser.Body(), c.fd
    ensures c.Valid() && c.fd.readLog == old(c.fd.readLog) + rs
    ensures ret != null ==> ret.Whole() && ret.Value() == m && c.fd.inbox == tail && c.parser.Acc() == []
    ensures ret == null ==> c.parser.Acc() + c.fd.inbox == Encode(m) + tail
    ensures (forall k :: 0 <= k < |rs| && rs[k].size > 0 ==> rs[k].result > 0) ==> ret != null
  {
    hide Take, Surplus, CallReads, Got, Encode, Parse;
    ghost var acc, inbox := c.parser.Acc(), c.fd.inbox;
    ret, rs := c.RecvMsg(true);
    ghost var a, b := inbox[..Got(rs)], inbox[Got(rs)..];
    assert inbox == a + b;
    PartOfNext(m, tail, acc, a, b);
    Assoc(acc, a, b);
    if Willing(rs) {
      WillingCall(acc, a, rs, true);
    }
  }

  /** The messages returned by a run of calls are as many as there are calls that persist; so all that was sent has been
      returned exactly if as many calls persisted as there were messages to come, whatever the others did. */
  lemma {:induction false} Progress(l: Link, calls: seq<seq<ReadCall>>, end: Link)
    requires Inv(l) && Calls(l, calls, end)
    ensures Inv(end) && end.sent == l.sent && |end.got| == |l.got| + Persistent(l, calls, end)
    ensures end.got == l.sent <==> Persistent(l, calls, end) == |l.sent| - |l.got|
    decreases |calls|
  {
    hide Take, Surplus, CallReads, EncodeAll, CallGaveUp, Got;
    if calls != [] {
      PersistentCallReturns(l, calls[0]);
      Progress(Apply(l, Recv(Got(calls[0]))), calls[1..], end);
    }
  }

  // ---------- datagrams ----------

  /** A datagram holding one message, whatever follows the message in it, is received as that message by a point
      that holds nothing; exactly if the message fits the buffer the datagram passes through. */
  lemma Datagram(m: Msg, junk: seq<byte>)
    requires Sendable(m)
    ensures Take([], Passed(Encode(m) + junk), true) == Done(m) <==> |Encode(m)| <= 4096
  {
    var d := Encode(m) + junk;
    var r := Passed(d);
    var rest := d[|r|..];
    assert [] + r == r && d == r + rest;
    LoadImage(Big, HeaderOf(m), m.payload + junk);
    assert d == Image(Big, HeaderOf(m)) + (m.payload + junk);
    AnnouncedPrefix(r, rest);
    if |Encode(m)| <= |r| {
      assert r[..|Encode(m)|] == Encode(m);
      LoadImage(Big, HeaderOf(m), m.payload);
    }
  }

  /** A call of UdpPoint_RecvMsg that takes a datagram returns what Returns says of it, whatever comes after. */
  method DatagramStep(p: UdpPoint, ghost rest: seq<seq<byte>>) returns (ret: Message?, ghost r: int)
    requires p.Valid()
    modifies p.parser, p.parser.cache.mem, p.parser.Body(), p.fd`queue, p.fd`readLog
    ensures r == -1 ==> ret == null && p.fd.queue == old(p.fd.queue) && p.parser.Valid() &&
                        p.parser.Acc() == old(p.parser.Acc())
    ensures r != -1 ==>
              && old(p.fd.queue) != [] && p.fd.queue == old(p.fd.queue)[1..]
              && var (acc, d) := (old(p.parser.Acc()), Passed(old(p.fd.queue)[0]));
                 Take(acc, d, true).Overrun? ||
                 (&& p.Valid() && (ret != null ==> ret.Whole())
                  && Stream.Returns(acc, [d] + rest) ==
                     [if ret == null then None else Some(ret.Value())] + Stream.Returns(p.parser.Acc(), rest))
  {
    hide Take;
    ghost var peeked;
    ret, peeked, r := p.RecvMsg(true);
    ghost var d := if old(p.fd.queue) == [] then [] else Passed(old(p.fd.queue)[0]);
    assert ([d] + rest)[1..] == rest;
  }

  /** What a point that is sent these messages, one datagram each, passes to its parser. */
  function Chunks(ms: seq<Msg>): seq<seq<byte>> {
    seq(|ms|, i requires 0 <= i < |ms| => Passed(Encode(ms[i])))
  }

  function Delivered(ms: seq<Msg>): seq<Option<Msg>> {
    seq(|ms|, i requires 0 <= i < |ms| => Some(ms[i]))
  }

  lemma NoDatagrams()
    ensures Stream.Returns([], Chunks([])) == Delivered([])
  {
  }

  lemma FirstDatagram(ms: seq<Msg>) returns (o: Outcome)
    requires ms != []
    ensures o == Take([], Passed(Encode(ms[0])), true)
    ensures Stream.Returns([], Chunks(ms)) ==
            if o.Overrun? then [] else [Stream.Returned(o)] + Stream.Returns(o.Rest(), Chunks(ms[1..]))
    ensures Delivered(ms) == [Some(ms[0])] + Delivered(ms[1..])
  {
    hide Take, Passed, Encode;
    o := Take([], Passed(Encode(ms[0])), true);
    assert Chunks(ms)[1..] == Chunks(ms[1..]);
  }

  lemma SameHeadAndTail<T>(x: T, xs: seq<T>, y: T, ys: seq<T>)
    ensures [x] + xs == [y] + ys <==> x == y && xs == ys
  {
    assert ([x] + xs)[0] == x && ([y] + ys)[0] == y && ([x] + xs)[1..] == xs && ([y] + ys)[1..] == ys;
  }

  /** What the parser holds after a datagram that does not fit: the header, and the body as far as it came. */
  lemma Cut(m: Msg)
    requires Sendable(m) && TEMP_SIZE < |Encode(m)|
    ensures var r := Passed(Encode(m));
            && Take([], r, true) == More(r) && Waiting(r)
            && Announced(r) == |m.payload|
            && r == Image(Big, HeaderOf(m)) + m.payload[..TEMP_SIZE - HEADER_SIZE]
  {
    var r := Passed(Encode(m));
    assert [] + r == r && Encode(m) == r + Encode(m)[TEMP_SIZE..];
    LoadImage(Big, HeaderOf(m), m.payload);
    AnnouncedPrefix(r, Encode(m)[TEMP_SIZE..]);
  }

  lemma Completed(m: Msg, r: seq<byte>, come: seq<byte>)
    requires Sendable(m) && TEMP_SIZE < |Encode(m)| <= TEMP_SIZE + |come|
    requires r == Image(Big, HeaderOf(m)) + m.payload[..TEMP_SIZE - HEADER_SIZE]
    ensures var s := (r + come)[..|Encode(m)|];
            && Announced(s) == |m.payload|
            && Parse(s) == m.(payload := m.payload[..TEMP_SIZE - HEADER_SIZE] + come[..|Encode(m)| - TEMP_SIZE])
  {
    var payload := m.payload[..TEMP_SIZE - HEADER_SIZE] + come[..|Encode(m)| - TEMP_SIZE];
    assert (r + come)[..|Encode(m)|] == Image(Big, HeaderOf(m)) + payload;
    LoadImage(Big, HeaderOf(m), payload);
  }

  lemma AfterFirst(r: seq<byte>, chunks: seq<seq<byte>>)
    requires Waiting(r) && Take([], r, true) == More(r)
    ensures Stream.Returns([], [r] + chunks) == [None] + Stream.Returns(r, chunks)
  {
    hide Take;
    var all := [r] + chunks;
    assert all[0] == r && all[1..] == chunks;
  }

  /** What becomes of a message that does not fit, and of the datagrams after it: they return nothing up to the one that
      brings as many bytes as are missing, which returns a message with these bytes at the end of its payload; what it
      brings beyond them is dropped, and those after it are received as by a point that holds nothing. */
  lemma Oversized(m: Msg, chunks: seq<seq<byte>>, i: nat)
    requires Sendable(m) && 4096 < |Encode(m)|
    requires i < |chunks| && Stream.Offset(chunks, i) < |Encode(m)| - 4096
    ensures var rets := Stream.Returns([], [Passed(Encode(m))] + chunks);
            var (missing, come) := (|Encode(m)| - 4096, Concat(chunks[..i + 1]));
            && i + 1 < |rets| && rets[0] == None
            && if |come| < missing then rets[i + 1] == None
               else
                 && rets[i + 1] == Some(m.(payload := m.payload[..4096 - 12] + come[..missing]))
                 && rets[i + 2..] == Stream.Returns([], chunks[i + 1..])
  {
    hide Take, Parse, Announced, Encode, Image, Stream.Returns;
    var r := Passed(Encode(m));
    Cut(m);
    hide Passed, Waiting;
    AfterFirst(r, chunks);
    var rets, later := Stream.Returns([], [r] + chunks), Stream.Returns(r, chunks);
    Stream.RestOfBody(r, chunks, i);
    var come := Concat(chunks[..i + 1]);
    if |Encode(m)| <= TEMP_SIZE + |come| {
      Completed(m, r, come);
      assert rets[i + 2..] == later[i + 1..];
    }
  }

  /** Of any number of messages sent as datagrams each is received as it arrives, exactly if all of them fit. */
  lemma {:induction false} AllDatagrams(ms: seq<Msg>)
    requires AllSendable(ms)
    ensures Stream.Returns([], Chunks(ms)) == Delivered(ms) <==> forall m :: m in ms ==> |Encode(m)| <= 4096
  {
    hide Take, Passed, Encode, Stream.Returns, Chunks, Delivered;
    if ms == [] {
      NoDatagrams();
    } else {
      var (m, rest) := (ms[0], ms[1..]);
      assert Sendable(m);
      Datagram(m, []);
      assert Encode(m) + [] == Encode(m);
      AllDatagrams(rest);
      var o := FirstDatagram(ms);
      SameHeadAndTail(Stream.Returned(o), Stream.Returns(o.Rest(), Chunks(rest)), Some(m), Delivered(rest));
      assert forall x :: x in ms <==> x == m || x in rest;
    }
  }
}
