/** Whole runs of the parser: any cutting of the bytes, and any mixture of calls. */
module Stream {
  import opened Seqs
  import opened Wire
  import opened Net
  import opened Receive
  import opened Parser

  // ---------- every cutting of one message ----------

  /** What successive MParser_ReadMem calls return for the given chunks, as long as none overruns. */
  function Returns(acc: seq<byte>, chunks: seq<seq<byte>>): (rets: seq<Option<Msg>>)
    requires Waiting(acc)
    ensures |rets| <= |chunks|
    decreases |chunks|
  {
    if chunks == [] then []
    else
      var o := Take(acc, chunks[0], true);
      if o.Overrun? then [] else [Returned(o)] + Returns(o.Rest(), chunks[1..])
  }

  function Returned(o: Outcome): Option<Msg> {
    if o.Done? then Some(o.msg) else None
  }

  /** Where chunk `i` starts. */
  function Offset(chunks: seq<seq<byte>>, i: nat): nat
    requires i <= |chunks|
  {
    |Concat(chunks[..i])|
  }

  lemma OffsetNext(chunks: seq<seq<byte>>, i: nat)
    requires i < |chunks|
    ensures Offset(chunks, 0) == Offset(chunks[1..], 0) == 0
    ensures Offset(chunks, i + 1) == |chunks[0]| + Offset(chunks[1..], i)
  {
    assert chunks[..0] == [] && chunks[1..][..0] == [];
    assert chunks[..i + 1] == [chunks[0]] + chunks[1..][..i];
  }

  lemma ConcatNext(chunks: seq<seq<byte>>, i: nat)
    requires i < |chunks|
    ensures Concat(chunks[..i + 1]) == chunks[0] + Concat(chunks[1..][..i])
    ensures i == 0 ==> Concat(chunks[..i + 1]) == chunks[0]
    ensures |Concat(chunks[..i + 1])| == Offset(chunks, i + 1)
  {
    assert chunks[..i + 1][1..] == chunks[1..][..i];
  }

  lemma {:induction false} EmptyChunks(chunks: seq<seq<byte>>, i: nat)
    requires Concat(chunks) == [] && i < |chunks|
    ensures i < |Returns([], chunks)| && Returns([], chunks)[i] == None
  {
    assert chunks[0] == [];
    assert [] + chunks[0] == [];
    if i > 0 {
      EmptyChunks(chunks[1..], i - 1);
    }
  }

  /** What a prefix of one encoding leads to. */
  lemma PartOfOne(m: Msg, s: seq<byte>, rest: seq<byte>)
    requires |m.payload| <= INT_MAX && s + rest == Encode(m)
    ensures HEADER_SIZE <= |s| ==> Announced(s) == |m.payload| && Accepts(s, true)
    ensures |s| < |Encode(m)| <==> Waiting(s)
    ensures |s| == |Encode(m)| ==> Parse(s) == m
  {
    LoadImage(Big, HeaderOf(m), m.payload);
    if HEADER_SIZE <= |s| {
      AnnouncedPrefix(s, rest);
    }
    if rest == [] {
      assert s == Encode(m);
      assert s[HEADER_SIZE..] == m.payload;
    }
  }

  /** What bytes of one message, or of it and more, lead to. */
  lemma PartOfFirst(m: Msg, acc: seq<byte>, a: seq<byte>)
    requires Waiting(acc)
    requires HEADER_SIZE <= |acc| ==> Announced(acc) == |m.payload|
    requires HEADER_SIZE <= |acc + a| ==> Announced(acc + a) == |m.payload| && Accepts(acc + a, true)
    requires |acc + a| == |Encode(m)| ==> Parse(acc + a) == m
    ensures |acc| < |Encode(m)|
    ensures Surplus(acc, a, true) == [] <==> |acc + a| <= |Encode(m)|
    ensures |acc + a| <= |Encode(m)| ==>
              Take(acc, a, true) == if |acc + a| == |Encode(m)| then Done(m) else More(acc + a)
  {
    assert (acc + a)[..|acc + a|] == acc + a;
  }

  /** However an encoding is cut, empty chunks and cuts inside the header included, the call that gets its last byte
      returns the message, and no other call returns anything. `acc` is what was read before. */
  lemma {:induction false} AnyCutting(m: Msg, acc: seq<byte>, chunks: seq<seq<byte>>, i: nat)
    requires |m.payload| <= INT_MAX && acc + Concat(chunks) == Encode(m) && |acc| < |Encode(m)|
    requires i < |chunks|
    ensures Waiting(acc) && i < |Returns(acc, chunks)|
    ensures Returns(acc, chunks)[i] ==
            if |acc| + Offset(chunks, i) < |Encode(m)| == |acc| + Offset(chunks, i + 1) then Some(m) else None
    decreases |chunks|
  {
    hide Take, Waiting, Accepts, Announced, Parse, Encode, Offset;
    var (c, rest) := (chunks[0], chunks[1..]);
    Assoc(acc, c, Concat(rest));
    PartOfOne(m, acc, c + Concat(rest));
    PartOfOne(m, acc + c, Concat(rest));
    OffsetNext(chunks, i);
    PartOfFirst(m, acc, c);
    if i > 0 {
      OffsetNext(chunks, i - 1);
      if |acc + c| < |Encode(m)| {
        AnyCutting(m, acc + c, rest, i - 1);
      } else {
        EmptyChunks(rest, i - 1);
      }
    }
  }

  /** The chunk brings some or all of a body, or more. */
  lemma BodyStep(acc: seq<byte>, chunk: seq<byte>)
    requires Waiting(acc) && HEADER_SIZE <= |acc|
    ensures var size := HEADER_SIZE + Announced(acc);
            && Announced(acc + chunk) == Announced(acc)
            && (|acc + chunk| < size ==>
                  Take(acc, chunk, true) == More(acc + chunk) && Waiting(acc + chunk))
            && (size <= |acc + chunk| ==>
                  Announced((acc + chunk)[..size]) == Announced(acc) &&
                  Take(acc, chunk, true) == Done(Parse((acc + chunk)[..size])))
  {
    AnnouncedPrefix(acc, chunk);
    var size := HEADER_SIZE + Announced(acc);
    if size <= |acc + chunk| {
      var s := acc + chunk;
      assert s == s[..size] + s[size..];
      AnnouncedPrefix(s[..size], s[size..]);
    }
  }

  /** What a parser in the middle of a body returns for the following chunks, whatever they are: nothing up to the one
      that brings the last byte missing, for that one the header's message with these bytes for the rest of its body,
      and after it what a parser that holds nothing returns, the surplus being dropped. */
  lemma {:induction false} RestOfBody(acc: seq<byte>, chunks: seq<seq<byte>>, i: nat)
    requires Waiting(acc) && HEADER_SIZE <= |acc| && i < |chunks|
    requires |acc| + Offset(chunks, i) < HEADER_SIZE + Announced(acc)
    ensures var (size, s) := (HEADER_SIZE + Announced(acc), acc + Concat(chunks[..i + 1]));
            && i < |Returns(acc, chunks)|
            && |s| == |acc| + Offset(chunks, i + 1)
            && if |s| < size then Returns(acc, chunks)[i] == None
               else
                 && Announced(s[..size]) == Announced(acc)
                 && Returns(acc, chunks)[i] == Some(Parse(s[..size]))
                 && Returns(acc, chunks)[i + 1..] == Returns([], chunks[i + 1..])
    decreases |chunks|
  {
    hide Take, Waiting, Parse, Announced, Offset, Concat;
    var (c, rest) := (chunks[0], chunks[1..]);
    OffsetNext(chunks, i);
    BodyStep(acc, c);
    ConcatNext(chunks, i);
    if i > 0 {
      OffsetNext(chunks, i - 1);
      RestOfBody(acc + c, rest, i - 1);
      Assoc(acc, c, Concat(rest[..i]));
      assert chunks[i + 1..] == rest[i..];
    }
  }

  // ---------- every run ----------

  /** A call of MParser_ReadMem on `chunk`, or of MParser_ReadFd that took `chunk`; or of MParser_Reset. */
  datatype Call = Read(chunk: seq<byte>, ok: bool) | Reset

  /** What became of the bytes. */
  datatype Item = Received(m: Msg) | Rejected(header: seq<byte>) | Dropped(bytes: seq<byte>)
  {
    function Bytes(): seq<byte> {
      match this
      case Received(m) => Encode(m)
      case Rejected(s) => s
      case Dropped(s) => s
    }
  }

  datatype State = State(acc: seq<byte>, items: seq<Item>)

  /** None if the call overruns: then nothing is said of what follows. */
  function Next(s: State, call: Call): (r: Option<State>)
    requires Waiting(s.acc)
    ensures r.Some? ==> Waiting(r.value.acc)
  {
    match call
    case Reset => Some(State([], s.items + [Dropped(s.acc)]))
    case Read(chunk, ok) =>
      var rest := Dropped(Surplus(s.acc, chunk, ok));
      match Take(s.acc, chunk, ok)
      case More(acc) => Some(State(acc, s.items))
      case Done(m) => Some(State([], s.items + [Received(m), rest]))
      case Refused => Some(State([], s.items + [Rejected((s.acc + chunk)[..HEADER_SIZE]), rest]))
      case Overrun => None
  }

  function Run(calls: seq<Call>): (r: Option<State>)
    ensures r.Some? ==> Waiting(r.value.acc)
  {
    if calls == [] then Some(State([], []))
    else
      var before := Run(calls[..|calls| - 1]);
      if before.Some? then Next(before.value, calls[|calls| - 1]) else None
  }

  function Fed(calls: seq<Call>): seq<byte> {
    if calls == [] then []
    else
      var last := calls[|calls| - 1];
      Fed(calls[..|calls| - 1]) + if last.Read? then last.chunk else []
  }

  function Accounted(items: seq<Item>): seq<byte> {
    if items == [] then [] else Accounted(items[..|items| - 1]) + items[|items| - 1].Bytes()
  }

  lemma AccountedOne(items: seq<Item>, x: Item)
    ensures Accounted(items + [x]) == Accounted(items) + x.Bytes()
  {
    hide Item.Bytes;
    assert (items + [x])[..|items|] == items;
  }

  lemma AccountedMore(items: seq<Item>, x: Item, y: Item)
    ensures Accounted(items + [x]) == Accounted(items) + x.Bytes()
    ensures Accounted(items + [x, y]) == Accounted(items) + (x.Bytes() + y.Bytes())
  {
    hide Accounted, Item.Bytes;
    AccountedOne(items, x);
    AccountedOne(items + [x], y);
    assert items + [x, y] == items + [x] + [y];
    Assoc(Accounted(items), x.Bytes(), y.Bytes());
  }

  lemma WholeEncoding(s: seq<byte>)
    requires HEADER_SIZE <= |s| == HEADER_SIZE + Announced(s)
    ensures Encode(Parse(s)) == s
  {
    ImageLoad(Big, s);
    assert s == s[..HEADER_SIZE] + s[HEADER_SIZE..];
  }

  lemma EncodeParse(s: seq<byte>)
    requires HEADER_SIZE <= |s| && HEADER_SIZE + Announced(s) <= |s|
    ensures var size := HEADER_SIZE + Announced(s);
            && Announced(s[..size]) == Announced(s)
            && s == Encode(Parse(s[..size])) + s[size..]
  {
    var size := HEADER_SIZE + Announced(s);
    assert s == s[..size] + s[size..];
    AnnouncedPrefix(s[..size], s[size..]);
    WholeEncoding(s[..size]);
  }

  /** A whole message, or a header not accepted, and what is left over make up the bytes seen. */
  lemma TakeAccounts(acc: seq<byte>, chunk: seq<byte>, ok: bool)
    requires Waiting(acc)
    ensures var (o, rest) := (Take(acc, chunk, ok), Surplus(acc, chunk, ok));
            match o
            case More(a) => a == acc + chunk
            case Done(m) => acc + chunk == Encode(m) + rest
            case _ => HEADER_SIZE <= |acc + chunk| && acc + chunk == (acc + chunk)[..HEADER_SIZE] + rest
  {
    if Take(acc, chunk, ok).Done? {
      EncodeParse(acc + chunk);
    }
  }

  /** One call accounts for exactly the bytes it was given. */
  lemma NextConserves(s: State, call: Call)
    requires Waiting(s.acc) && Next(s, call).Some?
    ensures var s' := Next(s, call).value;
            Accounted(s'.items) + s'.acc == Accounted(s.items) + s.acc + if call.Read? then call.chunk else []
  {
    hide Accounted, Take, Surplus, Encode;
    match call
    case Reset =>
      AccountedMore(s.items, Dropped(s.acc), Dropped([]));
    case Read(chunk, ok) =>
      var rest := Dropped(Surplus(s.acc, chunk, ok));
      TakeAccounts(s.acc, chunk, ok);
      Assoc(Accounted(s.items), s.acc, chunk);
      match Take(s.acc, chunk, ok)
      case More(_) =>
      case Done(m) =>
        AccountedMore(s.items, Received(m), rest);
      case Refused =>
        AccountedMore(s.items, Rejected((s.acc + chunk)[..HEADER_SIZE]), rest);
  }

  lemma NothingYet()
    ensures Accounted([]) == []
  {
  }

  /** In every run every byte is accounted for once and in order: it is part of a returned message, of a rejected
      header or of what a call dropped, or it is one of those the parser still holds. */
  lemma {:induction false} EveryByteOnce(calls: seq<Call>)
    requires Run(calls).Some?
    ensures Accounted(Run(calls).value.items) + Run(calls).value.acc == Fed(calls)
  {
    hide Next, Accounted;
    if calls == [] {
      NothingYet();
    } else {
      EveryByteOnce(calls[..|calls| - 1]);
      NextConserves(Run(calls[..|calls| - 1]).value, calls[|calls| - 1]);
    }
  }

  // ---------- the calls themselves ----------

  /** After a step the parser holds what the state says, and a message was returned exactly if it was received. */
  ghost predicate Shown(p: MsgParser, r: Option<State>, s: State, ret: Message?)
    reads p, p.cache.mem, p.Body(), if ret == null then {} else {ret.mem}
  {
    r.Some? ==>
      && p.Valid() && Waiting(p.Acc()) && r.value.acc == p.Acc()
      && (ret != null ==>
            ret.Whole() && |r.value.items| > |s.items| && r.value.items[|s.items|] == Received(ret.Value()))
      && (ret == null ==> forall i :: |s.items| <= i < |r.value.items| ==> !r.value.items[i].Received?)
  }

  /** What a Read step adds to the items. */
  lemma ItemsOfRead(s: State, chunk: seq<byte>, ok: bool)
    requires Waiting(s.acc)
    ensures var (o, r) := (Take(s.acc, chunk, ok), Next(s, Read(chunk, ok)));
            && (r.Some? <==> !o.Overrun?)
            && (r.Some? ==>
                  && r.value.acc == o.Rest() && Waiting(r.value.acc)
                  && (o.Done? ==> |r.value.items| > |s.items| && r.value.items[|s.items|] == Received(o.msg))
                  && (!o.Done? ==> forall i :: |s.items| <= i < |r.value.items| ==> !r.value.items[i].Received?))
  {
    hide Take, Surplus;
  }

  /** MParser_ReadMem is a Read step, if it does not overrun. */
  method ReadMemStep(p: MsgParser, mem: array<byte>, ok: bool, ghost s: State) returns (ret: Message?)
    requires p.Valid() && Waiting(p.Acc()) && s.acc == p.Acc()
    requires mem.Length < 0x1_0000_0000 && mem != p.cache.mem && mem !in p.Body()
    modifies p, p.cache.mem, p.Body()
    ensures Shown(p, Next(s, Read(mem[..], ok)), s, ret)
    ensures fresh(p.Body() - old(p.Body())) && (ret != null ==> fresh({ret.mem} - old(p.Body())))
  {
    hide Take, Surplus, Next, Waiting, MsgParser.Valid, MsgParser.Acc, Message.Whole, Message.Value;
    assert mem[0..0 + mem.Length] == mem[..];
    ItemsOfRead(s, mem[..], ok);
    ret := p.ReadMem(mem, 0, mem.Length, ok);
  }

  /** MParser_ReadFd is a Read step on the bytes its reads deliver, if it does not overrun. */
  method ReadFdStep(p: MsgParser, fd: Socket, ok: bool, ghost s: State) returns (ret: Message?, ghost chunk: seq<byte>)
    requires p.Valid() && Waiting(p.Acc()) && s.acc == p.Acc()
    modifies p, p.cache.mem, p.Body(), fd
    ensures chunk + fd.inbox == old(fd.inbox)
    ensures Shown(p, Next(s, Read(chunk, ok)), s, ret)
  {
    hide Take, Surplus, CallReads, Next, Waiting, Got;
    ghost var rs, inbox := [], fd.inbox;
    ret, rs := p.ReadFd(fd, ok);
    chunk := inbox[..Got(rs)];
    ItemsOfRead(s, chunk, ok);
  }

  /** MParser_Reset is a Reset step. */
  method ResetStep(p: MsgParser, ghost s: State)
    requires p.Valid() && s.acc == p.Acc()
    requires Waiting(p.Acc())
    modifies p
    ensures Shown(p, Next(s, Reset), s, null)
  {
    p.Reset();
  }

  /** What a call returned stands for. */
  ghost predicate IsReturn(ret: Message?, r: Option<Msg>)
    reads if ret == null then {} else {ret.mem}
  {
    if ret == null then r == None else ret.Whole() && r == Some(ret.Value())
  }

  lemma NoChunks(acc: seq<byte>)
    requires Waiting(acc)
    ensures Returns(acc, []) == []
  {
  }

  lemma FirstReturn(acc: seq<byte>, chunks: seq<seq<byte>>)
    requires Waiting(acc) && chunks != [] && |Returns(acc, chunks)| == |chunks|
    ensures var o := Take(acc, chunks[0], true);
            && !o.Overrun?
            && Returns(acc, chunks) == [Returned(o)] + Returns(o.Rest(), chunks[1..])
            && |Returns(o.Rest(), chunks[1..])| == |chunks[1..]|
  {
    hide Take;
  }

  method FeedOne(p: MsgParser, mem: array<byte>, ghost chunk: seq<byte>) returns (ret: Message?)
    requires p.Valid() && Waiting(p.Acc()) && !Take(p.Acc(), chunk, true).Overrun?
    requires mem.Length < 0x1_0000_0000 && mem[..] == chunk && mem != p.cache.mem && mem !in p.Body()
    modifies p, p.cache.mem, p.Body()
    ensures p.Valid() && Waiting(p.Acc()) && fresh(p.Body() - old(p.Body()))
    ensures var o := Take(old(p.Acc()), chunk, true);
            p.Acc() == o.Rest() && IsReturn(ret, Returned(o))
    ensures ret != null ==> ret.mem != p.cache.mem && ret.mem !in p.Body()
  {
    hide Take, Waiting;
    assert mem[0..0 + mem.Length] == chunk;
    ret := p.ReadMem(mem, 0, mem.Length, true);
  }

  /** Feeding arrays to one parser, one MParser_ReadMem call each, none of which overruns: the calls return what
      Returns says, and the messages returned are not touched by the calls after them. */
  method FeedAll(p: MsgParser, mems: seq<array<byte>>, ghost chunks: seq<seq<byte>>) returns (rets: seq<Message?>)
    requires p.Valid() && Waiting(p.Acc())
    requires |chunks| == |mems| == |Returns(p.Acc(), chunks)|
    requires forall i :: 0 <= i < |mems| ==>
               && mems[i].Length < 0x1_0000_0000 && mems[i][..] == chunks[i]
               && mems[i] != p.cache.mem && mems[i] !in p.Body()
    modifies p, p.cache.mem, p.Body()
    ensures p.Valid() && |rets| == |chunks|
    ensures forall i :: 0 <= i < |chunks| ==> IsReturn(rets[i], Returns(old(p.Acc()), chunks)[i])
    decreases |mems|
  {
    hide Take, Waiting, Returns;
    if mems == [] {
      rets := [];
      NoChunks(p.Acc());
    } else {
      FirstReturn(p.Acc(), chunks);
      var first := FeedOne(p, mems[0], chunks[0]);
      var rest := FeedAll(p, mems[1..], chunks[1..]);
      rets := [first] + rest;
    }
  }
}
