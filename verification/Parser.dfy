/** The resumable parser of msg_parser.c. */
module Parser {
  import opened Seqs
  import opened Wire
  import opened Net
  import opened Receive

  // ---------- what the parser computes, one byte at a time ----------

  /** What a run of bytes leads to: a message still incomplete; a whole message; a header for whose message no memory
      was given; or one for which too little memory was given, so that the copy of the header runs over its end.
      After that the C program's behaviour is undefined, and nothing is said of it. */
  datatype Outcome = More(acc: seq<byte>) | Done(msg: Msg) | Refused | Overrun
  {
    /** The bytes the parser holds on to afterwards. */
    function Rest(): seq<byte> {
      if More? then acc else []
    }
  }

  /** The bytes consumed since the last message ended, while the next one is incomplete. */
  predicate Waiting(acc: seq<byte>) {
    |acc| < HEADER_SIZE || (Announced(acc) <= INT_MAX && |acc| < HEADER_SIZE + Announced(acc))
  }

  /** As Waiting, but all bytes may have come: the state between the parser's two halves. */
  predicate Pending(acc: seq<byte>) {
    |acc| < HEADER_SIZE || (Announced(acc) <= INT_MAX && |acc| <= HEADER_SIZE + Announced(acc))
  }

  /** An announced length as the signed 32-bit int `need`. */
  function Need(length: u32): int {
    if length <= INT_MAX then length else length - 0x1_0000_0000
  }

  /** The size that malloc is asked for: a sum of 64-bit unsigned numbers. */
  function BlockSize(length: u32): nat {
    (HEADER_SIZE + Need(length)) % 0x1_0000_0000_0000_0000
  }

  /** The largest size that malloc can give. */
  const PTRDIFF_MAX: nat := 0x7FFF_FFFF_FFFF_FFFF

  /** The length fields for which that sum wraps around to less than a header. */
  predicate Wraps(length: u32) {
    0xFFFF_FFF4 <= length
  }

  /** For lengths up to INT_MAX the size is that of the message. The others make `need` negative: for exactly those that
      wrap the size is too small for the header, and for all the rest it is one that malloc cannot give. */
  lemma BlockSizes(length: u32)
    ensures length < 0x8000_0000 <==> 0 <= Need(length)
    ensures length < 0x8000_0000 ==> Need(length) == length && BlockSize(length) == 12 + length
    ensures length >= 0xFFFF_FFF4 <==> BlockSize(length) < 12
    ensures length >= 0xFFFF_FFF4 <==> Wraps(length)
    ensures length >= 0xFFFF_FFF4 <==> Need(length) < 0 <= 12 + Need(length)
    ensures 0x8000_0000 <= length < 0xFFFF_FFF4 <==> BlockSize(length) >= 0x8000_0000_0000_0000
  {
  }

  /** The message that header `s` announces gets its memory; `ok` is malloc's answer to a size it can give. */
  predicate Accepts(s: seq<byte>, ok: bool)
    requires HEADER_SIZE <= |s|
  {
    ok && Announced(s) <= INT_MAX
  }

  /** What a header leads to that is not accepted. */
  function NotAccepted(s: seq<byte>, ok: bool): (o: Outcome)
    requires HEADER_SIZE <= |s|
    ensures !o.More? && !o.Done?
  {
    if ok && Wraps(Announced(s)) then Overrun else Refused
  }

  function Step(acc: seq<byte>, b: byte, ok: bool): Outcome
    requires Waiting(acc)
  {
    var s := acc + [b];
    if |s| < HEADER_SIZE then More(s)
    else if |s| == HEADER_SIZE && !Accepts(s, ok) then NotAccepted(s, ok)
    else if |s| < HEADER_SIZE + Announced(s) then More(s)
    else Done(Parse(s))
  }

  /** Feeding bytes one at a time, up to the end of the message; what is left over is dropped. */
  function Feed(acc: seq<byte>, chunk: seq<byte>, ok: bool): (o: Outcome)
    requires Waiting(acc)
    ensures Waiting(o.Rest())
    decreases |chunk|
  {
    if chunk == [] then More(acc)
    else
      match Step(acc, chunk[0], ok)
      case More(a) => Feed(a, chunk[1..], ok)
      case Done(m) => Done(m)
      case Refused => Refused
      case Overrun => Overrun
  }

  /** The same in one go, as the code does it. */
  function Take(acc: seq<byte>, chunk: seq<byte>, ok: bool): (o: Outcome)
    requires Pending(acc)
    ensures Waiting(o.Rest())
  {
    var s := acc + chunk;
    if |s| < HEADER_SIZE then More(s)
    else if |acc| < HEADER_SIZE && !Accepts(s, ok) then NotAccepted(s, ok)
    else if |s| < HEADER_SIZE + Announced(s) then More(s)
    else Done(Parse(s[..HEADER_SIZE + Announced(s)]))
  }

  /** The bytes of `chunk` that come after the message, or after the header that is not accepted. */
  function Surplus(acc: seq<byte>, chunk: seq<byte>, ok: bool): seq<byte>
    requires Pending(acc)
  {
    var s := acc + chunk;
    match Take(acc, chunk, ok)
    case More(_) => []
    case Done(_) => s[HEADER_SIZE + Announced(s)..]
    case _ => s[HEADER_SIZE..]
  }

  /** Taking a chunk at once is feeding its bytes one by one. */
  lemma {:induction false} TakeIsFeed(acc: seq<byte>, chunk: seq<byte>, ok: bool)
    requires Waiting(acc)
    ensures Take(acc, chunk, ok) == Feed(acc, chunk, ok)
    decreases |chunk|
  {
    if chunk == [] {
      assert acc + chunk == acc;
    } else {
      var a := acc + [chunk[0]];
      assert acc + chunk == a + chunk[1..];
      match Step(acc, chunk[0], ok)
      case More(_) =>
        TakeIsFeed(a, chunk[1..], ok);
      case Done(_) =>
        assert (acc + chunk)[..HEADER_SIZE + Announced(acc + chunk)] == a;
      case _ =>
    }
  }

  /** If chunk `a` leaves the message incomplete, then `a` and `b` after it do what `a + b` does at once. */
  lemma TakeTwice(acc: seq<byte>, a: seq<byte>, b: seq<byte>, ok: bool)
    requires Pending(acc) && Take(acc, a, ok).More?
    ensures Take(Take(acc, a, ok).acc, b, ok) == Take(acc, a + b, ok)
  {
    Assoc(acc, a, b);
  }

  lemma CutAt(acc: seq<byte>, chunk: seq<byte>, size: nat, ok: bool)
    requires |acc| <= size <= |acc + chunk| && HEADER_SIZE <= size
    ensures var n := size - |acc|; var s := acc + chunk;
            && acc + chunk[..n] == s[..size]
            && chunk[n..] == s[size..]
            && Announced(s[..size]) == Announced(s)
            && Accepts(s[..size], ok) == Accepts(s, ok) && NotAccepted(s[..size], ok) == NotAccepted(s, ok)
  {
    AnnouncedPrefix((acc + chunk)[..size], (acc + chunk)[size..]);
    assert acc + chunk == (acc + chunk)[..size] + (acc + chunk)[size..];
  }

  /** An over-long chunk does what the chunk cut at the end of the message does. */
  lemma TakeCut(acc: seq<byte>, chunk: seq<byte>, ok: bool)
    requires Waiting(acc)
    ensures var n := |chunk| - |Surplus(acc, chunk, ok)|;
            && 0 <= n
            && chunk[n..] == Surplus(acc, chunk, ok)
            && Take(acc, chunk[..n], ok) == Take(acc, chunk, ok)
            && Surplus(acc, chunk[..n], ok) == []
  {
    hide Load, Parse, Accepts, NotAccepted;
    var s := acc + chunk;
    if HEADER_SIZE <= |acc| {
      AnnouncedPrefix(acc, chunk);
    }
    match Take(acc, chunk, ok)
    case More(_) =>
      assert chunk[..|chunk|] == chunk;
    case Done(_) =>
      var size := HEADER_SIZE + Announced(s);
      CutAt(acc, chunk, size, ok);
      assert s[..size][..size] == s[..size];
    case _ =>
      CutAt(acc, chunk, HEADER_SIZE, ok);
  }

  /** What bytes lead to that reach the end of a header, by the numbers in them: a message of the announced length if
      that is below 2^31 and there is memory for it, as soon as its bytes are there. */
  lemma ByTheBytes(acc: seq<byte>, chunk: seq<byte>, ok: bool, h: Header)
    requires |acc| < 12 <= |acc + chunk| && BigEndian(acc + chunk, h)
    ensures var (s, o) := (acc + chunk, Take(acc, chunk, ok));
            if ok && h.length < 0x8000_0000 then
              if |s| < 12 + h.length then o == More(s)
              else o == Done(Packet(h.kind, h.cmd, h.index, h.total, s[12..12 + h.length]))
            else
              o == if ok && h.length >= 0xFFFF_FFF4 then Overrun else Refused
  {
    var s := acc + chunk;
    HostReads(s, h);
    var size := 12 + h.length;
    if size <= |s| {
      assert s == s[..size] + s[size..];
      HostReads(s[..size], h);
      assert s[..size][12..] == s[12..size];
    }
  }

  // ---------- the two halves of a call ----------

  /** The header needs `len` bytes of the chunk, or more than it has; the rest of the chunk is read as the body. */
  lemma HalfChunk(acc: seq<byte>, chunk: seq<byte>, len: nat, ok: bool)
    requires |acc| < HEADER_SIZE && len <= |chunk|
    requires len == if HEADER_SIZE - |acc| < |chunk| then HEADER_SIZE - |acc| else |chunk|
    ensures var (s, rest) := (acc + chunk[..len], chunk[len..]);
            if |s| < HEADER_SIZE then
              Take(acc, chunk, ok) == More(s) && Surplus(acc, chunk, ok) == []
            else if Accepts(s, ok) then
              && Pending(s)
              && Take(acc, chunk, ok) == Take(s, rest, ok)
              && Surplus(acc, chunk, ok) == Surplus(s, rest, ok)
            else
              Take(acc, chunk, ok) == NotAccepted(s, ok) && Surplus(acc, chunk, ok) == rest
  {
    Assoc(acc, chunk[..len], chunk[len..]);
    assert chunk == chunk[..len] + chunk[len..];
  }

  /** The chunk brings the rest of the payload. */
  lemma TakeBody(h: Header, payload: seq<byte>, have: nat, chunk: seq<byte>, ok: bool)
    requires |payload| == h.length <= INT_MAX && have <= |payload| <= have + |chunk|
    requires chunk[..|payload| - have] == payload[have..]
    ensures var acc := Image(Big, h) + payload[..have];
            && Pending(acc)
            && Take(acc, chunk, ok) == Done(Packet(h.kind, h.cmd, h.index, h.total, payload))
            && Surplus(acc, chunk, ok) == chunk[|payload| - have..]
  {
    var whole := Image(Big, h) + payload;
    var acc, rest := Image(Big, h) + payload[..have], chunk[|payload| - have..];
    LoadImage(Big, h, payload[..have]);
    LoadImage(Big, h, payload);
    assert acc + chunk == whole + rest;
    AnnouncedPrefix(whole, rest);
  }

  /** The chunk brings some or all of the rest of the payload. */
  lemma BodyGrows(h: Header, payload: seq<byte>, have: nat, chunk: seq<byte>, len: nat, ok: bool)
    requires |payload| == h.length <= INT_MAX && have + len <= |payload| && len <= |chunk|
    requires forall k :: 0 <= k < len ==> chunk[k] == payload[have + k]
    requires have + len < |payload| ==> len == |chunk|
    ensures var acc := Image(Big, h) + payload[..have];
            && Pending(acc) && Surplus(acc, chunk, ok) == chunk[len..]
            && if have + len == |payload| then
                 Take(acc, chunk, ok) == Done(Packet(h.kind, h.cmd, h.index, h.total, payload))
               else
                 Image(Big, h) + payload[..have + len] == acc + chunk && Take(acc, chunk, ok) == More(acc + chunk)
  {
    if have + len == |payload| {
      assert chunk[..len] == payload[have..];
      TakeBody(h, payload, have, chunk, ok);
    } else {
      LoadImage(Big, h, payload[..have]);
      LoadImage(Big, h, payload[..have + len]);
      assert payload[..have + len] == payload[..have] + chunk;
      Assoc(Image(Big, h), payload[..have], chunk);
    }
  }

  /** Bytes written after those already there. */
  lemma Appended(e: Endian, before: seq<byte>, after: seq<byte>, at: nat, n: nat)
    requires |before| == |after| && HEADER_SIZE <= at && at + n <= |after|
    requires forall k :: 0 <= k < at ==> after[k] == before[k]
    ensures Load(e, after) == Load(e, before)
    ensures after[HEADER_SIZE..at] == before[HEADER_SIZE..at]
    ensures after[HEADER_SIZE..at + n] == before[HEADER_SIZE..at] + after[at..at + n]
  {
  }

  lemma Slices(s: seq<byte>, at: nat, len: nat, length: nat)
    requires len <= length && at + length <= |s|
    ensures s[at..at + length][..len] == s[at..at + len]
    ensures s[at..at + length][len..] == s[at + len..at + length]
  {
  }

  lemma Prefixes(s: seq<byte>, len: nat, n: nat)
    requires len <= n <= |s|
    ensures s[..n][..len] == s[..len] && s[..n][len..] == s[len..][..n - len] && s[len..][n - len..] == s[n..]
  {
  }

  // ---------- the reads of a call ----------

  /** The reads of a call on a parser that waits for a header: an attempt at the rest of the header and, if that
      completes a header which is accepted, one at the whole body. `chunk` is what they deliver. */
  predicate TwoAttempts(acc: seq<byte>, chunk: seq<byte>, first: seq<ReadCall>, second: seq<ReadCall>, ok: bool)
    requires |acc| < HEADER_SIZE
  {
    var (s, want) := (acc + chunk, HEADER_SIZE - |acc|);
    && Attempt(first, want)
    && Got(first) == (if |chunk| < want then |chunk| else want)
    && if |s| < HEADER_SIZE || !Accepts(s, ok) then second == [] else Attempt(second, Announced(s))
  }

  /** `rs` are the reads that one call makes on a parser holding `acc`, and they deliver `chunk`. */
  ghost predicate CallReads(acc: seq<byte>, chunk: seq<byte>, rs: seq<ReadCall>, ok: bool)
    requires Pending(acc)
  {
    && Got(rs) == |chunk|
    && if HEADER_SIZE <= |acc| then Attempt(rs, HEADER_SIZE + Announced(acc) - |acc|)
       else exists k :: 0 <= k <= |rs| && TwoAttempts(acc, chunk, rs[..k], rs[k..], ok)
  }

  /** One of the attempts of such a call gave up. */
  ghost predicate CallGaveUp(acc: seq<byte>, chunk: seq<byte>, rs: seq<ReadCall>, ok: bool)
    requires Pending(acc)
  {
    if HEADER_SIZE <= |acc| then GivesUp(rs)
    else exists k :: 0 <= k <= |rs| && TwoAttempts(acc, chunk, rs[..k], rs[k..], ok) &&
                     (GivesUp(rs[..k]) || GivesUp(rs[k..]))
  }

  lemma IncompleteInHalf(acc: seq<byte>, chunk: seq<byte>, first: seq<ReadCall>, second: seq<ReadCall>, ok: bool)
    requires |acc| < HEADER_SIZE && TwoAttempts(acc, chunk, first, second, ok)
    requires Got(first + second) == |chunk|
    ensures Take(acc, chunk, ok).More? <==> GivesUp(first) || GivesUp(second)
  {
    AttemptEnds(first, HEADER_SIZE - |acc|);
    if second != [] {
      AttemptEnds(second, Announced(acc + chunk));
    }
    ResultsAppend(first, second);
    hide Got, Zeros, Attempt;
  }

  lemma IncompleteInBody(acc: seq<byte>, chunk: seq<byte>, rs: seq<ReadCall>, ok: bool)
    requires Pending(acc) && HEADER_SIZE <= |acc|
    requires Got(rs) == |chunk| && Attempt(rs, HEADER_SIZE + Announced(acc) - |acc|)
    ensures Take(acc, chunk, ok).More? <==> GivesUp(rs)
  {
    hide Got, Zeros, Attempt, GivesUp;
    AttemptEnds(rs, HEADER_SIZE + Announced(acc) - |acc|);
    AnnouncedPrefix(acc, chunk);
  }

  /** A call leaves the message incomplete exactly if one of its attempts gave up. */
  lemma IncompleteGaveUp(acc: seq<byte>, chunk: seq<byte>, rs: seq<ReadCall>, ok: bool)
    requires Pending(acc) && CallReads(acc, chunk, rs, ok)
    ensures Take(acc, chunk, ok).More? <==> CallGaveUp(acc, chunk, rs, ok)
  {
    hide Take, Attempt, TwoAttempts, Got, Zeros, GivesUp;
    if HEADER_SIZE <= |acc| {
      IncompleteInBody(acc, chunk, rs, ok);
    } else {
      forall k | 0 <= k <= |rs| && TwoAttempts(acc, chunk, rs[..k], rs[k..], ok)
        ensures Take(acc, chunk, ok).More? <==> GivesUp(rs[..k]) || GivesUp(rs[k..])
      {
        assert rs == rs[..k] + rs[k..];
        IncompleteInHalf(acc, chunk, rs[..k], rs[k..], ok);
      }
    }
  }

  /** If every read that asks for bytes brings some, no attempt of the call gives up. */
  lemma WillingCall(acc: seq<byte>, chunk: seq<byte>, rs: seq<ReadCall>, ok: bool)
    requires Pending(acc) && CallReads(acc, chunk, rs, ok) && Willing(rs)
    ensures !Take(acc, chunk, ok).More?
  {
    hide Take, Attempt, Got, GivesUp;
    IncompleteGaveUp(acc, chunk, rs, ok);
    if HEADER_SIZE <= |acc| {
      WillingAttempt(rs, HEADER_SIZE + Announced(acc) - |acc|);
    } else {
      forall k | 0 <= k <= |rs| && TwoAttempts(acc, chunk, rs[..k], rs[k..], ok)
        ensures !GivesUp(rs[..k]) && !GivesUp(rs[k..])
      {
        WillingAttempt(rs[..k], HEADER_SIZE - |acc|);
        if rs[k..] == [] {
          NoneGiveUp();
        } else {
          WillingAttempt(rs[k..], Announced(acc + chunk));
        }
      }
    }
  }

  lemma BodyCall(acc: seq<byte>, chunk: seq<byte>, rs: seq<ReadCall>, ok: bool)
    requires Pending(acc) && HEADER_SIZE <= |acc| && Got(rs) == |chunk|
    requires Attempt(rs, HEADER_SIZE + Announced(acc) - |acc|)
    ensures CallReads(acc, chunk, rs, ok)
  {
  }

  lemma JoinAttempts(acc: seq<byte>, chunk: seq<byte>, len: nat, first: seq<ReadCall>, second: seq<ReadCall>, ok: bool)
    requires |acc| < HEADER_SIZE && len <= |chunk|
    requires len == Got(first) == (if |chunk| < HEADER_SIZE - |acc| then |chunk| else HEADER_SIZE - |acc|)
    requires Attempt(first, HEADER_SIZE - |acc|)
    requires var s := acc + chunk[..len];
             if |s| < HEADER_SIZE || !Accepts(s, ok) then second == [] && len == |chunk|
             else Pending(s) && CallReads(s, chunk[len..], second, ok)
    ensures CallReads(acc, chunk, first + second, ok)
  {
    var s := acc + chunk[..len];
    Assoc(acc, chunk[..len], chunk[len..]);
    assert chunk == chunk[..len] + chunk[len..];
    ResultsAppend(first, second);
    if |s| == HEADER_SIZE {
      AnnouncedPrefix(s, chunk[len..]);
    }
    var (rs, k) := (first + second, |first|);
    assert rs[..k] == first && rs[k..] == second;
    assert TwoAttempts(acc, chunk, rs[..k], rs[k..], ok);
  }

  /** The header's attempt delivers `len` bytes of the inbox, and the rest of the call what `second` delivers. */
  lemma HalfCall(acc: seq<byte>, inbox: seq<byte>, len: nat, first: seq<ReadCall>, second: seq<ReadCall>, ok: bool)
    requires |acc| < HEADER_SIZE && len == Got(first) <= HEADER_SIZE - |acc| && len + Got(second) <= |inbox|
    requires Attempt(first, HEADER_SIZE - |acc|)
    requires var s := acc + inbox[..len];
             if |s| < HEADER_SIZE || !Accepts(s, ok) then second == []
             else Pending(s) && CallReads(s, inbox[len..][..Got(second)], second, ok)
    ensures Got(first + second) == len + Got(second)
    ensures inbox[len + Got(second)..] == inbox[len..][Got(second)..]
    ensures CallReads(acc, inbox[..len + Got(second)], first + second, ok)
    ensures var (s, rest, chunk) := (acc + inbox[..len], inbox[len..][..Got(second)], inbox[..len + Got(second)]);
            if |s| < HEADER_SIZE then
                 Take(acc, chunk, ok) == More(s) && Surplus(acc, chunk, ok) == []
               else if Accepts(s, ok) then
                 Take(acc, chunk, ok) == Take(s, rest, ok) && Surplus(acc, chunk, ok) == Surplus(s, rest, ok)
               else
                 Take(acc, chunk, ok) == NotAccepted(s, ok) && Surplus(acc, chunk, ok) == []
  {
    hide *;
    ResultsAppend(first, second);
    NoReads(0);
    var n := len + Got(second);
    Prefixes(inbox, len, n);
    HalfChunk(acc, inbox[..n], len, ok);
    JoinAttempts(acc, inbox[..n], len, first, second, ok);
  }

  // ---------- the parser ----------

  class MsgParser {
    const cache: Message
    var header: bool
    var need: int
    var msg: Message?

    /** The memory of the message under construction. */
    ghost function Body(): set<object>
      reads this
    {
      if msg == null then {} else {msg.mem}
    }

    ghost predicate Valid()
      reads this, cache.mem, Body()
    {
      && cache.mem.Length == HEADER_SIZE
      && (!header ==> msg == null && 1 <= need <= HEADER_SIZE)
      && (header ==>
            && msg != null && msg.host == cache.host && msg.mem != cache.mem
            && msg.Whole() && 0 <= need <= msg.Fields().length <= INT_MAX)
    }

    /** The bytes consumed since the last completion, read off the concrete state. */
    ghost function Acc(): (acc: seq<byte>)
      requires Valid()
      reads this, cache.mem, Body()
      ensures Pending(acc)
      ensures !header ==> |acc| == HEADER_SIZE - need
      ensures header ==> HEADER_SIZE <= |acc| == HEADER_SIZE + Announced(acc) - need
      ensures header ==> Announced(acc) == msg.Fields().length
    {
      if !header then cache.mem[..HEADER_SIZE - need]
      else
        LoadImage(Big, msg.Fields(), msg.mem[HEADER_SIZE..msg.mem.Length - need]);
        Image(Big, msg.Fields()) + msg.mem[HEADER_SIZE..msg.mem.Length - need]
    }

    /** The state and the returned message are what the outcome says; after an overrun, `need` is negative. */
    ghost predicate Shows(o: Outcome, ret: Message?)
      reads this, cache.mem, Body(), if ret == null then {} else {ret.mem}
    {
      if o.Overrun? then
        ret == null && header && need < 0
      else
        && Valid()
        && Acc() == o.Rest()
        && (ret != null <==> o.Done?)
        && (ret != null ==> ret.host == cache.host && ret.Whole() && ret.Value() == o.msg && ret.mem != cache.mem)
        && (ret != null ==> msg == null)
    }

    /** The bytes consumed fix the concrete state: which half the parser is in, how much it needs, and what
        its buffers hold. */
    lemma StateIsAcc()
      requires Valid() && Waiting(Acc())
      ensures var a := Acc();
              if |a| < HEADER_SIZE then
                && !header && msg == null && 1 <= need == HEADER_SIZE - |a|
                && cache.mem[..|a|] == a
              else
                && header && msg != null && need == HEADER_SIZE + Announced(a) - |a| > 0
                && msg.Fields() == Load(Big, a)
                && msg.mem[HEADER_SIZE..|a|] == a[HEADER_SIZE..]
    {
      if header {
        LoadImage(Big, msg.Fields(), msg.mem[HEADER_SIZE..msg.mem.Length - need]);
      }
    }

    /** MParser_New. */
    constructor (host: Endian)
      ensures Valid() && Acc() == [] && fresh(cache) && fresh(cache.mem) && cache.host == host && msg == null
    {
      cache := new Message.Alloc(host, HEADER_SIZE);
      header, need, msg := false, HEADER_SIZE, null;
    }

    method InitState()
      requires cache.mem.Length == HEADER_SIZE
      modifies this
      ensures Valid() && Acc() == [] && msg == null
    {
      header := false;
      need := HEADER_SIZE;
      msg := null;
    }

    /** `ok` is malloc's answer to a size it can give. A block too small for the header is left as it comes: the model
        ends where the copy of the header would run over it. */
    method ToMidState(ok: bool) returns (done: bool)
      requires cache.mem.Length == HEADER_SIZE
      modifies this
      ensures header && need == Need(cache.Fields().length)
      ensures done <==> msg != null
      ensures done <==> ok && BlockSize(cache.Fields().length) <= PTRDIFF_MAX
      ensures done ==> fresh(msg.mem) && msg.host == cache.host && msg.mem.Length == BlockSize(cache.Fields().length)
      ensures done && 0 <= need ==> Valid() && msg.Fields() == cache.Fields()
    {
      header := true;
      var length := cache.Get32(8);
      BlockSizes(length);
      need := Need(length);
      var size := BlockSize(length);
      if ok && size <= PTRDIFF_MAX {
        msg := new Message.Alloc(cache.host, size);
        if HEADER_SIZE <= size {
          MemCpy(msg.mem, 0, cache.mem, 0, HEADER_SIZE);
          SameFields(cache.host, msg.mem[..], cache.mem[..]);
        }
      } else {
        msg := null;
      }
      done := msg != null;
    }

    /** The header is complete: it is decoded, and the body state entered if it is accepted. */
    method ToBody(ok: bool) returns (done: bool)
      requires cache.mem.Length == HEADER_SIZE
      modifies this, cache.mem
      ensures fresh(Body())
      ensures var s := old(cache.mem[..]);
              if Accepts(s, ok) then done && Valid() && header && Acc() == s
              else !done && Shows(NotAccepted(s, ok), null)
    {
      ghost var s := cache.mem[..];
      cache.N2H();
      BlockSizes(Announced(s));
      done := ToMidState(ok);
      if !done {
        InitState();
      } else if 0 <= need {
        ImageLoad(Big, s);
        assert Acc() == s;
      } else {
        done := false;
      }
    }

    method ToLastState() returns (ret: Message?)
      modifies this`msg
      ensures ret == if header && need == 0 then old(msg) else null
      ensures msg == if header && need == 0 then null else old(msg)
    {
      ret := null;
      if header && need == 0 {
        ret := msg;
        msg := null;
      }
    }

    /** What the bytes just copied into the payload amount to. */
    lemma Filled(acc: seq<byte>, chunk: seq<byte>, len: nat, offset: nat, ok: bool)
      requires Valid() && header && len <= |chunk| && offset + len + need == msg.Fields().length
      requires acc == Image(Big, msg.Fields()) + msg.mem[HEADER_SIZE..HEADER_SIZE + offset]
      requires forall k :: 0 <= k < len ==> chunk[k] == msg.mem[HEADER_SIZE + offset + k]
      requires need > 0 ==> len == |chunk|
      ensures Pending(acc)
      ensures need > 0 ==> Acc() == acc + chunk && Take(acc, chunk, ok) == More(acc + chunk)
      ensures need == 0 ==> Take(acc, chunk, ok) == Done(msg.Value())
      ensures Surplus(acc, chunk, ok) == chunk[len..]
    {
      hide Take, Surplus, Load, Image;
      var payload := msg.mem[HEADER_SIZE..];
      assert forall k :: 0 <= k < |payload| ==> payload[k] == msg.mem[HEADER_SIZE + k];
      assert payload[..offset] == msg.mem[HEADER_SIZE..HEADER_SIZE + offset];
      assert payload[..offset + len] == msg.mem[HEADER_SIZE..HEADER_SIZE + offset + len];
      BodyGrows(msg.Fields(), payload, offset, chunk, len, ok);
    }

    /** Copying the rest of the payload, or what there is of it. */
    method FillFromMem(mem: array<byte>, at: nat, length: u32, ghost ok: bool)
      requires Valid() && header
      requires at + length <= mem.Length && mem != cache.mem && mem !in Body()
      modifies this`need, Body()
      ensures Valid()
      ensures var (acc, chunk) := (old(Acc()), mem[at..at + length]);
              && (need > 0 ==> Acc() == acc + chunk && Take(acc, chunk, ok) == More(acc + chunk))
              && (need == 0 ==> Take(acc, chunk, ok) == Done(msg.Value()))
    {
      hide Take, Surplus, Load, Image;
      ghost var acc, chunk := Acc(), mem[at..at + length];
      var len := if need < length then need else length;
      var offset := msg.mem.Length - HEADER_SIZE - need;
      ghost var before := msg.mem[..];
      MemCpy(msg.mem, HEADER_SIZE + offset, mem, at, len);
      Appended(msg.host, before, msg.mem[..], HEADER_SIZE + offset, len);
      assert forall k :: 0 <= k < len ==> chunk[k] == mem[at + k] == msg.mem[HEADER_SIZE + offset + k];
      need := need - len;
      Filled(acc, chunk, len, offset, ok);
    }

    /** The branch of MParser_ReadMem for a header still to be parsed, up to the recursive call. */
    method HeaderFromMem(mem: array<byte>, at: nat, length: u32, ok: bool) returns (len: nat, done: bool)
      requires Valid() && !header
      requires at + length <= mem.Length && mem != cache.mem
      modifies this, cache.mem
      ensures |old(Acc())| < HEADER_SIZE
      ensures len == if HEADER_SIZE - |old(Acc())| < length then HEADER_SIZE - |old(Acc())| else length
      ensures fresh(Body())
      ensures var s := old(Acc()) + mem[at..at + len];
              if |s| < HEADER_SIZE then !done && Shows(More(s), null)
              else if Accepts(s, ok) then done && Valid() && header && Acc() == s
              else !done && Shows(NotAccepted(s, ok), null)
    {
      len := if need < length then need else length;
      done := false;
      var offset := HEADER_SIZE - need;
      ghost var s := Acc() + mem[at..at + len];
      MemCpy(cache.mem, offset, mem, at, len);
      assert cache.mem[..offset + len] == s;
      if need == len {
        assert cache.mem[..] == s;
        done := ToBody(ok);
      } else {
        need := need - len;
      }
    }

    /** The end of a branch for a parsed header: the message is handed out if it is complete. */
    method Finish(ghost acc: seq<byte>, ghost chunk: seq<byte>, ghost ok: bool) returns (ret: Message?)
      requires Valid() && header && Pending(acc)
      requires need > 0 ==> Acc() == acc + chunk && Take(acc, chunk, ok) == More(acc + chunk)
      requires need == 0 ==> Take(acc, chunk, ok) == Done(msg.Value())
      modifies this
      ensures Shows(Take(acc, chunk, ok), ret)
      ensures Body() <= old(Body()) && (ret != null ==> {ret.mem} <= old(Body()))
    {
      hide Take, Load, Image, Announced;
      ret := ToLastState();
      if ret != null {
        InitState();
      }
    }

    /** The branch of MParser_ReadMem for a parsed header. */
    method BodyFromMem(mem: array<byte>, at: nat, length: u32, ghost ok: bool) returns (ret: Message?)
      requires Valid() && header
      requires at + length <= mem.Length && mem != cache.mem && mem !in Body()
      modifies this, Body()
      ensures Shows(Take(old(Acc()), mem[at..at + length], ok), ret)
      ensures Body() <= old(Body()) && (ret != null ==> {ret.mem} <= old(Body()))
    {
      hide Take, Surplus, Load, Image, MsgParser.Acc, MsgParser.Shows;
      ghost var acc, chunk := Acc(), mem[at..at + length];
      if msg != null {
        FillFromMem(mem, at, length, ok);
      }
      ret := Finish(acc, chunk, ok);
    }

    /** MParser_ReadMem, on the bytes mem[at..at + length]. */
    method ReadMem(mem: array?<byte>, at: nat, length: u32, ok: bool) returns (ret: Message?)
      requires Valid()
      requires mem != null ==> at + length <= mem.Length && mem != cache.mem && mem !in Body()
      modifies this, cache.mem, Body()
      ensures mem == null ==> ret == null && unchanged(this) && unchanged(cache.mem) && unchanged(old(Body()))
      ensures mem != null ==> Shows(Take(old(Acc()), mem[at..at + length], ok), ret)
      ensures fresh(Body() - old(Body())) && (ret != null ==> fresh({ret.mem} - old(Body())))
      decreases !header
    {
      hide Take, Surplus, Accepts, NotAccepted, Announced, Load, Image;
      hide MsgParser.Shows, MsgParser.Valid;
      ret := null;
      if mem != null {
        if !header {
          ghost var acc, chunk := Acc(), mem[at..at + length];
          var len, done := HeaderFromMem(mem, at, length, ok);
          HalfChunk(acc, chunk, len, ok);
          Slices(mem[..], at, len, length);
          if done {
            ret := ReadMem(mem, at + len, length - len, ok);
          }
          assert Shows(Take(acc, chunk, ok), ret);
        } else {
          ret := BodyFromMem(mem, at, length, ok);
        }
      }
    }

    /** What a call that takes `chunk` by the reads `rs` amounts to: the chunk's outcome, nothing taken beyond the
        message, and no reads but those of its attempts. */
    ghost predicate Reads(acc: seq<byte>, chunk: seq<byte>, rs: seq<ReadCall>, ok: bool, ret: Message?)
      requires Pending(acc)
      reads this, cache.mem, Body(), if ret == null then {} else {ret.mem}
    {
      && Surplus(acc, chunk, ok) == []
      && Shows(Take(acc, chunk, ok), ret)
      && CallReads(acc, chunk, rs, ok)
    }

    /** Reading the rest of the payload. */
    method FillFromFd(fd: Socket, ghost ok: bool) returns (len: nat, ghost rs: seq<ReadCall>)
      requires Valid() && header
      modifies this`need, Body(), fd`inbox, fd`readLog
      ensures fd.readLog == old(fd.readLog) + rs && Got(rs) == len && Attempt(rs, old(need))
      ensures len <= |old(fd.inbox)| && fd.inbox == old(fd.inbox)[len..]
      ensures Valid() && need == old(need) - len
      ensures var (acc, chunk) := (old(Acc()), old(fd.inbox)[..len]);
              && (need > 0 ==> Acc() == acc + chunk && Take(acc, chunk, ok) == More(acc + chunk))
              && (need == 0 ==> Take(acc, chunk, ok) == Done(msg.Value()))
              && Surplus(acc, chunk, ok) == []
    {
      hide Take, Surplus, Load, Image, Attempt;
      ghost var acc, inbox := Acc(), fd.inbox;
      var offset := msg.mem.Length - HEADER_SIZE - need;
      ghost var before := msg.mem[..];
      len, rs := ToRecv(fd, msg.mem, HEADER_SIZE + offset, need);
      Appended(msg.host, before, msg.mem[..], HEADER_SIZE + offset, len);
      need := need - len;
      Filled(acc, inbox[..len], len, offset, ok);
    }

    /** The branch of MParser_ReadFd for a header still to be parsed, up to the recursive call. */
    method HeaderFromFd(fd: Socket, ok: bool) returns (len: nat, done: bool, ghost rs: seq<ReadCall>)
      requires Valid() && !header
      modifies this, cache.mem, fd`inbox, fd`readLog
      ensures |old(Acc())| < HEADER_SIZE
      ensures len <= HEADER_SIZE - |old(Acc())| && len <= |old(fd.inbox)| && fd.inbox == old(fd.inbox)[len..]
      ensures fd.readLog == old(fd.readLog) + rs && Got(rs) == len && Attempt(rs, HEADER_SIZE - |old(Acc())|)
      ensures fresh(Body())
      ensures var s := old(Acc()) + old(fd.inbox)[..len];
              if |s| < HEADER_SIZE then !done && Shows(More(s), null)
              else if Accepts(s, ok) then done && Valid() && header && Acc() == s
              else !done && Shows(NotAccepted(s, ok), null)
    {
      hide Load, Attempt;
      var offset := HEADER_SIZE - need;
      ghost var s := Acc();
      ghost var inbox := fd.inbox;
      done := false;
      len, rs := ToRecv(fd, cache.mem, offset, need);
      s := s + inbox[..len];
      assert cache.mem[..offset + len] == s;
      if len == need {
        assert cache.mem[..] == s;
        done := ToBody(ok);
      } else {
        need := need - len;
      }
    }

    /** The branch of MParser_ReadFd for a parsed header. */
    method BodyFromFd(fd: Socket, ghost ok: bool) returns (ret: Message?, ghost rs: seq<ReadCall>)
      requires Valid() && header
      modifies this, Body(), fd`inbox, fd`readLog
      ensures fd.readLog == old(fd.readLog) + rs
      ensures Got(rs) <= |old(fd.inbox)| && fd.inbox == old(fd.inbox)[Got(rs)..]
      ensures Reads(old(Acc()), old(fd.inbox)[..Got(rs)], rs, ok, ret)
      ensures Body() <= old(Body()) && (ret != null ==> {ret.mem} <= old(Body()))
    {
      hide Take, Surplus, Load, Image, Attempt, Got, Announced, CallReads, MsgParser.Acc, MsgParser.Shows;
      ghost var acc, inbox := Acc(), fd.inbox;
      rs := [];
      if msg != null {
        var len;
        len, rs := FillFromFd(fd, ok);
        BodyCall(acc, inbox[..len], rs, ok);
      }
      ret := Finish(acc, inbox[..Got(rs)], ok);
    }

    /** MParser_ReadFd; no descriptor (-1) is null. `rs` are the reads that the call makes. */
    method ReadFd(fd: Socket?, ok: bool) returns (ret: Message?, ghost rs: seq<ReadCall>)
      requires Valid()
      modifies this, cache.mem, Body(), fd
      ensures fd == null ==>
                ret == null && rs == [] && unchanged(this) && unchanged(cache.mem) && unchanged(old(Body()))
      ensures fd != null ==>
                && fd.outbox == old(fd.outbox) && fd.sends == old(fd.sends)
                && fd.readLog == old(fd.readLog) + rs
                && Got(rs) <= |old(fd.inbox)| && fd.inbox == old(fd.inbox)[Got(rs)..]
                && Reads(old(Acc()), old(fd.inbox)[..Got(rs)], rs, ok, ret)
      ensures fresh(Body() - old(Body())) && (ret != null ==> fresh({ret.mem} - old(Body())))
      decreases !header
    {
      hide Take, Surplus, Accepts, Announced, NotAccepted, Got, Load, Image, Attempt, CallReads;
      hide MsgParser.Shows, MsgParser.Valid;
      ret, rs := null, [];
      if fd != null {
        if !header {
          ghost var acc, inbox := Acc(), fd.inbox;
          var len, done, first := HeaderFromFd(fd, ok);
          NoReads(0);
          if done {
            ret, rs := ReadFd(fd, ok);
          }
          assert fresh(Body()) && (ret != null ==> fresh(ret.mem));
          HalfCall(acc, inbox, len, first, rs, ok);
          rs := first + rs;
        } else {
          ret, rs := BodyFromFd(fd, ok);
        }
      }
    }

    /** MParser_Reset. */
    method Reset()
      requires Valid()
      modifies this
      ensures Valid() && Acc() == [] && msg == null
    {
      InitState();
    }
  }
}
