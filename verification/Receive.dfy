/** ToRecv of msg_parser.c: reading a number of bytes with retries. */
module Receive {
  import opened Wire
  import opened Net

  /** The bytes that a list of reads delivered. */
  function Got(rs: seq<ReadCall>): nat {
    if rs == [] then 0
    else
      var last := rs[|rs| - 1].result;
      Got(rs[..|rs| - 1]) + if last > 0 then last else 0
  }

  function Zeros(rs: seq<ReadCall>): nat {
    if rs == [] then 0 else Zeros(rs[..|rs| - 1]) + if rs[|rs| - 1].result == 0 then 1 else 0
  }

  /** Reading gives up at the first failure and at the seventh read that delivers nothing. */
  predicate GivesUp(rs: seq<ReadCall>) {
    rs != [] && (rs[|rs| - 1].result < 0 || Zeros(rs) >= 7)
  }

  predicate Over(rs: seq<ReadCall>, size: nat) {
    Got(rs) >= size || GivesUp(rs)
  }

  /** Each read asks for all the bytes that are still missing. */
  predicate Asks(rs: seq<ReadCall>, size: nat) {
    forall k :: 0 <= k < |rs| ==> rs[k].size == size - Got(rs[..k])
  }

  /** `rs` are the reads of one attempt at `size` bytes that ended with the last of them, and not earlier. */
  predicate Attempt(rs: seq<ReadCall>, size: nat) {
    Asks(rs, size) && Over(rs, size) && forall k :: 0 <= k < |rs| ==> !Over(rs[..k], size)
  }

  /** An attempt that has not ended yet. */
  predicate Unfinished(rs: seq<ReadCall>, size: nat) {
    Asks(rs, size) && forall k :: 0 <= k <= |rs| ==> !Over(rs[..k], size)
  }

  lemma AsksMore(rs: seq<ReadCall>, r: ReadCall, size: nat)
    requires Asks(rs, size) && r.size == size - Got(rs)
    ensures Asks(rs + [r], size)
  {
    hide Got;
    var t := rs + [r];
    forall k | 0 <= k < |t|
      ensures t[k].size == size - Got(t[..k])
    {
      assert t[..k] == rs[..k] && rs[..|rs|] == rs;
    }
  }

  lemma GotMore(rs: seq<ReadCall>, r: ReadCall)
    ensures Got(rs + [r]) == Got(rs) + if r.result > 0 then r.result else 0
    ensures Zeros(rs + [r]) == Zeros(rs) + if r.result == 0 then 1 else 0
  {
    assert (rs + [r])[..|rs|] == rs;
  }

  lemma NotOverBefore(rs: seq<ReadCall>, r: ReadCall, size: nat)
    requires forall k :: 0 <= k <= |rs| ==> !Over(rs[..k], size)
    ensures forall k :: 0 <= k <= |rs| ==> !Over((rs + [r])[..k], size)
  {
    hide Over;
    forall k | 0 <= k <= |rs|
      ensures !Over((rs + [r])[..k], size)
    {
      assert (rs + [r])[..k] == rs[..k];
    }
  }

  lemma OverAfter(rs: seq<ReadCall>, r: ReadCall, size: nat)
    ensures Over(rs + [r], size) <==> Got(rs + [r]) >= size || r.result < 0 || Zeros(rs + [r]) >= 7
  {
    hide Got, Zeros;
  }

  lemma NextRead(rs: seq<ReadCall>, r: ReadCall, size: nat)
    requires Unfinished(rs, size) && r.size == size - Got(rs)
    ensures Got(rs + [r]) == Got(rs) + if r.result > 0 then r.result else 0
    ensures Zeros(rs + [r]) == Zeros(rs) + if r.result == 0 then 1 else 0
    ensures if Got(rs + [r]) >= size || r.result < 0 || Zeros(rs + [r]) >= 7 then Attempt(rs + [r], size)
            else Unfinished(rs + [r], size)
  {
    hide Asks, Got, Zeros, Over;
    AsksMore(rs, r, size);
    GotMore(rs, r);
    NotOverBefore(rs, r, size);
    OverAfter(rs, r, size);
    var t := rs + [r];
    assert t[..|t|] == t;
  }

  lemma {:induction false} ResultsAppend(a: seq<ReadCall>, b: seq<ReadCall>)
    ensures Got(a + b) == Got(a) + Got(b) && Zeros(a + b) == Zeros(a) + Zeros(b)
  {
    if b == [] {
      assert a + b == a;
    } else {
      assert (a + b)[..|a + b| - 1] == a + b[..|b| - 1];
      ResultsAppend(a, b[..|b| - 1]);
    }
  }

  /** An attempt that has ended either has its bytes or gave up, and not both. */
  lemma AttemptEnds(rs: seq<ReadCall>, size: nat)
    requires Attempt(rs, size)
    ensures Got(rs) >= size <==> !GivesUp(rs)
  {
    if rs != [] {
      var before := rs[..|rs| - 1];
      assert !Over(before, size) && Zeros(before) < 7;
    }
  }

  /** Every read that asks for bytes brings some. */
  predicate Willing(rs: seq<ReadCall>) {
    forall k :: 0 <= k < |rs| && rs[k].size > 0 ==> rs[k].result > 0
  }

  /** An attempt whose reads are willing gets its bytes. */
  lemma WillingAttempt(rs: seq<ReadCall>, size: nat)
    requires Attempt(rs, size) && Willing(rs)
    ensures !GivesUp(rs)
  {
    if rs != [] {
      var n := |rs| - 1;
      assert !Over(rs[..n], size);
      assert rs[n].size == size - Got(rs[..n]) > 0;
      AttemptEnds(rs, size);
      assert n > 0 ==> Zeros(rs[..n]) < 7;
    }
  }

  lemma NoneGiveUp()
    ensures !GivesUp([])
  {
  }

  lemma AttemptGot(rs: seq<ReadCall>, size: nat)
    requires Attempt(rs, size)
    ensures forall k :: 0 <= k < |rs| ==> rs[k].size == size - Got(rs[..k])
    ensures (forall k :: 0 <= k < |rs| && rs[k].size > 0 ==> rs[k].result > 0) ==> Got(rs) >= size
  {
    AttemptEnds(rs, size);
    if Willing(rs) {
      WillingAttempt(rs, size);
    }
  }

  lemma {:induction false} ZerosCount(rs: seq<ReadCall>)
    ensures Zeros(rs) == |set k | 0 <= k < |rs| && rs[k].result == 0|
  {
    if rs != [] {
      var most := rs[..|rs| - 1];
      ZerosCount(most);
      var zs := set k | 0 <= k < |most| && most[k].result == 0;
      assert (set k | 0 <= k < |rs| && rs[k].result == 0) ==
             if rs[|most|].result == 0 then zs + {|most|} else zs;
    }
  }

  /** What an attempt that stays short of its bytes came to: its last read failed, or was the seventh that brought
      nothing; none before it failed, and no more than six brought nothing. */
  lemma ShortAttempt(rs: seq<ReadCall>, size: nat)
    requires Attempt(rs, size)
    ensures var zeros := set k | 0 <= k < |rs| && rs[k].result == 0;
            && (forall k :: 0 <= k < |rs| - 1 ==> rs[k].result >= 0)
            && (Got(rs) < size ==> rs != [] && if rs[|rs| - 1].result < 0 then |zeros| <= 6
                                               else rs[|rs| - 1].result == 0 && |zeros| == 7)
            && (Got(rs) >= size ==> |zeros| <= 6 && (rs != [] ==> rs[|rs| - 1].result > 0))
  {
    AttemptEnds(rs, size);
    ZerosCount(rs);
    forall k | 0 <= k < |rs| - 1
      ensures rs[k].result >= 0
    {
      assert rs[..k + 1][k] == rs[k] && !Over(rs[..k + 1], size);
    }
    if rs != [] {
      assert !Over(rs[..|rs| - 1], size);
    }
  }

  lemma NoReads(size: nat)
    ensures Got([]) == Zeros([]) == 0
    ensures if size == 0 then Attempt([], size) else Unfinished([], size)
  {
  }

  /** `rs` are the reads that the call makes. */
  method ToRecv(fd: Socket, buf: array<byte>, at: nat, size: nat) returns (i: nat, ghost rs: seq<ReadCall>)
    requires at + size <= buf.Length
    modifies fd`inbox, fd`readLog, buf
    ensures i <= size && i <= |old(fd.inbox)|
    ensures fd.inbox == old(fd.inbox)[i..]
    ensures buf[at..at + i] == old(fd.inbox)[..i]
    ensures forall k :: 0 <= k < buf.Length && !(at <= k < at + i) ==> buf[k] == old(buf[k])
    ensures fd.readLog == old(fd.readLog) + rs
    ensures i == Got(rs) && Attempt(rs, size)
    ensures forall k :: 0 <= k < |rs| ==> rs[k].size == size - Got(rs[..k])
    ensures (forall k :: 0 <= k < |rs| && rs[k].size > 0 ==> rs[k].result > 0) ==> i == size
  {
    hide GivesUp, Over, Asks, Attempt, Unfinished, Got, Zeros;
    var retry := 0;
    i, rs := 0, [];
    ghost var inbox := fd.inbox;
    NoReads(size);
    while i < size
      invariant i <= size && i <= |inbox| && fd.inbox == inbox[i..]
      invariant forall k :: at <= k < at + i ==> buf[k] == inbox[k - at]
      invariant forall k :: 0 <= k < buf.Length && !(at <= k < at + i) ==> buf[k] == old(buf[k])
      invariant fd.readLog == old(fd.readLog) + rs
      invariant i == Got(rs) && retry == Zeros(rs) <= 6
      invariant if i < size then Unfinished(rs, size) else Attempt(rs, size)
      decreases size - i, 7 - retry
    {
      var len := fd.Read(buf, at + i, size - i);
      NextRead(rs, ReadCall(size - i, len), size);
      rs := rs + [ReadCall(size - i, len)];
      if len > 0 {
        i := i + len;
      } else if len < 0 {
        break;
      } else {
        if retry > 5 {
          break;
        }
        retry := retry + 1;
      }
    }
    AttemptGot(rs, size);
  }
}
