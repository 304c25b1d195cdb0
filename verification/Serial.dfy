/** The serial port driver, over a line whose answers to port reads are arbitrary. */
module Serial {
  import opened Grids
  import opened ByteQueue

  /** What the port answers, call by call: a byte, or a failed call. A write is answered too; only whether it failed
      matters. When the answers have run out every call fails. */
  type Replies = seq<Option<Byte>>

  newtype Byte = b: int | 0 <= b < 256

  function Head(r: Replies): Option<Byte> {
    if r == [] then None else r[0]
  }

  function Tail(r: Replies): Replies {
    if r == [] then [] else r[1..]
  }

  /** Whether the bit with the given weight is set. */
  predicate Bit(b: Byte, weight: int)
    requires weight > 0
  {
    (b as int / weight) % 2 == 1
  }

  predicate DataReady(status: Byte) { Bit(status, 1) }

  predicate TransmitterReady(status: Byte) { Bit(status, 0x20) }

  /** The port as the driver sees it: answers to come, and bytes written so far. */
  class Port {
    var replies: Replies
    var sent: seq<char>

    method In() returns (r: Option<Byte>)
      modifies this`replies
      ensures r == Head(old(replies)) && replies == Tail(old(replies))
    {
      r, replies := Head(replies), Tail(replies);
    }

    /** A write that fails puts nothing on the line. */
    method Out(c: char) returns (ok: bool)
      modifies this
      ensures ok == Head(old(replies)).Some? && replies == Tail(old(replies))
      ensures sent == old(sent) + if ok then [c] else []
    {
      ok, replies := Head(replies).Some?, Tail(replies);
      if ok { sent := sent + [c]; }
    }
  }

  // ----- sending

  const ATTEMPTS := 10

  /** What comes of offering a byte to the line - whether the write went well is not looked at - and the answers left
      then. */
  datatype Offer = Written(out: bool, rest: Replies) | GivenUp(rest: Replies) | Broken(rest: Replies)

  function Try(r: Replies, attempts: nat): (o: Offer)
    ensures |o.rest| <= |r|
  {
    if attempts == 0 then GivenUp(r)
    else if Head(r).None? then Broken(Tail(r))
    else if TransmitterReady(Head(r).value) then Written(Head(Tail(r)).Some?, Tail(Tail(r)))
    else Try(Tail(r), attempts - 1)
  }

  /** How sending ends: the bytes that went out and those still in the queue. */
  datatype Sending = Sending(ok: bool, sent: seq<char>, left: seq<char>, rest: Replies)

  function Send(bytes: seq<char>, r: Replies): Sending
    decreases |r|
  {
    if bytes == [] then Sending(true, [], [], r)
    else if Head(r).None? then Sending(false, [], bytes, Tail(r))
    else if Head(Tail(r)).None? then Sending(false, [], bytes, Tail(Tail(r)))
    else if !TransmitterReady(Head(Tail(r)).value) then Send(bytes, Tail(Tail(r)))
    else
      match Try(Tail(Tail(r)), ATTEMPTS)
      case Broken(rest) => Sending(false, [], bytes, rest)
      case GivenUp(rest) => Send(bytes[1..], rest)
      case Written(out, rest) => Continued(if out then [bytes[0]] else [], Send(bytes[1..], rest))
  }

  /** The sending s, after the bytes before have gone out. */
  function Continued(before: seq<char>, s: Sending): Sending {
    s.(sent := before + s.sent)
  }

  lemma {:induction false} InParts(a: seq<char>, b: seq<char>, c: seq<char>)
    ensures a + b + c == a + (b + c)
  {}

  lemma {:induction false} SplitAt(s: seq<char>, n: nat)
    requires n < |s|
    ensures s[..n] + [s[n]] == s[..n + 1] && s[n..][0] == s[n] && s[n..][1..] == s[n + 1..]
  {}

  lemma {:induction false} ContinuedTwice(a: seq<char>, b: seq<char>, s: Sending)
    ensures Continued(a, Continued(b, s)) == Continued(a + b, s)
  {
    InParts(a, b, s.sent);
  }

  lemma {:induction false} SendNothing(r: Replies)
    ensures Send([], r) == Sending(true, [], [], r)
  {}

  /** a can be had from b by leaving bytes out. */
  predicate Subsequence(a: seq<char>, b: seq<char>) {
    if b == [] then a == []
    else Subsequence(a, b[1..]) || (a != [] && a[0] == b[0] && Subsequence(a[1..], b[1..]))
  }

  lemma {:induction false} SubsequenceSize(a: seq<char>, b: seq<char>)
    requires Subsequence(a, b)
    ensures |a| <= |b|
  {
    if b != [] {
      if Subsequence(a, b[1..]) { SubsequenceSize(a, b[1..]); } else { SubsequenceSize(a[1..], b[1..]); }
    }
  }

  lemma {:induction false} SubsequenceGrows(a: seq<char>, b: seq<char>)
    requires b != [] && Subsequence(a, b[1..])
    ensures Subsequence(a, b) && Subsequence([b[0]] + a, b)
  {
    assert ([b[0]] + a)[1..] == a;
  }

  /** Whatever the line answers: the bytes are dealt with in order, those that go out are among those dealt with, in
      order, and the call succeeds exactly when none is left. */
  lemma {:induction false} SentInOrder(bytes: seq<char>, r: Replies)
    ensures var s := Send(bytes, r);
      && |s.left| <= |bytes| && s.left == bytes[|bytes| - |s.left|..]
      && Subsequence(s.sent, bytes[..|bytes| - |s.left|])
      && (s.ok <==> s.left == [])
    decreases |r|
  {
    if bytes != [] && Head(r).Some? && Head(Tail(r)).Some? {
      if !TransmitterReady(Head(Tail(r)).value) {
        SentInOrder(bytes, Tail(Tail(r)));
      } else {
        var o := Try(Tail(Tail(r)), ATTEMPTS);
        if !o.Broken? {
          SentInOrder(bytes[1..], o.rest);
          var s := Send(bytes[1..], o.rest);
          var n := |bytes| - |s.left|;
          assert bytes[..n][1..] == bytes[1..][..n - 1];
          SubsequenceGrows(s.sent, bytes[..n]);
          assert [] + s.sent == s.sent;
        }
      }
    }
  }

  /** No byte of the n to send meets ten status words in a row without the ready bit, or a write that fails. */
  predicate Attended(n: nat, r: Replies)
    decreases |r|
  {
    n == 0 || Head(r).None? || Head(Tail(r)).None? ||
    if !TransmitterReady(Head(Tail(r)).value) then Attended(n, Tail(Tail(r)))
    else
      var o := Try(Tail(Tail(r)), ATTEMPTS);
      !o.GivenUp? && (o.Written? ==> o.out && Attended(n - 1, o.rest))
  }

  /** A call that succeeds has sent every byte exactly when no byte was given up and no write failed. */
  lemma {:induction false} AllSentIffAttended(bytes: seq<char>, r: Replies)
    requires Send(bytes, r).ok
    ensures Send(bytes, r).sent == bytes <==> Attended(|bytes|, r)
    decreases |r|
  {
    if bytes != [] {
      if !TransmitterReady(Head(Tail(r)).value) {
        AllSentIffAttended(bytes, Tail(Tail(r)));
      } else {
        var o := Try(Tail(Tail(r)), ATTEMPTS);
        AllSentIffAttended(bytes[1..], o.rest);
        assert bytes == [bytes[0]] + bytes[1..];
        SentInOrder(bytes[1..], o.rest);
        assert bytes[1..][..|bytes| - 1] == bytes[1..];
        SubsequenceSize(Send(bytes[1..], o.rest).sent, bytes[1..]);
      }
    }
  }

  /** The transmitter stays ready until something is written - a ready line status is followed by a ready status - and
      no write fails. */
  predicate Steady(r: Replies)
    decreases |r|
  {
    |r| < 3 || r[1].None? ||
    if !TransmitterReady(r[1].value) then Steady(r[2..])
    else r[2].Some? ==> TransmitterReady(r[2].value) && |r| > 3 && r[3].Some? && Steady(r[4..])
  }

  lemma {:induction false} SteadyIsAttended(n: nat, r: Replies)
    requires Steady(r)
    ensures Attended(n, r)
    decreases |r|
  {
    if n > 0 && |r| >= 2 && r[0].Some? && r[1].Some? {
      if !TransmitterReady(r[1].value) {
        if |r| >= 3 { SteadyIsAttended(n, r[2..]); }
      } else if |r| >= 3 && r[2].Some? {
        assert Try(r[2..], ATTEMPTS) == Written(true, r[4..]);
        SteadyIsAttended(n - 1, r[4..]);
      }
    }
  }

  /** Sending can succeed and lose its byte: the status is not ready ten times in a row, or the write fails. */
  lemma SendCanLose()
    ensures var busy: Replies := [Some(1), Some(0x20)] + seq(10, i => Some(0));
      Send(['M'], busy).ok && Send(['M'], busy).sent == []
    ensures var refused: Replies := [Some(1), Some(0x20), Some(0x20), None];
      Send(['M'], refused).ok && Send(['M'], refused).sent == []
  {
    var busy: Replies := [Some(1), Some(0x20)] + seq(10, i => Some(0));
    NeverReady(busy[2..], ATTEMPTS);
    assert Tail(Tail(busy)) == busy[2..];
  }

  lemma {:induction false} NeverReady(r: Replies, attempts: nat)
    requires attempts <= |r| && forall i :: 0 <= i < attempts ==> r[i].Some? && !TransmitterReady(r[i].value)
    ensures Try(r, attempts) == GivenUp(r[attempts..])
  {
    if attempts > 0 { NeverReady(r[1..], attempts - 1); }
  }

  lemma {:induction false} TryReady(r: Replies, k: nat, attempts: nat)
    requires k < attempts && k + 1 < |r| && r[k].Some? && TransmitterReady(r[k].value)
    requires forall i :: 0 <= i < k ==> r[i].Some? && !TransmitterReady(r[i].value)
    ensures Try(r, attempts) == Written(r[k + 1].Some?, r[k + 2..])
    decreases k
  {
    if k > 0 { TryReady(r[1..], k - 1, attempts - 1); }
  }

  /** A round of sending by its answers, after one to the interrupt's identification and a ready line status: if one of
      the next ten statuses has the ready bit, the byte is written there, and goes out if that write succeeds; the byte
      is dropped if none of the ten has. */
  lemma {:induction false} SendLaw(bytes: seq<char>, iir: Byte, lsr: Byte, r: Replies)
    requires bytes != [] && (lsr / 32) % 2 == 1
    ensures forall k :: 0 <= k < 10 && k + 1 < |r| && ReadyFirstAt(r, k) ==>
      Send(bytes, [Some(iir), Some(lsr)] + r) ==
      Continued(if r[k + 1].Some? then [bytes[0]] else [], Send(bytes[1..], r[k + 2..]))
    ensures |r| >= 10 && NotReady(r, 10) ==> Send(bytes, [Some(iir), Some(lsr)] + r) == Send(bytes[1..], r[10..])
  {
    var whole := [Some(iir), Some(lsr)] + r;
    assert Tail(Tail(whole)) == r && Head(Tail(whole)) == Some(lsr);
    ReadyBit(lsr);
    forall i | 0 <= i < |r| && r[i].Some? ensures TransmitterReady(r[i].value) <==> (r[i].value / 32) % 2 == 1 {
      ReadyBit(r[i].value);
    }
    hide TransmitterReady;
    forall k | 0 <= k < 10 && k + 1 < |r| && ReadyFirstAt(r, k)
      ensures Try(r, 10) == Written(r[k + 1].Some?, r[k + 2..])
    {
      TryReady(r, k, 10);
    }
    if |r| >= 10 && NotReady(r, 10) { NeverReady(r, 10); }
  }

  /** The first k answers are statuses without the ready bit. */
  predicate NotReady(r: Replies, k: nat)
    requires k <= |r|
  {
    forall i :: 0 <= i < k ==> r[i].Some? && (r[i].value / 32) % 2 == 0
  }

  predicate ReadyFirstAt(r: Replies, k: int)
    requires 0 <= k < |r|
  {
    NotReady(r, k) && r[k].Some? && (r[k].value / 32) % 2 == 1
  }

  lemma ReadyBit(status: Byte)
    ensures TransmitterReady(status) <==> (status / 32) % 2 == 1
  {}

  // ----- receiving

  /** What an interrupt does: the bytes it reads, how many it writes, and the answers left then. */
  datatype Handling = Handling(ok: bool, batch: seq<char>, written: nat, rest: Replies)

  function AsChar(b: Byte): char {
    b as char
  }

  function Gather(status: Byte, r: Replies): (h: Handling)
    ensures h.written == 0
    decreases |r|
  {
    if !DataReady(status) then Handling(true, [], 0, r)
    else if Head(r).None? then Handling(false, [], 0, Tail(r))
    else if Head(Tail(r)).None? then Handling(false, [AsChar(r[0].value)], 0, Tail(Tail(r)))
    else
      Following([AsChar(r[0].value)], Gather(r[1].value, r[2..]))
  }

  function Drain(status: Byte, n: nat, r: Replies): (h: Handling)
    ensures h.batch == [] && h.written <= n
    decreases n
  {
    if !TransmitterReady(status) || n == 0 then Handling(true, [], 0, r)
    else if Head(r).None? then Handling(false, [], 0, Tail(r))
    else if Head(Tail(r)).None? then Handling(false, [], 1, Tail(Tail(r)))
    else AfterWriting(1, Drain(r[1].value, n - 1, r[2..]))
  }

  /** The handling h, after n bytes have been written. */
  function AfterWriting(n: nat, h: Handling): Handling {
    h.(written := n + h.written)
  }

  lemma {:induction false} DrainNothing(status: Byte, n: nat, r: Replies)
    requires !TransmitterReady(status) || n == 0
    ensures Drain(status, n, r) == Handling(true, [], 0, r)
  {}

  /** The handling h, after the bytes read have come in. */
  function Following(read: seq<char>, h: Handling): Handling {
    h.(batch := read + h.batch)
  }

  lemma {:induction false} FollowingTwice(a: seq<char>, b: seq<char>, h: Handling)
    ensures Following(a, Following(b, h)) == Following(a + b, h)
  {
    InParts(a, b, h.batch);
  }

  lemma {:induction false} GatherNothing(status: Byte, r: Replies)
    requires !DataReady(status)
    ensures Gather(status, r) == Handling(true, [], 0, r)
  {}

  /** The interrupt with n bytes in the transmit queue. */
  function Handle(n: nat, r: Replies): (h: Handling)
    ensures h.written <= n
  {
    if Head(r).None? then Handling(false, [], 0, Tail(r))
    else if Bit(r[0].value, 1) then Handling(true, [], 0, r[1..])
    else if Head(r[1..]).None? then Handling(false, [], 0, Tail(r[1..]))
    else if Bit(r[0].value, 2) then Drain(r[1].value, n, r[2..])
    else if Bit(r[0].value, 4) then Gather(r[1].value, r[2..])
    else Handling(true, [], 0, r[2..])
  }

  /** The bytes read are every second answer, */
  lemma {:induction false} GatherBytes(status: Byte, r: Replies)
    ensures var h := Gather(status, r);
      && 2 * |h.batch| <= |r| + 1
      && forall i :: 0 <= i < |h.batch| ==> r[2 * i].Some? && AsChar(r[2 * i].value) == h.batch[i]
    decreases |r|
  {
    if DataReady(status) && |r| >= 2 && r[0].Some? && r[1].Some? {
      GatherBytes(r[1].value, r[2..]);
      var h, h' := Gather(status, r), Gather(r[1].value, r[2..]);
      forall i | 0 <= i < |h.batch| ensures r[2 * i].Some? && AsChar(r[2 * i].value) == h.batch[i] {
        if i > 0 { assert r[2 * i] == r[2..][2 * (i - 1)] && h.batch[i] == h'.batch[i - 1]; }
      }
    }
  }

  /** the answers between them are statuses with the data bit, */
  lemma {:induction false} GatherStatuses(status: Byte, r: Replies)
    ensures var n := |Gather(status, r).batch|;
      && 2 * n <= |r| + 1
      && forall i :: 0 < i < n ==> r[2 * i - 1].Some? && DataReady(r[2 * i - 1].value)
    decreases |r|
  {
    if DataReady(status) && |r| >= 2 && r[0].Some? && r[1].Some? {
      GatherStatuses(r[1].value, r[2..]);
      forall i | 0 < i < |Gather(status, r).batch| ensures r[2 * i - 1].Some? && DataReady(r[2 * i - 1].value) {
        if i > 1 { assert r[2 * i - 1] == r[2..][2 * (i - 1) - 1]; }
      }
    }
  }

  /** and it goes well exactly if a status without the data bit ends it. */
  lemma {:induction false} GatherEnds(status: Byte, r: Replies)
    ensures var h := Gather(status, r); var n := |h.batch|;
      && 2 * n <= |r| + 1
      && (h.ok <==> if n == 0 then !DataReady(status)
                    else 2 * n <= |r| && r[2 * n - 1].Some? && !DataReady(r[2 * n - 1].value))
    decreases |r|
  {
    if DataReady(status) && |r| >= 2 && r[0].Some? && r[1].Some? {
      GatherEnds(r[1].value, r[2..]);
      var n := |Gather(r[1].value, r[2..]).batch|;
      if 0 < n && 2 * n <= |r| - 2 { assert r[2..][2 * n - 1] == r[2 * n + 1]; }
    }
  }

  /** The batch is what stood at the port: a byte for each line status in a row with the data bit. */
  lemma {:induction false} GatherReadsAll(status: Byte, r: Replies)
    ensures var h := Gather(status, r); var n := |h.batch|;
      && 2 * n <= |r| + 1
      && (forall i :: 0 <= i < n ==> r[2 * i].Some? && AsChar(r[2 * i].value) == h.batch[i])
      && (forall i :: 0 < i < n ==> r[2 * i - 1].Some? && DataReady(r[2 * i - 1].value))
      && (h.ok <==> if n == 0 then !DataReady(status)
                    else 2 * n <= |r| && r[2 * n - 1].Some? && !DataReady(r[2 * n - 1].value))
  {
    GatherBytes(status, r);
    GatherStatuses(status, r);
    GatherEnds(status, r);
  }

  // ----- the interrupt in the port's answers and their bits

  /** The first n answers are bytes. */
  predicate Answered(r: Replies, n: nat) {
    n <= |r| && forall i :: 0 <= i < n ==> r[i].Some?
  }

  /** The i-th line status of an interrupt: it follows the interrupt's identification, and every byte moved. */
  function StatusAt(r: Replies, i: nat): Byte
    requires Answered(r, 2 + 2 * i)
  {
    r[1 + 2 * i].value
  }

  /** An interrupt is pending, for data at the port; the first k line statuses have the data bit, the next has not. */
  predicate Receives(r: Replies, k: nat) {
    && Answered(r, 2 + 2 * k)
    && r[0].value % 2 == 0 && (r[0].value / 2) % 2 == 0 && (r[0].value / 4) % 2 == 1
    && (forall i :: 0 <= i < k ==> StatusAt(r, i) % 2 == 1)
    && StatusAt(r, k) % 2 == 0
  }

  /** The bytes between the statuses. */
  function DataRead(r: Replies, k: nat): (s: seq<char>)
    requires Answered(r, 2 + 2 * k)
  {
    seq(k, i requires 0 <= i < k => r[2 + 2 * i].value as char)
  }

  /** An interrupt is pending, for the transmitter; with n bytes queued it can take k of them, one for each line status
      with the ready bit, until the queue is empty or the bit is clear. */
  predicate Transmits(r: Replies, n: nat, k: nat) {
    && k <= n && Answered(r, 2 + 2 * k)
    && r[0].value % 2 == 0 && (r[0].value / 2) % 2 == 1
    && (forall i :: 0 <= i < k ==> (StatusAt(r, i) / 32) % 2 == 1)
    && (k == n || (StatusAt(r, k) / 32) % 2 == 0)
  }

  /** Nothing is pending, or something is that is neither for the transmitter nor for data. */
  predicate Idles(r: Replies) {
    && Answered(r, 1)
    && (r[0].value % 2 == 1 || (Answered(r, 2) && (r[0].value / 2) % 2 == 0 && (r[0].value / 4) % 2 == 0))
  }

  /** The answers r of an interrupt whose first line status has been read. */
  function Whole(status: Byte, r: Replies): Replies {
    [Some(0), Some(status)] + r
  }

  /** After a byte has moved and a status has been read, the rest looks the same, one place on. */
  lemma {:induction false} OnePlaceOn(status: Byte, r: Replies, k: nat)
    requires k > 0 && Answered(Whole(status, r), 2 + 2 * k)
    ensures StatusAt(Whole(status, r), 0) == status && |r| >= 2 && r[0].Some? && r[1].Some?
    ensures Answered(Whole(r[1].value, r[2..]), 2 + 2 * (k - 1))
    ensures forall i :: 0 <= i <= k - 1 ==> StatusAt(Whole(r[1].value, r[2..]), i) == StatusAt(Whole(status, r), i + 1)
    ensures DataRead(Whole(status, r), k) == [r[0].value as char] + DataRead(Whole(r[1].value, r[2..]), k - 1)
  {
    var whole := Whole(status, r);
    assert r[0] == whole[2] && r[1] == whole[3];
    var next := Whole(r[1].value, r[2..]);
    forall i | 0 < i < 2 * k ensures next[i] == whole[i + 2] {}
    forall i | 0 <= i <= k - 1 ensures StatusAt(next, i) == StatusAt(whole, i + 1) {
      assert next[1 + 2 * i] == whole[1 + 2 * (i + 1)];
    }
    forall i | 0 < i < k ensures DataRead(whole, k)[i] == DataRead(next, k - 1)[i - 1] {
      assert whole[2 + 2 * i] == next[2 + 2 * (i - 1)];
    }
  }

  lemma {:induction false} GatherLaw(status: Byte, r: Replies, k: nat)
    requires Answered(Whole(status, r), 2 + 2 * k)
    requires forall i :: 0 <= i < k ==> DataReady(StatusAt(Whole(status, r), i))
    requires !DataReady(StatusAt(Whole(status, r), k))
    ensures Gather(status, r) == Handling(true, DataRead(Whole(status, r), k), 0, r[2 * k..])
    decreases k
  {
    hide DataReady;
    if k == 0 {
      assert StatusAt(Whole(status, r), 0) == status && r[0..] == r;
    } else {
      OnePlaceOn(status, r, k);
      hide StatusAt, Answered, Whole, DataRead;
      GatherLaw(r[1].value, r[2..], k - 1);
      assert DataReady(status) && r[2..][2 * (k - 1)..] == r[2 * k..];
    }
  }

  lemma {:induction false} DrainLaw(status: Byte, n: nat, r: Replies, k: nat)
    requires k <= n && Answered(Whole(status, r), 2 + 2 * k)
    requires forall i :: 0 <= i < k ==> TransmitterReady(StatusAt(Whole(status, r), i))
    requires k == n || !TransmitterReady(StatusAt(Whole(status, r), k))
    ensures Drain(status, n, r) == Handling(true, [], k, r[2 * k..])
    decreases k
  {
    hide TransmitterReady;
    if k == 0 {
      assert StatusAt(Whole(status, r), 0) == status && r[0..] == r;
    } else {
      OnePlaceOn(status, r, k);
      hide StatusAt, Answered, Whole, DataRead;
      DrainLaw(r[1].value, n - 1, r[2..], k - 1);
      assert TransmitterReady(status) && r[2..][2 * (k - 1)..] == r[2 * k..];
    }
  }

  lemma DataBit(status: Byte)
    ensures DataReady(status) <==> status % 2 == 1
  {}

  /** The identification does not matter for what follows. */
  lemma {:induction false} AfterIdentification(r: Replies, k: nat)
    requires Answered(r, 2 + 2 * k)
    ensures Answered(Whole(r[1].value, r[2..]), 2 + 2 * k) && r[2..][2 * k..] == r[2 + 2 * k..]
    ensures forall i :: 0 <= i <= k ==> StatusAt(Whole(r[1].value, r[2..]), i) == StatusAt(r, i)
    ensures DataRead(Whole(r[1].value, r[2..]), k) == DataRead(r, k)
  {
    var whole := Whole(r[1].value, r[2..]);
    forall i | 0 < i < |r| ensures whole[i] == r[i] {}
    forall i | 0 <= i <= k ensures StatusAt(whole, i) == StatusAt(r, i) {
      assert whole[1 + 2 * i] == r[1 + 2 * i];
    }
    forall i | 0 <= i < k ensures DataRead(whole, k)[i] == DataRead(r, k)[i] {
      assert whole[2 + 2 * i] == r[2 + 2 * i];
    }
  }

  lemma {:induction false} ReceiveLaw(n: nat, r: Replies, k: nat)
    requires Receives(r, k)
    ensures Handle(n, r) == Handling(true, DataRead(r, k), 0, r[2 + 2 * k..])
  {
    AfterIdentification(r, k);
    forall i | 0 <= i <= k ensures DataReady(StatusAt(r, i)) <==> StatusAt(r, i) % 2 == 1 {
      DataBit(StatusAt(r, i));
    }
    assert Head(r[1..]).Some? && r[1..][0] == r[1];
    hide DataReady, StatusAt, Whole, DataRead;
    GatherLaw(r[1].value, r[2..], k);
  }

  lemma {:induction false} TransmitLaw(n: nat, r: Replies, k: nat)
    requires Transmits(r, n, k)
    ensures Handle(n, r) == Handling(true, [], k, r[2 + 2 * k..])
  {
    AfterIdentification(r, k);
    forall i | 0 <= i <= k ensures TransmitterReady(StatusAt(r, i)) <==> (StatusAt(r, i) / 32) % 2 == 1 {
      ReadyBit(StatusAt(r, i));
    }
    assert Head(r[1..]).Some? && r[1..][0] == r[1];
    hide TransmitterReady, StatusAt, Whole, DataRead;
    DrainLaw(r[1].value, n, r[2..], k);
  }

  lemma {:induction false} IdleLaw(n: nat, r: Replies)
    requires Idles(r)
    ensures Handle(n, r).ok && Handle(n, r).batch == [] && Handle(n, r).written == 0
    ensures Handle(n, r).rest == r[if r[0].value % 2 == 1 then 1 else 2..]
  {}

  // ----- the same when a call fails

  lemma {:induction false} OnePlaceOnUpTo(status: Byte, r: Replies, m: nat)
    requires m >= 4 && Answered(Whole(status, r), m)
    ensures StatusAt(Whole(status, r), 0) == status && |r| >= 2 && r[0].Some? && r[1].Some?
    ensures Answered(Whole(r[1].value, r[2..]), m - 2)
    ensures forall i :: 0 <= i && 2 + 2 * i <= m - 2 ==>
      StatusAt(Whole(r[1].value, r[2..]), i) == StatusAt(Whole(status, r), i + 1)
    ensures Whole(r[1].value, r[2..])[m - 2..] == Whole(status, r)[m..]
  {
    var whole := Whole(status, r);
    assert r[0] == whole[2] && r[1] == whole[3];
    var next := Whole(r[1].value, r[2..]);
    forall i | 0 < i < m - 2 ensures next[i] == whole[i + 2] {}
    forall i | 0 <= i && 2 + 2 * i <= m - 2 ensures StatusAt(next, i) == StatusAt(whole, i + 1) {
      assert next[1 + 2 * i] == whole[1 + 2 * (i + 1)];
    }
  }

  /** How many answers come before the failed call, when k bytes have moved and the failed call is to move the next one,
      or to read the status after the last one. */
  function Before(k: nat, moving: bool): nat {
    if moving then 2 + 2 * k else 1 + 2 * k
  }

  lemma {:induction false} WholeParts(status: Byte, r: Replies)
    ensures Whole(status, r)[2..] == r && |Whole(status, r)| == |r| + 2
    ensures |r| > 0 ==> Whole(status, r)[2] == r[0] && Whole(status, r)[3..] == r[1..]
  {}

  lemma {:induction false} FirstStatus(status: Byte, r: Replies, m: nat)
    requires m >= 2 && Answered(Whole(status, r), m)
    ensures StatusAt(Whole(status, r), 0) == status
  {}

  lemma {:induction false} GatherStep(status: Byte, r: Replies)
    requires DataReady(status)
    ensures |r| >= 2 && r[0].Some? && r[1].Some? ==>
      Gather(status, r) == Following([AsChar(r[0].value)], Gather(r[1].value, r[2..]))
    ensures Head(r).None? ==> Gather(status, r) == Handling(false, [], 0, Tail(r))
    ensures Head(r).Some? && Head(r[1..]).None? ==>
      Gather(status, r) == Handling(false, [AsChar(r[0].value)], 0, Tail(r[1..]))
  {}

  lemma {:induction false} GatherStopsSoon(status: Byte, r: Replies, k: nat, moving: bool)
    requires DataReady(status) && k == (if moving then 0 else 1) && Answered(Whole(status, r), Before(k, moving))
    requires Head(Whole(status, r)[Before(k, moving)..]).None?
    ensures var h := Gather(status, r); !h.ok && |h.batch| == k && h.rest == Tail(Whole(status, r)[Before(k, moving)..])
  {
    WholeParts(status, r);
    GatherStep(status, r);
    hide Gather, DataReady, Whole;
  }

  lemma {:induction false} GatherStops(status: Byte, r: Replies, k: nat, moving: bool)
    requires (moving || k > 0) && Answered(Whole(status, r), Before(k, moving))
    requires forall i :: 0 <= i && 2 + 2 * i <= Before(k, moving) ==> DataReady(StatusAt(Whole(status, r), i))
    requires Head(Whole(status, r)[Before(k, moving)..]).None?
    ensures var h := Gather(status, r);
      !h.ok && |h.batch| == k && h.rest == Tail(Whole(status, r)[Before(k, moving)..])
    decreases k
  {
    hide Gather, DataReady, StatusAt, Answered, Whole;
    FirstStatus(status, r, Before(k, moving));
    if k == (if moving then 0 else 1) {
      GatherStopsSoon(status, r, k, moving);
    } else {
      OnePlaceOnUpTo(status, r, Before(k, moving));
      GatherStep(status, r);
      GatherStops(r[1].value, r[2..], k - 1, moving);
    }
  }

  lemma {:induction false} DrainStep(status: Byte, n: nat, r: Replies)
    requires TransmitterReady(status) && n > 0
    ensures |r| >= 2 && r[0].Some? && r[1].Some? ==>
      Drain(status, n, r) == AfterWriting(1, Drain(r[1].value, n - 1, r[2..]))
    ensures Head(r).None? ==> Drain(status, n, r) == Handling(false, [], 0, Tail(r))
    ensures Head(r).Some? && Head(r[1..]).None? ==> Drain(status, n, r) == Handling(false, [], 1, Tail(r[1..]))
  {}

  lemma {:induction false} DrainStopsSoon(status: Byte, n: nat, r: Replies, k: nat, moving: bool)
    requires n > 0 && TransmitterReady(status) && k == (if moving then 0 else 1)
    requires Answered(Whole(status, r), Before(k, moving))
    requires Head(Whole(status, r)[Before(k, moving)..]).None?
    ensures var h := Drain(status, n, r);
      !h.ok && h.written == k && h.rest == Tail(Whole(status, r)[Before(k, moving)..])
  {
    WholeParts(status, r);
    DrainStep(status, n, r);
    hide Drain, TransmitterReady, Whole;
  }

  lemma {:induction false} DrainStops(status: Byte, n: nat, r: Replies, k: nat, moving: bool)
    requires (if moving then k < n else 0 < k <= n) && Answered(Whole(status, r), Before(k, moving))
    requires forall i :: 0 <= i && 2 + 2 * i <= Before(k, moving) ==> TransmitterReady(StatusAt(Whole(status, r), i))
    requires Head(Whole(status, r)[Before(k, moving)..]).None?
    ensures var h := Drain(status, n, r);
      !h.ok && h.written == k && h.rest == Tail(Whole(status, r)[Before(k, moving)..])
    decreases k
  {
    hide Drain, TransmitterReady, StatusAt, Answered, Whole;
    FirstStatus(status, r, Before(k, moving));
    if k == (if moving then 0 else 1) {
      DrainStopsSoon(status, n, r, k, moving);
    } else {
      OnePlaceOnUpTo(status, r, Before(k, moving));
      DrainStep(status, n, r);
      DrainStops(r[1].value, n - 1, r[2..], k - 1, moving);
    }
  }

  /** A pending interrupt for data in which a call fails: the bytes read before that are kept. */
  lemma {:induction false} ReceiveStops(n: nat, r: Replies, k: nat, moving: bool)
    requires (moving || k > 0) && Answered(r, Before(k, moving)) && Head(r[Before(k, moving)..]).None?
    requires r[0].value % 2 == 0 && (r[0].value / 2) % 2 == 0 && (r[0].value / 4) % 2 == 1
    requires forall i :: 0 <= i && 2 + 2 * i <= Before(k, moving) ==> StatusAt(r, i) % 2 == 1
    ensures var h := Handle(n, r);
      && !h.ok && h.written == 0 && h.rest == Tail(r[Before(k, moving)..])
      && |h.batch| == k && forall i :: 0 <= i < k ==> h.batch[i] == r[2 + 2 * i].value as char
  {
    var status, rest := r[1].value, r[2..];
    assert Head(r[1..]).Some? && r[1..][0] == r[1];
    SameAfterIdentification(r, Before(k, moving));
    forall i | 0 <= i && 2 + 2 * i <= Before(k, moving) ensures DataReady(StatusAt(r, i)) { DataBit(StatusAt(r, i)); }
    GatherBytes(status, rest);
    hide DataReady, StatusAt, Whole, Gather;
    GatherStops(status, rest, k, moving);
    forall i | 0 <= i < k ensures Gather(status, rest).batch[i] == r[2 + 2 * i].value as char {
      assert rest[2 * i] == r[2 + 2 * i];
    }
  }

  /** A pending interrupt for the transmitter in which a call fails: a byte whose write failed stays queued, one whose
      write went well does not, whatever comes of the status read after it. */
  lemma {:induction false} TransmitStops(n: nat, r: Replies, k: nat, moving: bool)
    requires (if moving then k < n else 0 < k <= n) && Answered(r, Before(k, moving))
    requires Head(r[Before(k, moving)..]).None? && r[0].value % 2 == 0 && (r[0].value / 2) % 2 == 1
    requires forall i :: 0 <= i && 2 + 2 * i <= Before(k, moving) ==> (StatusAt(r, i) / 32) % 2 == 1
    ensures var h := Handle(n, r);
      !h.ok && h.batch == [] && h.written == k && h.rest == Tail(r[Before(k, moving)..])
  {
    assert Head(r[1..]).Some? && r[1..][0] == r[1];
    SameAfterIdentification(r, Before(k, moving));
    forall i | 0 <= i && 2 + 2 * i <= Before(k, moving) ensures TransmitterReady(StatusAt(r, i)) {
      ReadyBit(StatusAt(r, i));
    }
    hide TransmitterReady, StatusAt, Whole;
    DrainStops(r[1].value, n, r[2..], k, moving);
  }

  lemma {:induction false} SameAfterIdentification(r: Replies, m: nat)
    requires m >= 2 && Answered(r, m)
    ensures Answered(Whole(r[1].value, r[2..]), m) && Whole(r[1].value, r[2..])[m..] == r[m..]
    ensures forall i :: 0 <= i && 2 + 2 * i <= m ==> StatusAt(Whole(r[1].value, r[2..]), i) == StatusAt(r, i)
  {
    var whole := Whole(r[1].value, r[2..]);
    forall i | 0 < i < |r| ensures whole[i] == r[i] {}
    forall i | 0 <= i && 2 + 2 * i <= m ensures StatusAt(whole, i) == StatusAt(r, i) {
      assert whole[1 + 2 * i] == r[1 + 2 * i];
    }
  }

  lemma {:induction false} InterruptLaws(n: nat, r: Replies)
    ensures forall k: nat :: Receives(r, k) ==> Handle(n, r) == Handling(true, DataRead(r, k), 0, r[2 + 2 * k..])
    ensures forall k: nat :: Transmits(r, n, k) ==> Handle(n, r) == Handling(true, [], k, r[2 + 2 * k..])
    ensures Idles(r) ==> Handle(n, r).ok && Handle(n, r).batch == [] && Handle(n, r).written == 0
  {
    forall k: nat | Receives(r, k) ensures Handle(n, r) == Handling(true, DataRead(r, k), 0, r[2 + 2 * k..]) {
      ReceiveLaw(n, r, k);
    }
    forall k: nat | Transmits(r, n, k) ensures Handle(n, r) == Handling(true, [], k, r[2 + 2 * k..]) {
      TransmitLaw(n, r, k);
    }
    if Idles(r) { IdleLaw(n, r); }
  }

  lemma {:induction false} NothingMore(s: seq<char>)
    ensures s + [] == s && s[..0] == [] && s[0..] == s
  {}

  class Driver {
    const port: Port
    var transmit: Queue
    var receive: Queue

    ghost predicate Valid()
      reads this, transmit, receive
    {
      && transmit != receive && transmit.buf != receive.buf
      && transmit.Valid() && receive.Valid()
    }

    constructor (port: Port)
      ensures Valid() && this.port == port && fresh(transmit) && fresh(receive)
      ensures transmit.Contents() == [] && receive.Contents() == []
      ensures fresh(transmit.buf) && fresh(receive.buf)
    {
      this.port := port;
      transmit := new Queue();
      receive := new Queue();
    }

    /** Offers c to the line, up to ten times. */
    method OfferByte(c: char) returns (o: Offer)
      modifies port
      ensures o == Try(old(port.replies), ATTEMPTS) && port.replies == o.rest
      ensures port.sent == old(port.sent) + if o.Written? && o.out then [c] else []
    {
      var attempts := ATTEMPTS;
      while attempts > 0
        invariant 0 <= attempts <= ATTEMPTS
        invariant Try(old(port.replies), ATTEMPTS) == Try(port.replies, attempts)
        invariant port.sent == old(port.sent)
      {
        attempts := attempts - 1;
        var status := port.In();
        if status.None? { return Broken(port.replies); }
        if TransmitterReady(status.value) {
          var out := port.Out(c);
          return Written(out, port.replies);
        }
      }
      o := GivenUp(port.replies);
    }

    /** A transmit queue of its own for the call, holding what fits of the string. */
    method FillTransmit(text: seq<char>)
      requires Valid()
      modifies this`transmit
      ensures Valid() && fresh(transmit) && fresh(transmit.buf) && transmit.Contents() == Kept(text)
    {
      hide Kept;
      transmit := new Queue();
      assert text[..0] == [] == Kept([]) by { KeptShort([]); }
      for i := 0 to |text|
        invariant Valid() && fresh(transmit) && fresh(transmit.buf)
        invariant transmit.Contents() == Kept(text[..i])
      {
        KeptNext(text, i);
        var _ := transmit.Push(text[i]);
      }
      assert text[..|text|] == text;
    }

    /** One round of the sending loop: it waits on, or is done with the first byte, or fails. */
    method SendRound() returns (ok: bool, ghost out: seq<char>)
      requires Valid() && transmit.Contents() != []
      modifies transmit`front, transmit`size, port
      ensures Valid() && port.sent == old(port.sent) + out
      ensures Send(old(transmit.Contents()), old(port.replies)) ==
        if ok then Continued(out, Send(transmit.Contents(), port.replies))
        else Sending(false, out, transmit.Contents(), port.replies)
      ensures ok ==> |port.replies| < |old(port.replies)|
    {
      out := [];
      var iir := port.In();
      if iir.None? { return false, out; }
      var lsr := port.In();
      if lsr.None? { return false, out; }
      if TransmitterReady(lsr.value) {
        var c := transmit.Top();
        var offer := OfferByte(c);
        if offer.Broken? { return false, out; }
        transmit.Pop();
        out := if offer.Written? && offer.out then [c] else [];
      }
      ok := true;
    }

    /** The sending loop. */
    method SendQueued() returns (status: int)
      requires Valid()
      modifies transmit`front, transmit`size, port
      ensures Valid()
      ensures var s := Send(old(transmit.Contents()), old(port.replies));
        && status == (if s.ok then 0 else 1)
        && port.sent == old(port.sent) + s.sent && port.replies == s.rest && transmit.Contents() == s.left
    {
      hide Send;
      ghost var all := Send(transmit.Contents(), port.replies);
      ghost var sent: seq<char> := [];
      while transmit.size > 0
        invariant Valid() && port.sent == old(port.sent) + sent
        invariant all == Continued(sent, Send(transmit.Contents(), port.replies))
        decreases |port.replies|
      {
        var ok;
        ghost var out;
        ok, out := SendRound();
        ContinuedTwice(sent, out, if ok then Send(transmit.Contents(), port.replies) else all);
        InParts(old(port.sent), sent, out);
        sent := sent + out;
        if !ok { return 1; }
      }
      SendNothing(port.replies);
      status := 0;
    }

    /** Sends the text: what fits of it, byte by byte, as Send says for the line's answers. */
    method SendInt(text: seq<char>) returns (status: int)
      requires Valid()
      modifies this`transmit, port
      ensures Valid() && fresh(transmit) && fresh(transmit.buf)
      ensures var s := Send(Kept(text), old(port.replies));
        && status == (if s.ok then 0 else 1)
        && port.sent == old(port.sent) + s.sent && port.replies == s.rest && transmit.Contents() == s.left
    {
      hide Send, Kept;
      FillTransmit(text);
      status := SendQueued();
    }

    /** Writes the oldest of the n bytes in the queue and, if that went well, reads the line status that follows. */
    method WriteByte(ghost n: nat) returns (out: bool, next: Option<Byte>)
      requires Valid() && n == transmit.size > 0
      modifies transmit`front, transmit`size, port
      ensures Valid()
      ensures out ==> transmit.Contents() == old(transmit.Contents())[1..]
      ensures out ==> port.sent == old(port.sent) + [old(transmit.Contents())[0]]
      ensures !out ==> next.None? && transmit.Contents() == old(transmit.Contents()) && port.sent == old(port.sent)
      ensures forall status :: TransmitterReady(status) ==> (
        Drain(status, n, old(port.replies)) ==
          if next.None? then Handling(false, [], if out then 1 else 0, port.replies)
          else AfterWriting(1, Drain(next.value, n - 1, port.replies)))
    {
      var c := transmit.Top();
      out := port.Out(c);
      if !out { return false, None; }
      transmit.Pop();
      next := port.In();
    }

    /** The part of the interrupt for a transmitter that can take bytes. */
    method WriteQueued(status: Byte) returns (ok: bool)
      requires Valid()
      modifies transmit`front, transmit`size, port
      ensures Valid()
      ensures var before := old(transmit.Contents()); var h := Drain(status, |before|, old(port.replies));
        && ok == h.ok && port.replies == h.rest
        && port.sent == old(port.sent) + before[..h.written]
        && transmit.Contents() == before[h.written..]
    {
      hide Drain, Queue.Valid, Queue.Contents;
      ghost var before, all := transmit.Contents(), Drain(status, transmit.size, port.replies);
      ghost var n := 0;
      var lsr := status;
      while TransmitterReady(lsr) && transmit.size > 0
        invariant Valid() && n + transmit.size == |before|
        invariant transmit.Contents() == before[n..] && port.sent == old(port.sent) + before[..n]
        invariant all == AfterWriting(n, Drain(lsr, transmit.size, port.replies))
        decreases transmit.size
      {
        var out, next := WriteByte(transmit.size);
        if !out { return false; }
        SplitAt(before, n);
        InParts(old(port.sent), before[..n], [before[n]]);
        n := n + 1;
        if next.None? { return false; }
        lsr := next.value;
      }
      DrainNothing(lsr, transmit.size, port.replies);
      ok := true;
    }

    /** Reads a byte and the line status that follows it. */
    method ReadByte() returns (next: Option<Byte>, ghost read: seq<char>)
      requires Valid()
      modifies receive, receive.buf, port`replies
      ensures Valid() && receive.Contents() == Kept(old(receive.Contents()) + read)
      ensures forall status :: DataReady(status) ==> (
        Gather(status, old(port.replies)) ==
          if next.None? then Handling(false, read, 0, port.replies)
          else Following(read, Gather(next.value, port.replies)))
      ensures next.Some? ==> |port.replies| < |old(port.replies)|
    {
      read := [];
      assert receive.Contents() + [] == receive.Contents() == Kept(receive.Contents());
      var c := port.In();
      if c.None? { return None, read; }
      var _ := receive.Push(AsChar(c.value));
      read := [AsChar(c.value)];
      next := port.In();
    }

    /** The part of the interrupt for data at the port. */
    method ReadAvailable(status: Byte) returns (ok: bool)
      requires Valid()
      modifies receive, receive.buf, port`replies
      ensures Valid()
      ensures var h := Gather(status, old(port.replies));
        && ok == h.ok && port.replies == h.rest
        && receive.Contents() == Kept(old(receive.Contents()) + h.batch)
    {
      hide Gather, Kept;
      ghost var all, before, read := Gather(status, port.replies), receive.Contents(), [];
      KeptShort(before);
      assert all.batch == [] + all.batch && before == before + [];
      var lsr := status;
      while DataReady(lsr)
        invariant Valid() && receive.Contents() == Kept(before + read)
        invariant all == Following(read, Gather(lsr, port.replies))
        decreases |port.replies|
      {
        var next;
        ghost var more;
        next, more := ReadByte();
        KeptTwice(before, read, more);
        read := read + more;
        if next.None? { return false; }
        lsr := next.value;
        FollowingTwice(read[..|read| - |more|], more, Gather(lsr, port.replies));
      }
      GatherNothing(lsr, port.replies);
      NothingMore(read);
      ok := true;
    }

    /** Serves the interrupt, as Handle says. */
    method ServeInterrupt() returns (status: int)
      requires Valid()
      modifies transmit`front, transmit`size, receive, receive.buf, port
      ensures Valid()
      ensures var before := old(transmit.Contents()); var h := Handle(|before|, old(port.replies));
        && status == (if h.ok then 0 else 1) && port.replies == h.rest
        && port.sent == old(port.sent) + before[..h.written] && transmit.Contents() == before[h.written..]
        && receive.Contents() == Kept(old(receive.Contents()) + h.batch)
    {
      assert receive.Contents() + [] == receive.Contents() == Kept(receive.Contents());
      var iir := port.In();
      if iir.None? { return 1; }
      var ok := true;
      if !Bit(iir.value, 1) {
        var lsr := port.In();
        if lsr.None? { return 1; }
        if Bit(iir.value, 2) {
          ok := WriteQueued(lsr.value);
        } else if Bit(iir.value, 4) {
          ok := ReadAvailable(lsr.value);
        }
      }
      status := if ok then 0 else 1;
    }

    /** The interrupt, also by the port's answers and their bits: data at the port all goes to the receive queue as far
        as it fits; a ready transmitter gets the oldest bytes queued; anything else moves nothing. */
    method SerIh() returns (status: int)
      requires Valid()
      modifies transmit`front, transmit`size, receive, receive.buf, port
      ensures Valid()
      ensures var before := old(transmit.Contents()); var h := Handle(|before|, old(port.replies));
        && status == (if h.ok then 0 else 1) && port.replies == h.rest
        && port.sent == old(port.sent) + before[..h.written] && transmit.Contents() == before[h.written..]
        && receive.Contents() == Kept(old(receive.Contents()) + h.batch)
      ensures forall k: nat :: Receives(old(port.replies), k) ==>
        && status == 0 && port.replies == old(port.replies)[2 + 2 * k..]
        && receive.Contents() == Kept(old(receive.Contents()) + DataRead(old(port.replies), k))
        && port.sent == old(port.sent) && transmit.Contents() == old(transmit.Contents())
      ensures forall k: nat :: Transmits(old(port.replies), |old(transmit.Contents())|, k) ==>
        && status == 0 && port.replies == old(port.replies)[2 + 2 * k..]
        && port.sent == old(port.sent) + old(transmit.Contents())[..k]
        && transmit.Contents() == old(transmit.Contents())[k..]
        && receive.Contents() == old(receive.Contents())
      ensures Idles(old(port.replies)) ==>
        && status == 0 && port.sent == old(port.sent)
        && transmit.Contents() == old(transmit.Contents()) && receive.Contents() == old(receive.Contents())
    {
      ghost var n, r := transmit.size, port.replies;
      InterruptLaws(n, r);
      NothingMore(receive.Contents());
      KeptShort(receive.Contents());
      NothingMore(port.sent);
      hide Handle, Receives, Transmits, Idles, Kept;
      status := ServeInterrupt();
    }

    /** The first byte in the receive queue after the interrupt, or else the caller's own. */
    method Receive(c: char) returns (r: char)
      requires Valid()
      modifies transmit`front, transmit`size, receive, receive.buf, port
      ensures Valid()
      ensures var before := old(transmit.Contents()); var h := Handle(|before|, old(port.replies));
        && port.replies == h.rest && port.sent == old(port.sent) + before[..h.written]
        && transmit.Contents() == before[h.written..]
        && var queued := Kept(old(receive.Contents()) + h.batch);
           if queued == [] then r == c && receive.Contents() == []
           else r == queued[0] && receive.Contents() == queued[1..]
    {
      hide Receives, Transmits, Idles;
      var _ := SerIh();
      r := c;
      var nothing := receive.Empty();
      if !nothing {
        r := receive.Top();
        receive.Pop();
      }
    }

    method ClearReceiveQueue()
      requires Valid()
      modifies receive`front, receive`size
      ensures Valid() && receive.Contents() == []
    {
      while receive.size > 0
        invariant Valid()
      {
        receive.Pop();
      }
    }
  }
}
