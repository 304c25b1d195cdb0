/** The ring buffer of the serial driver: a first-in first-out queue of at most a hundred bytes. */
module ByteQueue {

  const BUFFER_SIZE: nat := 100

  /** Going round the buffer once at most. */
  function Around(i: nat): nat
    requires i < 2 * BUFFER_SIZE
  {
    if i < BUFFER_SIZE then i else i - BUFFER_SIZE
  }

  lemma AroundIsRemainder(i: nat)
    requires i < 2 * BUFFER_SIZE
    ensures Around(i) == i % BUFFER_SIZE
  {
    if i >= BUFFER_SIZE { assert i % BUFFER_SIZE == (i - BUFFER_SIZE) % BUFFER_SIZE; }
  }

  /** The n bytes of the buffer from position front on, going round. */
  function Window(buf: seq<char>, front: nat, n: nat): (s: seq<char>)
    requires |buf| == BUFFER_SIZE && front < BUFFER_SIZE
    ensures |s| == n
    decreases n
  {
    if n == 0 then [] else [buf[front]] + Window(buf, Around(front + 1), n - 1)
  }

  /** Going on from the next place, the end of the window is the same, and not the first place. */
  lemma NextPlace(front: nat, n: nat)
    requires front < BUFFER_SIZE && 0 < n < BUFFER_SIZE
    ensures Around(front + 1) < BUFFER_SIZE
    ensures Around(Around(front + 1) + (n - 1)) == Around(front + n) < BUFFER_SIZE && Around(front + n) != front
  {}

  lemma {:induction false} WindowNext(buf: seq<char>, front: nat, n: nat)
    requires |buf| == BUFFER_SIZE && front < BUFFER_SIZE && n > 0 && Around(front + 1) < BUFFER_SIZE
    ensures Window(buf, front, n) == [buf[front]] + Window(buf, Around(front + 1), n - 1)
  {}

  lemma {:induction false} OneInParts(x: char, s: seq<char>, c: char)
    ensures [x] + (s + [c]) == [x] + s + [c] && [] + [c] == [c] && [x] + [] == [x]
  {}

  /** A byte written behind the window extends it and leaves the rest alone. */
  lemma {:induction false} WindowGrows(buf: seq<char>, front: nat, n: nat, c: char)
    requires |buf| == BUFFER_SIZE && front < BUFFER_SIZE && n < BUFFER_SIZE
    ensures Around(front + n) < BUFFER_SIZE
    ensures Window(buf[Around(front + n) := c], front, n + 1) == Window(buf, front, n) + [c]
    decreases n
  {
    var after := buf[Around(front + n) := c];
    var next := Around(front + 1);
    assert Window(buf, front, 0) == [] == Window(after, next, 0);
    WindowNext(after, front, n + 1);
    hide Window;
    OneInParts(buf[front], if n == 0 then [] else Window(buf, next, n - 1), c);
    if n > 0 {
      NextPlace(front, n);
      hide Around;
      WindowNext(buf, front, n);
      WindowGrows(buf, next, n - 1, c);
    }
  }

  /** What a queue that is empty at first holds of the bytes pushed onto it. */
  function Kept(s: seq<char>): (r: seq<char>) {
    if |s| <= BUFFER_SIZE then s else s[..BUFFER_SIZE]
  }

  /** The first hundred of them. */
  lemma {:induction false} KeptIsFirstHundred(s: seq<char>)
    ensures |Kept(s)| <= 100 && (|s| <= 100 ==> Kept(s) == s) && (|s| > 100 ==> Kept(s) == s[..100])
  {}

  lemma {:induction false} KeptMore(s: seq<char>, c: char)
    ensures Kept(s + [c]) == if |Kept(s)| < BUFFER_SIZE then Kept(s) + [c] else Kept(s)
  {}

  lemma {:induction false} KeptNext(s: seq<char>, i: nat)
    requires i < |s|
    ensures Kept(s[..i + 1]) == if |Kept(s[..i])| < BUFFER_SIZE then Kept(s[..i]) + [s[i]] else Kept(s[..i])
  {
    assert s[..i + 1] == s[..i] + [s[i]];
    KeptMore(s[..i], s[i]);
  }

  lemma {:induction false} KeptShort(s: seq<char>)
    requires |s| <= BUFFER_SIZE
    ensures Kept(s) == s
  {}

  lemma {:induction false} KeptTwice(before: seq<char>, a: seq<char>, b: seq<char>)
    ensures Kept(Kept(before + a) + b) == Kept(before + (a + b))
  {
    assert before + a + b == before + (a + b);
  }

  class Queue {
    const buf: array<char>
    var front: nat
    var rear: int      // -1 as long as nothing has been pushed
    var size: nat

    ghost predicate Valid()
      reads this
    {
      && buf.Length == BUFFER_SIZE && front < BUFFER_SIZE && -1 <= rear < BUFFER_SIZE
      && size <= BUFFER_SIZE
      && Around(rear + 1) == Around(front + size)
    }

    ghost function Contents(): (s: seq<char>)
      requires Valid()
      reads this, buf
      ensures |s| == size
    {
      Window(buf[..], front, size)
    }

    constructor ()
      ensures Valid() && Contents() == [] && fresh(buf)
    {
      buf := new char[BUFFER_SIZE](_ => '\0');
      front, rear, size := 0, -1, 0;
    }

    /** Reports 1 and changes nothing when the buffer is full. */
    method Push(c: char) returns (status: int)
      requires Valid()
      modifies this, buf
      ensures Valid()
      ensures status == 0 <==> |old(Contents())| < BUFFER_SIZE
      ensures status == 0 ==> Contents() == old(Contents()) + [c]
      ensures status != 0 ==> status == 1 && Contents() == old(Contents())
    {
      if size >= BUFFER_SIZE { return 1; }
      AroundIsRemainder(rear + 1);
      rear := (rear + 1) % BUFFER_SIZE;
      WindowGrows(buf[..], front, size, c);
      ghost var before := buf[..];
      buf[rear] := c;
      assert buf[..] == before[rear := c];
      size := size + 1;
      status := 0;
    }

    method Top() returns (c: char)
      requires Valid()
      ensures c == if Contents() == [] then '\0' else Contents()[0]
    {
      if size == 0 { return '\0'; }
      c := buf[front];
    }

    /** Takes the oldest byte off, if there is one. */
    method Pop()
      requires Valid()
      modifies this`front, this`size
      ensures Valid()
      ensures Contents() == if old(Contents()) == [] then [] else old(Contents())[1..]
    {
      if size == 0 { return; }
      AroundIsRemainder(front + 1);
      front := (front + 1) % BUFFER_SIZE;
      size := size - 1;
    }

    method Empty() returns (b: bool)
      requires Valid()
      ensures b <==> Contents() == []
    {
      b := size == 0;
    }
  }
}
