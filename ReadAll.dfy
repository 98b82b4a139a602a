/**
 * readall: read a whole file descriptor into a heap buffer that starts at
 * 1024 bytes and doubles whenever a full chunk might not fit. The operating
 * system's answers to read(2) are given as a trace of events.
 */
module ReadAll {
  import opened Arith
  import opened ByteCodec

  /** The initial buffer size, which is also the size of every read request. */
  const Chunk: nat := 1024

  /** What one call to read(fd, buf + nBytes, chunk) returns. */
  datatype ReadEvent =
    | Got(data: seq<byte>)  // n = |data| >= 0 bytes; n = 0 is end of file
    | Interrupted           // n < 0 with errno == EINTR: retried
    | WouldBlock            // n < 0 with errno == EWOULDBLOCK: retried
    | Failed                // n < 0 with any other errno: readall returns -1

  /** The events that end the loop: end of file or a hard error. */
  predicate Stops(e: ReadEvent)
  {
    e == Got([]) || e == Failed
  }

  /**
   * A trace of everything readall is told by read(2): no answer longer than
   * the request, and the loop's last event, and only it, stops the loop.
   */
  predicate IsTrace(events: seq<ReadEvent>)
  {
    |events| >= 1 && Stops(events[|events| - 1]) &&
    (forall k :: 0 <= k < |events| - 1 ==> !Stops(events[k])) &&
    (forall k :: 0 <= k < |events| && events[k].Got? ==> |events[k].data| <= Chunk)
  }

  /** The bytes an event delivers. */
  function Delivered(e: ReadEvent): (d: seq<byte>)
    ensures |d| == if e.Got? then ReadCount(e) else 0
  {
    if e.Got? then e.data else []
  }

  /**
   * The bytes delivered by a sequence of events, in order: as many as the
   * byte count readall keeps.
   */
  function Received(events: seq<ReadEvent>): (data: seq<byte>)
    ensures |data| == TotalRead(events)
  {
    if events == [] then []
    else Received(events[..|events| - 1]) + Delivered(events[|events| - 1])
  }

  /** The value of n that read returns for an event. */
  function ReadCount(e: ReadEvent): (n: int)
    ensures n >= 0 <==> e.Got?
    ensures n == 0 <==> e == Got([])
  {
    if e.Got? then |e.data| else -1
  }

  /** nBytes += n over the events whose n is not negative. */
  function TotalRead(events: seq<ReadEvent>): (total: int)
    ensures total >= 0
  {
    if events == [] then 0
    else
      var n := ReadCount(events[|events| - 1]);
      TotalRead(events[..|events| - 1]) + (if n >= 0 then n else 0)
  }

  /** The outcome of readall: the file's bytes, or failure. */
  datatype ReadOutcome = Complete(data: seq<byte>) | ReadFailed

  /** What readall yields for a trace: failure exactly when the last read failed hard. */
  function Outcome(events: seq<ReadEvent>): (r: ReadOutcome)
    requires IsTrace(events)
    ensures r.ReadFailed? <==> events[|events| - 1] == Failed
  {
    if events[|events| - 1] == Failed then ReadFailed else Complete(Received(events))
  }

  /** No read answers more than the chunk it asks for, so nBytes grows by at most a chunk per read. */
  lemma {:induction false} TotalReadBound(events: seq<ReadEvent>)
    requires forall k :: 0 <= k < |events| && events[k].Got? ==> |events[k].data| <= Chunk
    ensures TotalRead(events) <= Chunk * |events|
    decreases |events|
  {
    if events != [] {
      TotalReadBound(events[..|events| - 1]);
    }
  }

  /** Reading a trace piece by piece receives the concatenation of the pieces. */
  lemma {:induction false} ReceivedAppend(a: seq<ReadEvent>, b: seq<ReadEvent>)
    ensures Received(a + b) == Received(a) + Received(b)
    decreases |b|
  {
    if b == [] {
      assert a + b == a;
    } else {
      var b', e := b[..|b| - 1], b[|b| - 1];
      assert b == b' + [e];
      assert a + b == (a + b') + [e];
      ReceivedAppend(a, b');
      ReceivedAppendStep(a, b', e);
    }
  }

  /** The inductive step of ReceivedAppend: one more event at the end of b. */
  lemma ReceivedAppendStep(a: seq<ReadEvent>, b: seq<ReadEvent>, e: ReadEvent)
    requires Received(a + b) == Received(a) + Received(b)
    ensures Received((a + b) + [e]) == Received(a) + Received(b + [e])
  {
    ReceivedSnoc(a + b, e);
    ReceivedSnoc(b, e);
  }

  /** One more event extends what was received by what it delivers. */
  lemma ReceivedSnoc(s: seq<ReadEvent>, e: ReadEvent)
    ensures Received(s + [e]) == Received(s) + Delivered(e)
  {
    assert (s + [e])[..|s|] == s;
  }

  /** Retried and failed reads deliver nothing: only the data of Got events arrives. */
  lemma {:induction false} ReceivedIgnoresErrors(events: seq<ReadEvent>)
    requires forall k :: 0 <= k < |events| ==> !events[k].Got?
    ensures Received(events) == []
    decreases |events|
  {
    if events != [] {
      ReceivedIgnoresErrors(events[..|events| - 1]);
    }
  }

  /** Reading one more event extends what was received by what it delivers. */
  lemma ReadStep(events: seq<ReadEvent>, i: nat)
    requires i < |events|
    ensures Received(events[..i + 1]) == Received(events[..i]) + Delivered(events[i])
    ensures TotalRead(events[..i + 1]) == TotalRead(events[..i]) + |Delivered(events[i])|
  {
    assert events[..i + 1][..i] == events[..i];
  }

  /** Doubling a doubled chunk once more. */
  lemma DoubleOnce(size: nat, k: nat)
    requires size == Chunk * Pow2(k)
    ensures 2 * size == Chunk * Pow2(k + 1)
  {
  }

  /** A size the buffer can have: 1024 doubled some number of times. */
  ghost predicate DoubledChunk(size: nat)
  {
    exists k: nat :: size == Chunk * Pow2(k)
  }

  /** realloc(buf, size): a larger buffer that starts with the old contents. */
  method Grow(buf: array<byte>, size: nat) returns (grown: array<byte>)
    requires buf.Length <= size
    ensures fresh(grown) && grown.Length == size && grown[..buf.Length] == buf[..]
  {
    grown := new byte[size];
    for k := 0 to buf.Length
      invariant grown[..k] == buf[..k]
    {
      grown[k] := buf[k];
    }
  }

  /** read(fd, buf + nBytes, chunk) answering with data: the bytes land after the first nBytes. */
  method Store(buf: array<byte>, nBytes: nat, data: seq<byte>)
    requires nBytes + |data| <= buf.Length
    modifies buf
    ensures buf[..nBytes + |data|] == old(buf[..nBytes]) + data
  {
    for k := 0 to |data|
      invariant buf[..nBytes + k] == old(buf[..nBytes]) + data[..k]
    {
      buf[nBytes + k] := data[k];
    }
  }

  /**
   * The check at the head of each turn: when a full chunk would not fit after
   * the nBytes already read, bsize doubles and the buffer is reallocated.
   */
  method Reserve(buf: array<byte>, nBytes: nat) returns (grown: array<byte>)
    requires nBytes <= buf.Length && Chunk <= buf.Length
    ensures nBytes + Chunk <= grown.Length
    ensures grown.Length == if buf.Length < nBytes + Chunk then 2 * buf.Length else buf.Length
    ensures grown == buf || fresh(grown)
    ensures grown[..nBytes] == buf[..nBytes]
  {
    grown := buf;
    var bsize := buf.Length;
    if bsize < nBytes + Chunk {
      bsize := bsize * 2;
      grown := Grow(buf, bsize);
      assert grown[..nBytes] == grown[..buf.Length][..nBytes];
    }
  }

  /** One turn of the loop: make room for a chunk, then take in what read answers. */
  method Turn(buf: array<byte>, nBytes: nat, e: ReadEvent) returns (grown: array<byte>, total: nat)
    requires nBytes <= buf.Length && Chunk <= buf.Length
    requires e.Got? ==> |e.data| <= Chunk
    modifies buf
    ensures grown == buf || fresh(grown)
    ensures grown.Length == if buf.Length < nBytes + Chunk then 2 * buf.Length else buf.Length
    ensures nBytes + Chunk <= grown.Length
    ensures total == nBytes + |Delivered(e)|
    ensures grown[..total] == old(buf[..nBytes]) + Delivered(e)
  {
    grown := Reserve(buf, nBytes);
    total := nBytes;
    if e.Got? {
      Store(grown, nBytes, e.data);
      total := nBytes + |e.data|;
    } else {
      assert grown[..total] + Delivered(e) == grown[..total];
    }
  }

  /**
   * The do-while loop of readall, with bsize kept as the buffer's length.
   * Each turn first makes room for a full chunk, then reads, retrying on
   * EINTR and EWOULDBLOCK and stopping at end of file or on any other error.
   * A failed realloc is left out: allocation always succeeds here.
   */
  method ReadAll(events: seq<ReadEvent>) returns (status: int, buf: array<byte>, nBytes: nat)
    requires IsTrace(events)
    ensures status == 0 <==> Outcome(events).Complete?
    ensures status == -1 <==> Outcome(events).ReadFailed?
    ensures status == -1 <==> events[|events| - 1] == Failed
    ensures status == 0 <==> events[|events| - 1] == Got([])
    ensures status == 0 ==> nBytes <= buf.Length && buf[..nBytes] == Outcome(events).data
    ensures nBytes == TotalRead(events)
    ensures nBytes + Chunk <= buf.Length <= 2 * (nBytes + Chunk)
    ensures DoubledChunk(buf.Length)
  {
    buf := new byte[Chunk];
    nBytes := 0;
    ghost var doublings: nat := 0;
    var i := 0;
    var done := false;
    status := 0;
    while !done
      invariant 0 <= i <= |events| && fresh(buf)
      invariant !done ==> i < |events|
      invariant done ==> i == |events|
      invariant done ==> status == (if events[|events| - 1] == Failed then -1 else 0)
      invariant nBytes <= buf.Length && buf[..nBytes] == Received(events[..i])
      invariant nBytes == TotalRead(events[..i])
      invariant buf.Length <= 2 * (nBytes + Chunk)
      invariant done ==> nBytes + Chunk <= buf.Length
      invariant buf.Length == Chunk * Pow2(doublings)
      decreases |events| - i, !done
    {
      if buf.Length < nBytes + Chunk {
        DoubleOnce(buf.Length, doublings);
        doublings := doublings + 1;
      }
      var e := events[i];
      ReadStep(events, i);
      buf, nBytes := Turn(buf, nBytes, e);
      i := i + 1;
      if e == Got([]) || e == Failed {
        done := true;
        status := if e == Failed then -1 else 0;
      }
    }
    assert events[..i] == events;
  }
}
