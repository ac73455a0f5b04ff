/**
 * The shared byte channel: a `MemoryStream` that a producer loop appends to
 * and a consumer loop empties, paired with a `SemaphoreSlim` used as a
 * single-slot "has data" flag. The relay has two of them, one per direction,
 * used identically. Each `lock` block is one atomic step; the consumer's
 * `WaitAsync` happens outside the lock and is a step of its own.
 */
module Channel {

  newtype byte = x: int | 0 <= x < 256

  /** The size of the buffer every read loop reads into. */
  const ReadBufferSize: nat := 4096

  /** The chunks of a history, concatenated in order. */
  function Flatten(chunks: seq<seq<byte>>): seq<byte>
    decreases |chunks|
  {
    if chunks == [] then [] else Flatten(chunks[..|chunks| - 1]) + chunks[|chunks| - 1]
  }

  lemma FlattenSnoc(chunks: seq<seq<byte>>, c: seq<byte>)
    ensures Flatten(chunks + [c]) == Flatten(chunks) + c
  {
  }

  /** Flattening distributes over concatenation of histories. */
  lemma {:induction false} FlattenConcat(a: seq<seq<byte>>, b: seq<seq<byte>>)
    ensures Flatten(a + b) == Flatten(a) + Flatten(b)
    decreases |b|
  {
    if b == [] {
      assert a + b == a;
    } else {
      var b' := b[..|b| - 1];
      assert a + b == (a + b') + [b[|b| - 1]];
      FlattenSnoc(a + b', b[|b| - 1]);
      FlattenConcat(a, b');
      FlattenSnoc(b', b[|b| - 1]);
      assert b' + [b[|b| - 1]] == b;
    }
  }

  /**
   * `MemoryStream.Write` of `chunk` at position `pos`: the bytes from `pos` on
   * are overwritten, and the stream grows when they run past its end.
   */
  function WriteAt(data: seq<byte>, pos: nat, chunk: seq<byte>): (r: seq<byte>)
    requires pos <= |data|
    ensures |r| == if pos + |chunk| <= |data| then |data| else pos + |chunk|
    ensures r[..pos] == data[..pos] && r[pos..pos + |chunk|] == chunk
    ensures r[pos + |chunk|..] == if pos + |chunk| <= |data| then data[pos + |chunk|..] else []
  {
    data[..pos] + chunk + if pos + |chunk| <= |data| then data[pos + |chunk|..] else []
  }

  /** A write at the end of the stream appends. */
  lemma WriteAtEnd(data: seq<byte>, chunk: seq<byte>)
    ensures WriteAt(data, |data|, chunk) == data + chunk
  {
  }

  class ByteChannel {
    /** The `MemoryStream`'s contents. */
    var stream: seq<byte>
    /** The `MemoryStream`'s position. */
    var position: nat
    /** The `SemaphoreSlim`'s `CurrentCount`. */
    var count: nat

    /** Every chunk the producer has appended, in order. */
    ghost var appended: seq<seq<byte>>
    /** Every chunk the consumer has taken, in order. */
    ghost var drained: seq<seq<byte>>
    /** The consumer has returned from `WaitAsync` and not yet entered the lock. */
    ghost var consumerWoken: bool

    /**
     * The channel's invariant: writes always land at the end of the stream;
     * the flag never counts above one; what was taken followed by what is
     * buffered is exactly what was appended, in order; and buffered bytes
     * always have a pending wake-up (the flag is up, or the consumer is
     * already on its way into the lock).
     */
    ghost predicate Valid()
      reads this
    {
      && position == |stream|
      && count <= 1
      && Flatten(drained) + stream == Flatten(appended)
      && (stream != [] ==> count == 1 || consumerWoken)
    }

    /** `new MemoryStream()` and `new SemaphoreSlim(0)`. */
    constructor ()
      ensures Valid()
      ensures stream == [] && count == 0
      ensures appended == [] && drained == [] && !consumerWoken
    {
      stream, position, count := [], 0, 0;
      appended, drained, consumerWoken := [], [], false;
    }

    /**
     * The producer's critical section: write the first `readCount` bytes of
     * `buffer`, then release the semaphore unless it is already up. A
     * zero-byte read appends nothing and still raises the flag.
     */
    method Append(buffer: seq<byte>, readCount: nat)
      requires Valid()
      requires readCount <= |buffer|
      modifies this
      ensures Valid()
      ensures stream == old(stream) + buffer[..readCount]
      ensures count == 1
      ensures appended == old(appended) + [buffer[..readCount]]
      ensures drained == old(drained) && consumerWoken == old(consumerWoken)
    {
      var chunk := buffer[..readCount];
      WriteAtEnd(stream, chunk);
      FlattenSnoc(appended, chunk);
      // Write(buffer, 0, readCount)
      stream := WriteAt(stream, position, chunk);
      position := position + |chunk|;
      // Release() when CurrentCount == 0
      if count == 0 {
        count := count + 1;
      }
      appended := appended + [chunk];
    }

    /** The consumer's `await WaitAsync()` completing: it takes the flag down. */
    method Wait()
      requires Valid()
      requires count > 0 && !consumerWoken
      modifies this
      ensures Valid()
      ensures count == old(count) - 1 && consumerWoken
      ensures stream == old(stream) && position == old(position)
      ensures appended == old(appended) && drained == old(drained)
    {
      count := count - 1;
      consumerWoken := true;
    }

    /**
     * The consumer's critical section: copy the whole stream out with
     * `ToArray`, then `Seek(0, SeekOrigin.Begin)` and `SetLength(0)`.
     */
    method Take() returns (chunk: seq<byte>)
      requires Valid()
      requires consumerWoken
      modifies this
      ensures Valid()
      ensures chunk == old(stream) && stream == [] && position == 0
      ensures count == old(count) && !consumerWoken
      ensures drained == old(drained) + [chunk] && appended == old(appended)
    {
      // ToArray
      chunk := stream;
      FlattenSnoc(drained, chunk);
      assert Flatten(drained + [chunk]) + [] == Flatten(appended);
      // Seek(0, SeekOrigin.Begin)
      position := 0;
      // SetLength(0); the position is already within the new length
      stream := [];
      drained := drained + [chunk];
      consumerWoken := false;
    }

    /** One turn of the consumer loop: wait for the flag, then take everything buffered. */
    method Drain() returns (chunk: seq<byte>)
      requires Valid()
      requires count > 0 && !consumerWoken
      modifies this
      ensures Valid()
      ensures chunk == old(stream) && stream == [] && position == 0
      ensures count == old(count) - 1 && !consumerWoken
      ensures drained == old(drained) + [chunk] && appended == old(appended)
    {
      Wait();
      chunk := Take();
    }
  }

  /**
   * The read loop, for a finite run of reads: each read's bytes go into the
   * channel in the order they arrived.
   */
  method ReadLoop(channel: ByteChannel, received: seq<seq<byte>>)
    requires channel.Valid()
    requires forall i :: 0 <= i < |received| ==> |received[i]| <= ReadBufferSize
    modifies channel
    ensures channel.Valid()
    ensures channel.stream == old(channel.stream) + Flatten(received)
    ensures channel.count == if received == [] then old(channel.count) else 1
    ensures channel.appended == old(channel.appended) + received
    ensures channel.drained == old(channel.drained)
    ensures channel.consumerWoken == old(channel.consumerWoken)
    ensures Flatten(channel.appended) == Flatten(old(channel.appended)) + Flatten(received)
  {
    var i := 0;
    while i < |received|
      invariant 0 <= i <= |received|
      invariant channel.Valid()
      invariant channel.stream == old(channel.stream) + Flatten(received[..i])
      invariant channel.count == if i == 0 then old(channel.count) else 1
      invariant channel.appended == old(channel.appended) + received[..i]
      invariant channel.drained == old(channel.drained)
      invariant channel.consumerWoken == old(channel.consumerWoken)
    {
      var buffer := received[i];
      channel.Append(buffer, |buffer|);
      assert buffer[..|buffer|] == buffer;
      assert received[..i + 1] == received[..i] + [received[i]];
      FlattenSnoc(received[..i], received[i]);
      i := i + 1;
    }
    assert received[..|received|] == received;
    FlattenConcat(old(channel.appended), received);
  }

  /**
   * A run of reads followed by one consumer turn: the consumer receives every
   * byte read, in order, and the channel is then empty with its flag down.
   */
  method ReadThenDrain(received: seq<seq<byte>>) returns (taken: seq<byte>, flagAfter: nat)
    requires received != []
    requires forall i :: 0 <= i < |received| ==> |received[i]| <= ReadBufferSize
    ensures taken == Flatten(received)
    ensures flagAfter == 0
  {
    var channel := new ByteChannel();
    ReadLoop(channel, received);
    taken := channel.Drain();
    flagAfter := channel.count;
  }

  /**
   * Appends that happen before the consumer wakes coalesce into one wake-up:
   * a single drain returns all their bytes, and the flag is then down.
   */
  method CoalescedAppends(x: seq<byte>, y: seq<byte>) returns (taken: seq<byte>, flagAfter: nat)
    ensures taken == x + y
    ensures flagAfter == 0
  {
    var channel := new ByteChannel();
    channel.Append(x, |x|);
    channel.Append(y, |y|);
    taken := channel.Drain();
    flagAfter := channel.count;
    assert x[..|x|] == x && y[..|y|] == y;
  }

  /**
   * An append that lands between the consumer's wake-up and its lock raises
   * the flag again although its bytes go out with the current turn, so the
   * next turn takes nothing: the consumer must tolerate an empty chunk.
   */
  method EmptyDrainAfterRace(x: seq<byte>, y: seq<byte>) returns (first: seq<byte>, second: seq<byte>)
    ensures first == x + y
    ensures second == []
  {
    var channel := new ByteChannel();
    channel.Append(x, |x|);
    channel.Wait();
    channel.Append(y, |y|);
    first := channel.Take();
    second := channel.Drain();
    assert x[..|x|] == x && y[..|y|] == y;
  }
}
