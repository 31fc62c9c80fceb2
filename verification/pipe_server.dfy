/** The command queue of `PipeServer` (KimaiBotService/PipeServer.cs): the
    read loop appends one decoded command per non-empty read, and
    `GetRequest` hands them out oldest first. The pipe itself is replaced
    by the sequence of outcomes its reads have. */
module PipeServer {

  /** The size of the read buffer: no read delivers more bytes. */
  const BufferSize: nat := 256

  type Byte = bv8

  /** What one `Read` into the buffer delivers. */
  type Chunk = s: seq<Byte> | |s| <= BufferSize

  /** The outcome of one `pipeServer.Read`: some bytes (none when the client
      has gone), or an `IOException` from a broken pipe. */
  datatype ReadOutcome = Received(bytes: Chunk) | Broken

  /** A zero-byte read: the client has disconnected. */
  predicate IsDisconnect(r: ReadOutcome) {
    r.Received? && |r.bytes| == 0
  }

  /** The reference definition: the commands the reads add to the queue, in
      order. A broken read adds nothing and the loop goes on; the first
      zero-byte read ends the loop and nothing after it is read. */
  function Appended(outcomes: seq<ReadOutcome>, decode: Chunk -> string): seq<string> {
    if outcomes == [] then []
    else match outcomes[0]
      case Broken => Appended(outcomes[1..], decode)
      case Received(b) => if |b| == 0 then [] else [decode(b)] + Appended(outcomes[1..], decode)
  }

  /** `ServerLoop` after the connection is made, on the reads `outcomes`, with
      `decode` standing for `Encoding.UTF8.GetString`. The loop either meets
      a zero-byte read (`disconnected`) or runs out of modelled reads. */
  method ServerLoop(queue: seq<string>, outcomes: seq<ReadOutcome>, decode: Chunk -> string)
    returns (q: seq<string>, disconnected: bool)
    ensures q == queue + Appended(outcomes, decode)
    ensures disconnected <==> exists k :: 0 <= k < |outcomes| && IsDisconnect(outcomes[k])
  {
    q := queue;
    disconnected := false;
    var i := 0;
    while i < |outcomes|
      invariant 0 <= i <= |outcomes|
      invariant queue + Appended(outcomes, decode) == q + Appended(outcomes[i..], decode)
      invariant forall k :: 0 <= k < i ==> !IsDisconnect(outcomes[k])
    {
      assert outcomes[i..][1..] == outcomes[i + 1..];
      match outcomes[i] {
        case Broken =>
          // the IOException is caught and the loop reads again
        case Received(bytes) =>
          if |bytes| == 0 {
            disconnected := true;
            return;
          }
          q := q + [decode(bytes)];
      }
      i := i + 1;
    }
  }

  /** Reads after the disconnect are never looked at. */
  lemma {:induction false} DisconnectEndsReading(a: seq<ReadOutcome>, r: ReadOutcome, b: seq<ReadOutcome>, decode: Chunk -> string)
    requires IsDisconnect(r)
    ensures Appended(a + [r] + b, decode) == Appended(a + [r], decode)
    decreases |a|
  {
    if a == [] {
      assert ([] + [r] + b)[0] == r;
      assert [] + [r] == [r];
    } else {
      assert (a + [r] + b)[0] == a[0] && (a + [r])[0] == a[0];
      assert (a + [r] + b)[1..] == a[1..] + [r] + b;
      assert (a + [r])[1..] == a[1..] + [r];
      DisconnectEndsReading(a[1..], r, b, decode);
    }
  }

  /** A broken read leaves the queue as if it had not happened. */
  lemma {:induction false} BrokenReadIgnored(a: seq<ReadOutcome>, b: seq<ReadOutcome>, decode: Chunk -> string)
    ensures Appended(a + [Broken] + b, decode) == Appended(a + b, decode)
    decreases |a|
  {
    if a == [] {
      assert ([] + [Broken] + b)[1..] == b;
      assert [] + b == b;
    } else {
      assert (a + [Broken] + b)[0] == a[0] && (a + b)[0] == a[0];
      assert (a + [Broken] + b)[1..] == a[1..] + [Broken] + b;
      assert (a + b)[1..] == a[1..] + b;
      BrokenReadIgnored(a[1..], b, decode);
    }
  }

  /** Before any disconnect, every non-empty read adds exactly its own
      command, in arrival order. */
  lemma {:induction false} AppendedSplits(a: seq<ReadOutcome>, b: seq<ReadOutcome>, decode: Chunk -> string)
    requires forall k :: 0 <= k < |a| ==> !IsDisconnect(a[k])
    ensures Appended(a + b, decode) == Appended(a, decode) + Appended(b, decode)
    decreases |a|
  {
    if a == [] {
      assert [] + b == b;
    } else {
      assert (a + b)[0] == a[0];
      assert (a + b)[1..] == a[1..] + b;
      AppendedSplits(a[1..], b, decode);
    }
  }

  /** What `GetRequest` returns and the queue it leaves. */
  datatype Taken = Taken(request: string, rest: seq<string>)

  /** `GetRequest`: the oldest command, removed from the queue; `""` and no
      change when the queue is empty. */
  function GetRequest(q: seq<string>): (r: Taken)
    ensures q == [] ==> r == Taken("", [])
    ensures q != [] ==> [r.request] + r.rest == q
    ensures |r.rest| == if q == [] then 0 else |q| - 1
  {
    if q == [] then Taken("", []) else Taken(q[0], q[1..])
  }

  /** What happens to the queue: the read loop adds a command, or the
      consumer calls `GetRequest`. */
  datatype QueueOp = Append(command: string) | Take

  /** The commands handed out by the `Take`s that found one, and the queue
      left at the end. */
  datatype Replayed = Replayed(served: seq<string>, queue: seq<string>)

  function Replay(q: seq<string>, ops: seq<QueueOp>): Replayed
    decreases |ops|
  {
    if ops == [] then Replayed([], q)
    else match ops[0]
      case Append(c) => Replay(q + [c], ops[1..])
      case Take =>
        if q == [] then Replay(q, ops[1..])
        else
          var t := GetRequest(q);
          var after := Replay(t.rest, ops[1..]);
          Replayed([t.request] + after.served, after.queue)
  }

  /** The commands the ops append, in order. */
  function Arrivals(ops: seq<QueueOp>): seq<string> {
    if ops == [] then []
    else (if ops[0].Append? then [ops[0].command] else []) + Arrivals(ops[1..])
  }

  /** First in, first out: whatever the interleaving of reads and
      `GetRequest`s, the commands handed out followed by those still queued
      are exactly the initial queue followed by the arrivals, in order.
      Nothing is lost, duplicated or reordered. */
  lemma {:induction false} FirstInFirstOut(q: seq<string>, ops: seq<QueueOp>)
    ensures Replay(q, ops).served + Replay(q, ops).queue == q + Arrivals(ops)
    decreases |ops|
  {
    if ops != [] {
      match ops[0]
      case Append(c) =>
        FirstInFirstOut(q + [c], ops[1..]);
        AppendStep(q, c, ops);
      case Take =>
        if q == [] {
          FirstInFirstOut(q, ops[1..]);
        } else {
          FirstInFirstOut(q[1..], ops[1..]);
          TakeStep(q, ops);
        }
    }
  }

  lemma AppendStep(q: seq<string>, c: string, ops: seq<QueueOp>)
    requires ops != [] && ops[0] == Append(c)
    requires Replay(q + [c], ops[1..]).served + Replay(q + [c], ops[1..]).queue == (q + [c]) + Arrivals(ops[1..])
    ensures Replay(q, ops).served + Replay(q, ops).queue == q + Arrivals(ops)
  {
    assert Replay(q, ops) == Replay(q + [c], ops[1..]);
    assert Arrivals(ops) == [c] + Arrivals(ops[1..]);
  }

  lemma TakeStep(q: seq<string>, ops: seq<QueueOp>)
    requires ops != [] && ops[0] == Take && q != []
    requires Replay(q[1..], ops[1..]).served + Replay(q[1..], ops[1..]).queue == q[1..] + Arrivals(ops[1..])
    ensures Replay(q, ops).served + Replay(q, ops).queue == q + Arrivals(ops)
  {
    var after := Replay(q[1..], ops[1..]);
    assert Replay(q, ops) == Replayed([q[0]] + after.served, after.queue);
    assert Arrivals(ops) == Arrivals(ops[1..]);
    ConsShift(q[0], after.served, after.queue, q[1..], Arrivals(ops[1..]));
    assert [q[0]] + q[1..] == q;
  }

  lemma ConsShift<T>(h: T, s: seq<T>, f: seq<T>, t: seq<T>, a: seq<T>)
    requires s + f == t + a
    ensures ([h] + s) + f == ([h] + t) + a
  {
    assert ([h] + s) + f == [h] + (s + f);
    assert ([h] + t) + a == [h] + (t + a);
  }
}
