/**
 * The library's fan-out loop (src/lib.rs): `transfer` takes frames read from
 * named sources and offers each frame, without blocking, to the destinations
 * the routing table lists for its source; `write_non_blocking` makes one
 * attempt to write a frame to one sink.
 *
 * A sink is modelled by the bytes it has accepted so far. The sources are a
 * finite script of read events, in the order the source map yields them, and
 * the outcome of each write attempt comes from an oracle `polls(k, j)`: the
 * poll of the write of event `k` to the destination at position `j` of its
 * route list.
 */
module Router {
  import opened Wrappers

  newtype Byte = b: int | 0 <= b < 256

  type Bytes = seq<Byte>

  datatype ErrorKind = WouldBlock | OtherKind(code: nat)

  /** `std::io::Error`, reduced to its kind. */
  datatype IoError = IoError(kind: ErrorKind)

  /** The library's `Error` enum. */
  datatype Error =
    | Link(cause: IoError)      // could not create link to pty
    | Serial(cause: IoError)    // serial error
    | Closed                    // stream closed
    | Read(cause: IoError)      // read error
    | Write(cause: IoError)     // write error

  /** What one read on a source yields: a frame, or an I/O error. */
  datatype ReadResult = Data(bytes: Bytes) | ReadFailed(cause: IoError)

  /** One item of the source map: the id of the source that was read and what the read gave. */
  datatype ReadEvent = ReadEvent(src: string, result: ReadResult)

  /** The outcome of one `poll_write`: `Ready(Ok(n))`, `Ready(Err(e))` or `Pending`. */
  datatype Poll = ReadyOk(written: nat) | ReadyErr(cause: IoError) | Pending

  /** Each sink id with the bytes it has accepted so far. */
  type Sinks = map<string, Bytes>

  /** Each source id with its destination ids in declaration order. */
  type Routes = map<string, seq<string>>

  // ---------------------------------------------------------------------------
  // write_non_blocking

  /** `poll_write` never reports more bytes written than it was given. */
  predicate Fits(poll: Poll, len: nat) {
    poll.ReadyOk? ==> poll.written <= len
  }

  /** The bytes a sink accepts from `buf` under `poll`: a prefix of `buf` on `Ready(Ok(n))`, nothing otherwise. */
  function Accepted(buf: Bytes, poll: Poll): Bytes
    requires Fits(poll, |buf|)
  {
    if poll.ReadyOk? then buf[..poll.written] else []
  }

  /**
   * One non-blocking write of `buf` to the sink whose output is `dst`. A ready
   * write of n bytes is a success and advances `buf` by n (a partial write
   * included); a ready error is `Error::Write` of it; a pending write is
   * `Error::Write` of kind `WouldBlock`, and `buf` is left as it was.
   */
  method WriteNonBlocking(dst: Bytes, buf: Bytes, poll: Poll) returns (dst': Bytes, buf': Bytes, r: Result<(), Error>)
    requires Fits(poll, |buf|)
    ensures dst' == dst + Accepted(buf, poll)
    ensures dst' + buf' == dst + buf
    ensures r.Ok? <==> poll.ReadyOk?
    ensures poll.ReadyErr? ==> r == Err(Write(poll.cause))
    ensures poll.Pending? ==> r == Err(Write(IoError(WouldBlock)))
  {
    match poll
    case ReadyOk(n) =>
      dst' := dst + buf[..n];
      buf' := buf[n..];
      assert buf == buf[..n] + buf[n..];
      r := Ok(());
    case ReadyErr(e) =>
      dst', buf' := dst, buf;
      r := Err(Write(e));
    case Pending =>
      dst', buf' := dst, buf;
      r := Err(Write(IoError(WouldBlock)));
  }

  // ---------------------------------------------------------------------------
  // The specification of transfer

  /** Every write attempt of event `k` fits its frame. */
  ghost predicate FrameFits(bytes: Bytes, k: nat, polls: (nat, nat) -> Poll) {
    forall j: nat {:trigger Fits(polls(k, j), |bytes|)} :: Fits(polls(k, j), |bytes|)
  }

  ghost predicate PollsFit(events: seq<ReadEvent>, polls: (nat, nat) -> Poll) {
    forall k :: 0 <= k < |events| && events[k].result.Data? ==> FrameFits(events[k].result.bytes, k, polls)
  }

  /** `sinks.get_mut(d)`: a present sink `d` appends `part` to its output; an absent one is skipped. */
  function Offer(sinks: Sinks, d: string, part: Bytes): (r: Sinks)
    ensures r.Keys == sinks.Keys
    ensures d in sinks ==> r[d] == sinks[d] + part
    ensures d !in sinks ==> r == sinks
    ensures forall id {:trigger r[id]} :: id in sinks && id != d ==> r[id] == sinks[id]
  {
    if d in sinks then sinks[d := sinks[d] + part] else sinks
  }

  /**
   * The fan-out of frame `bytes` (event `k`) to `dsts[j..]`, in list order: a
   * destination present in `sinks` gets what its own write attempt was
   * accepted; an absent one is skipped; no outcome stops the fan-out.
   */
  function Deliver(sinks: Sinks, dsts: seq<string>, bytes: Bytes, k: nat, polls: (nat, nat) -> Poll, j: nat): (r: Sinks)
    requires j <= |dsts| && FrameFits(bytes, k, polls)
    ensures r.Keys == sinks.Keys
    decreases |dsts| - j
  {
    if j == |dsts| then sinks
    else
      var d := dsts[j];
      Deliver(Offer(sinks, d, Accepted(bytes, polls(k, j))), dsts, bytes, k, polls, j + 1)
  }

  /** A sink that `dsts[j..]` does not name keeps its output through the fan-out. */
  lemma {:induction false} DeliverUntouched(sinks: Sinks, dsts: seq<string>, bytes: Bytes, k: nat, polls: (nat, nat) -> Poll, j: nat, id: string)
    requires j <= |dsts| && FrameFits(bytes, k, polls) && id in sinks && id !in dsts[j..]
    ensures Deliver(sinks, dsts, bytes, k, polls, j)[id] == sinks[id]
    decreases |dsts| - j
  {
    if j < |dsts| {
      var next := Offer(sinks, dsts[j], Accepted(bytes, polls(k, j)));
      assert dsts[j] in dsts[j..] && dsts[j + 1..] == dsts[j..][1..];
      assert next[id] == sinks[id];
      DeliverUntouched(next, dsts, bytes, k, polls, j + 1, id);
    }
  }

  /**
   * The library's `transfer` from event `k` on: a frame of a source with no
   * route entry is dropped, even a failed read; a failed read on a routed
   * source ends the loop with `Error::Read`; a routed frame is delivered; the
   * end of the script is the end of all sources and gives `Ok`.
   */
  function Run(sinks: Sinks, routes: Routes, events: seq<ReadEvent>, polls: (nat, nat) -> Poll, k: nat): (r: (Sinks, Result<(), Error>))
    requires k <= |events| && PollsFit(events, polls)
    ensures r.0.Keys == sinks.Keys
    ensures r.1.Err? ==> r.1.error.Read?
    decreases |events| - k
  {
    if k == |events| then (sinks, Ok(()))
    else
      var ev := events[k];
      if ev.src !in routes then Run(sinks, routes, events, polls, k + 1)
      else match ev.result
        case ReadFailed(e) => (sinks, Err(Read(e)))
        case Data(bytes) => Run(Deliver(sinks, routes[ev.src], bytes, k, polls, 0), routes, events, polls, k + 1)
  }

  // ---------------------------------------------------------------------------
  // transfer

  /**
   * The inner `for` loop of `transfer`: offer frame `bytes` of event `k` to
   * each destination in turn with one non-blocking write; an absent sink is
   * skipped and a failed write is only logged.
   */
  method FanOut(sinks0: Sinks, dsts: seq<string>, bytes: Bytes, k: nat, polls: (nat, nat) -> Poll) returns (sinks: Sinks)
    requires FrameFits(bytes, k, polls)
    ensures sinks == Deliver(sinks0, dsts, bytes, k, polls, 0)
  {
    sinks := sinks0;
    for j := 0 to |dsts|
      invariant Deliver(sinks0, dsts, bytes, k, polls, 0) == Deliver(sinks, dsts, bytes, k, polls, j)
    {
      var d := dsts[j];
      ghost var part := Accepted(bytes, polls(k, j));
      if d in sinks {
        var buf := bytes;
        var out, rest, r := WriteNonBlocking(sinks[d], buf, polls(k, j));
        assert sinks[d := out] == Offer(sinks, d, part);
        sinks := sinks[d := out];
      }
    }
  }

  /**
   * The library's `transfer`: for each read event in turn, look up the
   * source's destinations, fail on a read error of a routed source, and
   * offer the frame to each present destination with one non-blocking write,
   * whose failure is only logged. Returns the final sink outputs and the
   * loop's result.
   */
  method Transfer(sinks0: Sinks, routes: Routes, events: seq<ReadEvent>, polls: (nat, nat) -> Poll)
    returns (sinks: Sinks, result: Result<(), Error>)
    requires PollsFit(events, polls)
    ensures (sinks, result) == Run(sinks0, routes, events, polls, 0)
  {
    sinks := sinks0;
    var k := 0;
    while k < |events|
      invariant 0 <= k <= |events|
      invariant Run(sinks0, routes, events, polls, 0) == Run(sinks, routes, events, polls, k)
    {
      var ev := events[k];
      if ev.src in routes {
        match ev.result {
          case ReadFailed(e) =>
            result := Err(Read(e));
            return;
          case Data(bytes) =>
            sinks := FanOut(sinks, routes[ev.src], bytes, k, polls);
        }
      }
      k := k + 1;
    }
    result := Ok(());
  }

  // ---------------------------------------------------------------------------
  // Properties of the fan-out

  /** Number of times `d` occurs in `s`. */
  function Count(d: string, s: seq<string>): nat {
    if s == [] then 0 else (if s[0] == d then 1 else 0) + Count(d, s[1..])
  }

  /** `n` copies of `b`, one after the other. */
  function Repeat(b: Bytes, n: nat): Bytes {
    if n == 0 then [] else b + Repeat(b, n - 1)
  }

  /** What destination `d` is offered from the fan-out of `dsts[j..]`: the accepted bytes of its own positions, in order. */
  function Gathered(d: string, dsts: seq<string>, bytes: Bytes, k: nat, polls: (nat, nat) -> Poll, j: nat): Bytes
    requires j <= |dsts| && FrameFits(bytes, k, polls)
    decreases |dsts| - j
  {
    if j == |dsts| then []
    else (if dsts[j] == d then Accepted(bytes, polls(k, j)) else []) + Gathered(d, dsts, bytes, k, polls, j + 1)
  }

  /** After the fan-out, a present destination holds what it had plus what its own write attempts were accepted. */
  lemma {:induction false} DeliverGathers(sinks: Sinks, dsts: seq<string>, bytes: Bytes, k: nat, polls: (nat, nat) -> Poll, j: nat, d: string)
    requires j <= |dsts| && FrameFits(bytes, k, polls) && d in sinks
    ensures Deliver(sinks, dsts, bytes, k, polls, j)[d] == sinks[d] + Gathered(d, dsts, bytes, k, polls, j)
    decreases |dsts| - j
  {
    if j < |dsts| {
      var e := dsts[j];
      var part := Accepted(bytes, polls(k, j));
      var next := Offer(sinks, e, part);
      var own := if e == d then part else [];
      var rest := Gathered(d, dsts, bytes, k, polls, j + 1);
      assert next[d] == sinks[d] + own;
      DeliverGathers(next, dsts, bytes, k, polls, j + 1, d);
      assert (sinks[d] + own) + rest == sinks[d] + (own + rest);
    }
  }

  /**
   * Fan-out independence: what a destination receives depends only on the
   * outcomes of its own write attempts; a write that fails, is partial or
   * would block on any other destination changes nothing for it.
   */
  lemma {:induction false} FanOutIndependence(sinks: Sinks, dsts: seq<string>, bytes: Bytes, k: nat,
                                              polls1: (nat, nat) -> Poll, polls2: (nat, nat) -> Poll, d: string)
    requires FrameFits(bytes, k, polls1) && FrameFits(bytes, k, polls2) && d in sinks
    requires forall j :: 0 <= j < |dsts| && dsts[j] == d ==> polls1(k, j) == polls2(k, j)
    ensures Deliver(sinks, dsts, bytes, k, polls1, 0)[d] == Deliver(sinks, dsts, bytes, k, polls2, 0)[d]
  {
    DeliverGathers(sinks, dsts, bytes, k, polls1, 0, d);
    DeliverGathers(sinks, dsts, bytes, k, polls2, 0, d);
    GatheredOwnPolls(d, dsts, bytes, k, polls1, polls2, 0);
  }

  lemma {:induction false} GatheredOwnPolls(d: string, dsts: seq<string>, bytes: Bytes, k: nat,
                                            polls1: (nat, nat) -> Poll, polls2: (nat, nat) -> Poll, j: nat)
    requires j <= |dsts| && FrameFits(bytes, k, polls1) && FrameFits(bytes, k, polls2)
    requires forall i :: j <= i < |dsts| && dsts[i] == d ==> polls1(k, i) == polls2(k, i)
    ensures Gathered(d, dsts, bytes, k, polls1, j) == Gathered(d, dsts, bytes, k, polls2, j)
    decreases |dsts| - j
  {
    if j < |dsts| {
      GatheredOwnPolls(d, dsts, bytes, k, polls1, polls2, j + 1);
      if dsts[j] == d {
        assert polls1(k, j) == polls2(k, j);
      }
    }
  }

  /** A write that takes the whole frame. */
  ghost predicate FullWrite(bytes: Bytes, k: nat, polls: (nat, nat) -> Poll) {
    forall j: nat :: polls(k, j) == ReadyOk(|bytes|)
  }

  /** When every write takes the whole frame, each destination receives one copy of the frame per occurrence in the list. */
  lemma {:induction false} GatheredFull(d: string, dsts: seq<string>, bytes: Bytes, k: nat, polls: (nat, nat) -> Poll, j: nat)
    requires j <= |dsts| && FullWrite(bytes, k, polls)
    ensures FrameFits(bytes, k, polls)
    ensures Gathered(d, dsts, bytes, k, polls, j) == Repeat(bytes, Count(d, dsts[j..]))
    decreases |dsts| - j
  {
    if j < |dsts| {
      GatheredFull(d, dsts, bytes, k, polls, j + 1);
      assert dsts[j..][1..] == dsts[j + 1..];
      assert Accepted(bytes, polls(k, j)) == bytes;
    }
  }

  /** Every read event from `k` on comes from a source without a route entry. */
  ghost predicate AllUnrouted(routes: Routes, events: seq<ReadEvent>, k: nat) {
    forall i :: k <= i < |events| ==> events[i].src !in routes
  }

  /** Frames and read errors of sources without a route entry are discarded: no sink changes and the loop ends with `Ok`. */
  lemma {:induction false} UnroutedDiscarded(sinks: Sinks, routes: Routes, events: seq<ReadEvent>, polls: (nat, nat) -> Poll, k: nat)
    requires k <= |events| && PollsFit(events, polls) && AllUnrouted(routes, events, k)
    ensures Run(sinks, routes, events, polls, k) == (sinks, Ok(()))
    decreases |events| - k
  {
    if k < |events| {
      UnroutedDiscarded(sinks, routes, events, polls, k + 1);
    }
  }

  /** One item of a source without a route entry, frame or read error, is skipped: nothing changes and the loop goes on. */
  lemma UnroutedSkipped(sinks: Sinks, routes: Routes, events: seq<ReadEvent>, polls: (nat, nat) -> Poll, k: nat)
    requires k < |events| && PollsFit(events, polls) && events[k].src !in routes
    ensures Run(sinks, routes, events, polls, k) == Run(sinks, routes, events, polls, k + 1)
  {
  }

  /** Event `i` is a failed read on a source that has a route entry. */
  predicate RoutedReadError(routes: Routes, ev: ReadEvent) {
    ev.src in routes && ev.result.ReadFailed?
  }

  /**
   * The loop ends with `Ok` exactly when the sources run out without a failed
   * read on a routed source; otherwise it ends with `Error::Read` of the first
   * such failure.
   */
  lemma {:induction false} RunResult(sinks: Sinks, routes: Routes, events: seq<ReadEvent>, polls: (nat, nat) -> Poll, k: nat)
    requires k <= |events| && PollsFit(events, polls)
    ensures Run(sinks, routes, events, polls, k).1.Ok? <==> forall i :: k <= i < |events| ==> !RoutedReadError(routes, events[i])
    ensures Run(sinks, routes, events, polls, k).1.Err? ==>
      exists i :: k <= i < |events| && RoutedReadError(routes, events[i]) &&
        Run(sinks, routes, events, polls, k).1.error == Read(events[i].result.cause) &&
        forall i' :: k <= i' < i ==> !RoutedReadError(routes, events[i'])
    decreases |events| - k
  {
    if k < |events| {
      var ev := events[k];
      if RoutedReadError(routes, ev) {
        assert Run(sinks, routes, events, polls, k).1 == Err(Read(ev.result.cause));
      } else {
        var next := if ev.src in routes then Deliver(sinks, routes[ev.src], ev.result.bytes, k, polls, 0) else sinks;
        assert Run(sinks, routes, events, polls, k) == Run(next, routes, events, polls, k + 1);
        RunResult(next, routes, events, polls, k + 1);
        if Run(next, routes, events, polls, k + 1).1.Err? {
          var i :| k + 1 <= i < |events| && RoutedReadError(routes, events[i]) &&
            Run(next, routes, events, polls, k + 1).1.error == Read(events[i].result.cause) &&
            forall i' :: k + 1 <= i' < i ==> !RoutedReadError(routes, events[i']);
          assert forall i' :: k <= i' < i ==> !RoutedReadError(routes, events[i']);
        }
      }
    }
  }

  /** Only destinations are written: a sink that no routed source lists keeps its output. */
  lemma {:induction false} OnlyDestinationsWritten(sinks: Sinks, routes: Routes, events: seq<ReadEvent>, polls: (nat, nat) -> Poll, k: nat, d: string)
    requires k <= |events| && PollsFit(events, polls) && d in sinks
    requires forall i :: k <= i < |events| && events[i].src in routes ==> d !in routes[events[i].src]
    ensures Run(sinks, routes, events, polls, k).0[d] == sinks[d]
    decreases |events| - k
  {
    if k < |events| {
      var ev := events[k];
      if ev.src !in routes {
        OnlyDestinationsWritten(sinks, routes, events, polls, k + 1, d);
      } else if ev.result.Data? {
        var next := Deliver(sinks, routes[ev.src], ev.result.bytes, k, polls, 0);
        assert routes[ev.src][0..] == routes[ev.src];
        DeliverUntouched(sinks, routes[ev.src], ev.result.bytes, k, polls, 0, d);
        OnlyDestinationsWritten(next, routes, events, polls, k + 1, d);
      }
    }
  }

  /** Every write of every frame takes the whole frame. */
  ghost predicate AllFullWrites(events: seq<ReadEvent>, polls: (nat, nat) -> Poll) {
    forall k :: 0 <= k < |events| && events[k].result.Data? ==> FullWrite(events[k].result.bytes, k, polls)
  }

  /**
   * What sink `d` should receive from event `k` on when every write is whole:
   * each routed frame, in read order, once per occurrence of `d` among its
   * source's destinations, up to the first failed read on a routed source.
   */
  function Expected(d: string, routes: Routes, events: seq<ReadEvent>, k: nat): Bytes
    requires k <= |events|
    decreases |events| - k
  {
    if k == |events| then []
    else
      var ev := events[k];
      if ev.src !in routes then Expected(d, routes, events, k + 1)
      else match ev.result
        case ReadFailed(_) => []
        case Data(bytes) => Repeat(bytes, Count(d, routes[ev.src])) + Expected(d, routes, events, k + 1)
  }

  lemma FullWritesFit(events: seq<ReadEvent>, polls: (nat, nat) -> Poll)
    requires AllFullWrites(events, polls)
    ensures PollsFit(events, polls)
  {
    forall k | 0 <= k < |events| && events[k].result.Data?
      ensures FrameFits(events[k].result.bytes, k, polls)
    {
      GatheredFull("", [], events[k].result.bytes, k, polls, 0);
    }
  }

  /**
   * Delivery in declared order: when every write is whole, each sink ends up
   * with its old output followed by exactly the frames routed to it, in the
   * order they were read.
   */
  lemma {:induction false} RunDeliversExpected(sinks: Sinks, routes: Routes, events: seq<ReadEvent>, polls: (nat, nat) -> Poll, k: nat, d: string)
    requires k <= |events| && AllFullWrites(events, polls) && d in sinks
    ensures PollsFit(events, polls)
    ensures Run(sinks, routes, events, polls, k).0[d] == sinks[d] + Expected(d, routes, events, k)
    decreases |events| - k
  {
    FullWritesFit(events, polls);
    if k < |events| {
      var ev := events[k];
      if ev.src !in routes {
        RunDeliversExpected(sinks, routes, events, polls, k + 1, d);
      } else if ev.result.Data? {
        var dsts, bytes := routes[ev.src], ev.result.bytes;
        var next := Deliver(sinks, dsts, bytes, k, polls, 0);
        DeliverGathers(sinks, dsts, bytes, k, polls, 0, d);
        GatheredFull(d, dsts, bytes, k, polls, 0);
        assert dsts[0..] == dsts;
        RunDeliversExpected(next, routes, events, polls, k + 1, d);
      }
    }
  }
}
