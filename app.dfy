/**
 * The binary (src/main.rs): `main` registers every declared endpoint under
 * its id as a source and as a sink and folds the route arguments into a
 * routing table; its own `transfer` delivers each frame with a blocking
 * `write_all` and stops on the first failure, when the sources are exhausted
 * or when shutdown is requested.
 */
module App {
  import opened Wrappers
  import Cli
  import Router

  // ---------------------------------------------------------------------------
  // Endpoint registration (main, the two `for` loops over the ports)

  /** What a registered id stands for: the pty of a virtual port or an opened device. */
  datatype Port = VirtualPort(path: string) | PhysicalPort(path: string, baudRate: nat)

  datatype Endpoint = Endpoint(id: string, port: Port)

  function VirtualEndpoints(virtuals: seq<Cli.Virtual>): seq<Endpoint> {
    seq(|virtuals|, i requires 0 <= i < |virtuals| => Endpoint(virtuals[i].id, VirtualPort(virtuals[i].path)))
  }

  function PhysicalEndpoints(physicals: seq<Cli.Physical>): seq<Endpoint> {
    seq(|physicals|, i requires 0 <= i < |physicals| =>
      Endpoint(physicals[i].id, PhysicalPort(physicals[i].path, physicals[i].baudRate)))
  }

  /** All endpoints in the order `main` registers them: the virtual ports, then the physical ones. */
  function Declared(virtuals: seq<Cli.Virtual>, physicals: seq<Cli.Physical>): seq<Endpoint> {
    VirtualEndpoints(virtuals) + PhysicalEndpoints(physicals)
  }

  /** The map that inserting the endpoints one after the other builds: a later insert of an id replaces the earlier one. */
  function Registry(es: seq<Endpoint>): map<string, Port> {
    if es == [] then map[] else Registry(es[..|es| - 1])[es[|es| - 1].id := es[|es| - 1].port]
  }

  /** The registry holds exactly the declared ids. */
  lemma {:induction false} RegistryKeys(es: seq<Endpoint>)
    ensures forall id :: id in Registry(es) <==> exists i :: 0 <= i < |es| && es[i].id == id
  {
    if es != [] {
      var init, last := es[..|es| - 1], es[|es| - 1];
      RegistryKeys(init);
      forall id | exists i :: 0 <= i < |es| && es[i].id == id
        ensures id in Registry(es)
      {
        var i :| 0 <= i < |es| && es[i].id == id;
        if i < |es| - 1 {
          assert init[i].id == id;
        }
      }
      forall id | id in Registry(es)
        ensures exists i :: 0 <= i < |es| && es[i].id == id
      {
        if id == last.id {
          assert es[|es| - 1].id == id;
        } else {
          assert id in Registry(init);
          var i :| 0 <= i < |init| && init[i].id == id;
          assert es[i].id == id;
        }
      }
    }
  }

  /** A declaration that no later one repeats supplies the port its id is registered with. */
  lemma {:induction false} RegistryLastWins(es: seq<Endpoint>, i: nat)
    requires i < |es| && forall i' :: i < i' < |es| ==> es[i'].id != es[i].id
    ensures es[i].id in Registry(es) && Registry(es)[es[i].id] == es[i].port
    decreases |es|
  {
    if i < |es| - 1 {
      var init := es[..|es| - 1];
      assert init[i] == es[i];
      RegistryLastWins(init, i);
    }
  }

  /** Inserting one more declaration updates the registry at that declaration's id. */
  lemma RegistryAppend(es: seq<Endpoint>, e: Endpoint)
    ensures Registry(es + [e]) == Registry(es)[e.id := e.port]
  {
    assert (es + [e])[..|es|] == es;
  }

  /** The declaration at position `i`: a virtual port, or past them a physical one. */
  lemma DeclaredAt(virtuals: seq<Cli.Virtual>, physicals: seq<Cli.Physical>, i: nat)
    requires i < |virtuals| + |physicals|
    ensures |Declared(virtuals, physicals)| == |virtuals| + |physicals|
    ensures i < |virtuals| ==> Declared(virtuals, physicals)[i] == Endpoint(virtuals[i].id, VirtualPort(virtuals[i].path))
    ensures i >= |virtuals| ==> var p := physicals[i - |virtuals|];
      Declared(virtuals, physicals)[i] == Endpoint(p.id, PhysicalPort(p.path, p.baudRate))
  {
  }

  /**
   * The registration loops of `main`: each virtual port, then each physical
   * port, is inserted under its id into both the source map and the sink
   * map (nothing checks for a repeated id), and each virtual port leaves its
   * link in `links`, in declaration order.
   */
  method RegisterEndpoints(virtuals: seq<Cli.Virtual>, physicals: seq<Cli.Physical>)
    returns (sources: map<string, Port>, sinks: map<string, Port>, links: seq<string>)
    ensures sources == Registry(Declared(virtuals, physicals))
    ensures sinks == Registry(Declared(virtuals, physicals))
    ensures |links| == |virtuals| && forall i :: 0 <= i < |virtuals| ==> links[i] == virtuals[i].path
  {
    ghost var done: seq<Endpoint> := [];
    sources, sinks, links := map[], map[], [];
    for i := 0 to |virtuals|
      invariant sources == Registry(done) && sinks == sources
      invariant |done| == i && forall j :: 0 <= j < i ==> done[j] == Endpoint(virtuals[j].id, VirtualPort(virtuals[j].path))
      invariant |links| == i && forall j :: 0 <= j < i ==> links[j] == virtuals[j].path
    {
      var v := virtuals[i];
      RegistryAppend(done, Endpoint(v.id, VirtualPort(v.path)));
      sources := sources[v.id := VirtualPort(v.path)];
      sinks := sinks[v.id := VirtualPort(v.path)];
      links := links + [v.path];
      done := done + [Endpoint(v.id, VirtualPort(v.path))];
    }
    for i := 0 to |physicals|
      invariant sources == Registry(done) && sinks == sources
      invariant |done| == |virtuals| + i
      invariant forall j :: 0 <= j < |virtuals| ==> done[j] == Endpoint(virtuals[j].id, VirtualPort(virtuals[j].path))
      invariant forall j :: 0 <= j < i ==> done[|virtuals| + j] == Endpoint(physicals[j].id, PhysicalPort(physicals[j].path, physicals[j].baudRate))
    {
      var p := physicals[i];
      RegistryAppend(done, Endpoint(p.id, PhysicalPort(p.path, p.baudRate)));
      sources := sources[p.id := PhysicalPort(p.path, p.baudRate)];
      sinks := sinks[p.id := PhysicalPort(p.path, p.baudRate)];
      done := done + [Endpoint(p.id, PhysicalPort(p.path, p.baudRate))];
    }
    assert done == Declared(virtuals, physicals) by {
      forall j | 0 <= j < |done|
        ensures done[j] == Declared(virtuals, physicals)[j]
      {
        DeclaredAt(virtuals, physicals, j);
      }
      assert |Declared(virtuals, physicals)| == |done|;
    }
  }

  // ---------------------------------------------------------------------------
  // The routing table (main, `routes.entry(src).or_insert(..).push(dst)`)

  /** The destinations of the edges whose source is `src`, in declaration order, repetitions kept. */
  function DestinationsOf(edges: seq<Cli.Route>, src: string): seq<string> {
    if edges == [] then []
    else
      var last := edges[|edges| - 1];
      DestinationsOf(edges[..|edges| - 1], src) + (if last.src == src then [last.dst] else [])
  }

  /** The destination list of two batches of edges is that of the first followed by that of the second. */
  lemma {:induction false} DestinationsConcat(a: seq<Cli.Route>, b: seq<Cli.Route>, src: string)
    ensures DestinationsOf(a + b, src) == DestinationsOf(a, src) + DestinationsOf(b, src)
    decreases |b|
  {
    if b == [] {
      assert a + b == a;
    } else {
      var b', last := b[..|b| - 1], b[|b| - 1];
      assert (a + b)[..|a + b| - 1] == a + b';
      DestinationsConcat(a, b', src);
    }
  }

  /** `dst` is listed for `src` exactly when some edge goes from `src` to `dst`. */
  lemma {:induction false} DestinationsMembership(edges: seq<Cli.Route>, src: string, dst: string)
    ensures dst in DestinationsOf(edges, src) <==> Cli.Route(src, dst) in edges
  {
    if edges != [] {
      var init, last := edges[..|edges| - 1], edges[|edges| - 1];
      DestinationsMembership(init, src, dst);
      assert edges == init + [last];
    }
  }

  /** Appending one edge appends its destination to its source's list. */
  lemma DestinationsStep(edges: seq<Cli.Route>, e: Cli.Route, src: string)
    ensures DestinationsOf(edges + [e], src) == DestinationsOf(edges, src) + (if e.src == src then [e.dst] else [])
  {
    assert (edges + [e])[..|edges|] == edges;
  }

  /** A source that no edge names has no destinations. */
  lemma {:induction false} DestinationsOfUnnamed(edges: seq<Cli.Route>, src: string)
    requires forall e :: e in edges ==> e.src != src
    ensures DestinationsOf(edges, src) == []
  {
    if edges != [] {
      assert edges[|edges| - 1] in edges;
      DestinationsOfUnnamed(edges[..|edges| - 1], src);
    }
  }

  /**
   * The route loop of `main`: for each edge in turn, append its destination
   * to the list of its source, creating an empty list on the source's first
   * edge.
   */
  method BuildRoutes(edges: seq<Cli.Route>) returns (routes: Router.Routes)
    ensures routes.Keys == set e | e in edges :: e.src
    ensures forall src :: src in routes ==> routes[src] == DestinationsOf(edges, src)
  {
    routes := map[];
    for i := 0 to |edges|
      invariant routes.Keys == set e | e in edges[..i] :: e.src
      invariant forall src :: src in routes ==> routes[src] == DestinationsOf(edges[..i], src)
    {
      var route := edges[i];
      assert edges[..i + 1] == edges[..i] + [route];
      forall src
        ensures DestinationsOf(edges[..i + 1], src) == DestinationsOf(edges[..i], src) + (if route.src == src then [route.dst] else [])
      {
        DestinationsStep(edges[..i], route, src);
      }
      if route.src !in routes {
        DestinationsOfUnnamed(edges[..i], route.src);
      }
      var list := if route.src in routes then routes[route.src] else [];
      routes := routes[route.src := list + [route.dst]];
    }
    assert edges[..|edges|] == edges;
  }

  // ---------------------------------------------------------------------------
  // The blocking transfer loop of src/main.rs

  /** What the `select!` of `transfer` yields: an item of the source map, the end of all sources, or shutdown. */
  datatype SelectEvent = Next(src: string, result: Router.ReadResult) | SourcesClosed | Shutdown

  /** The outcome of one `write_all_buf`: the whole frame, or an error after a proper prefix of it. */
  datatype WriteAll = WroteAll | WriteAllFailed(written: nat, cause: Router.IoError)

  /** The errors `main`'s `transfer` returns. */
  datatype AppError = ChannelClosed | ReadError(cause: Router.IoError) | WriteError(cause: Router.IoError)

  /** How the loop stands at the end of a script: still waiting, or returned. */
  datatype LoopEnd = Running | ReturnedOk | ReturnedErr(error: AppError)

  predicate RoutedInto(dsts: seq<string>, sinks: Router.Sinks) {
    forall d :: d in dsts ==> d in sinks
  }

  /**
   * Neither `unwrap` of `transfer` panics: every source read has a route
   * entry (looked up before the read result is checked), and the
   * destinations of every frame are sinks.
   */
  ghost predicate LookupsSucceed(sinks: Router.Sinks, routes: Router.Routes, events: seq<SelectEvent>) {
    forall k :: 0 <= k < |events| && events[k].Next? ==>
      events[k].src in routes && (events[k].result.Data? ==> RoutedInto(routes[events[k].src], sinks))
  }

  /** A failed `write_all_buf` has written less than the whole frame (an empty frame is written without any call). */
  ghost predicate FrameWritesFit(bytes: Router.Bytes, k: nat, writes: (nat, nat) -> WriteAll) {
    forall j: nat :: writes(k, j).WriteAllFailed? ==> writes(k, j).written < |bytes|
  }

  ghost predicate WritesFit(events: seq<SelectEvent>, writes: (nat, nat) -> WriteAll) {
    forall k :: 0 <= k < |events| && events[k].Next? && events[k].result.Data? ==>
      FrameWritesFit(events[k].result.bytes, k, writes)
  }

  /**
   * `dst.write_all_buf(&mut buf)`: either the whole of `buf` reaches the
   * sink, or an error stops it after `written` bytes; nothing is lost or
   * invented either way.
   */
  method WriteAllBuf(dst: Router.Bytes, buf: Router.Bytes, outcome: WriteAll)
    returns (dst': Router.Bytes, buf': Router.Bytes, r: Result<(), Router.IoError>)
    requires outcome.WriteAllFailed? ==> outcome.written < |buf|
    ensures dst' + buf' == dst + buf
    ensures r.Ok? <==> outcome.WroteAll?
    ensures outcome.WroteAll? ==> dst' == dst + buf && buf' == []
    ensures outcome.WriteAllFailed? ==> r == Err(outcome.cause) && dst' == dst + buf[..outcome.written]
  {
    match outcome
    case WroteAll =>
      dst', buf' := dst + buf, [];
      r := Ok(());
    case WriteAllFailed(n, e) =>
      dst', buf' := dst + buf[..n], buf[n..];
      assert buf == buf[..n] + buf[n..];
      r := Err(e);
  }

  /** The fan-out of frame `bytes` (event `k`) to `dsts[j..]` in list order, stopping at the first failed write. */
  function WriteAllFrom(sinks: Router.Sinks, dsts: seq<string>, bytes: Router.Bytes, k: nat,
                        writes: (nat, nat) -> WriteAll, j: nat): (r: (Router.Sinks, Option<Router.IoError>))
    requires j <= |dsts| && RoutedInto(dsts, sinks) && FrameWritesFit(bytes, k, writes)
    ensures r.0.Keys == sinks.Keys
    ensures forall id :: id in sinks && id !in dsts[j..] ==> r.0[id] == sinks[id]
    decreases |dsts| - j
  {
    if j == |dsts| then (sinks, None)
    else
      var d := dsts[j];
      assert forall id :: id !in dsts[j + 1..] && id != d ==> id !in dsts[j..];
      match writes(k, j)
      case WroteAll => WriteAllFrom(sinks[d := sinks[d] + bytes], dsts, bytes, k, writes, j + 1)
      case WriteAllFailed(n, e) => (sinks[d := sinks[d] + bytes[..n]], Some(e))
  }

  /**
   * `main`'s `transfer` from event `k` on: shutdown returns `Ok`; the end of
   * the sources is a "channel closed" error; a failed read is an error; a
   * frame goes to every destination in order, and a failed write ends the
   * loop with that error.
   */
  function RunBlocking(sinks: Router.Sinks, routes: Router.Routes, events: seq<SelectEvent>,
                       writes: (nat, nat) -> WriteAll, k: nat): (r: (Router.Sinks, LoopEnd))
    requires k <= |events| && LookupsSucceed(sinks, routes, events) && WritesFit(events, writes)
    ensures r.0.Keys == sinks.Keys
    decreases |events| - k
  {
    if k == |events| then (sinks, Running)
    else match events[k]
      case SourcesClosed => (sinks, ReturnedErr(ChannelClosed))
      case Shutdown => (sinks, ReturnedOk)
      case Next(src, result) =>
        match result
        case ReadFailed(e) => (sinks, ReturnedErr(ReadError(e)))
        case Data(bytes) =>
          var after := WriteAllFrom(sinks, routes[src], bytes, k, writes, 0);
          assert LookupsSucceed(after.0, routes, events);
          match after.1
          case Some(e) => (after.0, ReturnedErr(WriteError(e)))
          case None => RunBlocking(after.0, routes, events, writes, k + 1)
  }

  /**
   * `main`'s `transfer`: wait for the next source item or shutdown, look up
   * the source's destinations, fail on a read error, and write the frame in
   * full to each destination in turn, failing on the first write error.
   */
  method BlockingTransfer(sinks0: Router.Sinks, routes: Router.Routes, events: seq<SelectEvent>, writes: (nat, nat) -> WriteAll)
    returns (sinks: Router.Sinks, end: LoopEnd)
    requires LookupsSucceed(sinks0, routes, events) && WritesFit(events, writes)
    ensures (sinks, end) == RunBlocking(sinks0, routes, events, writes, 0)
  {
    sinks := sinks0;
    var k := 0;
    while k < |events|
      invariant 0 <= k <= |events|
      invariant sinks.Keys == sinks0.Keys
      invariant LookupsSucceed(sinks, routes, events)
      invariant RunBlocking(sinks0, routes, events, writes, 0) == RunBlocking(sinks, routes, events, writes, k)
    {
      match events[k] {
        case SourcesClosed =>
          end := ReturnedErr(ChannelClosed);
          return;
        case Shutdown =>
          end := ReturnedOk;
          return;
        case Next(src, result) =>
          var dsts := routes[src];
          match result {
            case ReadFailed(e) =>
              end := ReturnedErr(ReadError(e));
              return;
            case Data(bytes) =>
              ghost var before := sinks;
              for j := 0 to |dsts|
                invariant sinks.Keys == before.Keys
                invariant WriteAllFrom(before, dsts, bytes, k, writes, 0) == WriteAllFrom(sinks, dsts, bytes, k, writes, j)
              {
                var d := dsts[j];
                var out, rest, r := WriteAllBuf(sinks[d], bytes, writes(k, j));
                if r.Err? {
                  sinks := sinks[d := out];
                  end := ReturnedErr(WriteError(r.error));
                  return;
                }
                sinks := sinks[d := out];
              }
          }
      }
      k := k + 1;
    }
    end := Running;
  }

  // ---------------------------------------------------------------------------
  // Properties of the blocking loop

  /** Without a failed write, every destination gets one whole copy of the frame per occurrence in the list. */
  lemma {:induction false} WriteAllDelivers(sinks: Router.Sinks, dsts: seq<string>, bytes: Router.Bytes, k: nat,
                                            writes: (nat, nat) -> WriteAll, j: nat, d: string)
    requires j <= |dsts| && RoutedInto(dsts, sinks) && FrameWritesFit(bytes, k, writes) && d in sinks
    requires forall i :: j <= i < |dsts| ==> writes(k, i).WroteAll?
    ensures WriteAllFrom(sinks, dsts, bytes, k, writes, j).1 == None
    ensures WriteAllFrom(sinks, dsts, bytes, k, writes, j).0[d] == sinks[d] + Router.Repeat(bytes, Router.Count(d, dsts[j..]))
    decreases |dsts| - j
  {
    if j < |dsts| {
      var e := dsts[j];
      var next := sinks[e := sinks[e] + bytes];
      var own: Router.Bytes := if e == d then bytes else [];
      var rest := Router.Repeat(bytes, Router.Count(d, dsts[j + 1..]));
      var r := WriteAllFrom(sinks, dsts, bytes, k, writes, j);
      assert r == WriteAllFrom(next, dsts, bytes, k, writes, j + 1) by {
        assert writes(k, j).WroteAll?;
      }
      assert r.1 == None && r.0[d] == next[d] + rest by {
        WriteAllDelivers(next, dsts, bytes, k, writes, j + 1, d);
      }
      assert next[d] == sinks[d] + own;
      assert Router.Repeat(bytes, Router.Count(d, dsts[j..])) == own + rest by {
        assert dsts[j..][0] == e && dsts[j..][1..] == dsts[j + 1..];
        CopiesStep(bytes, dsts[j..], d);
      }
      Regroup(sinks[d], own, rest, []);
      assert sinks[d] + own + rest + [] == sinks[d] + own + rest;
      assert sinks[d] + (own + rest) + [] == sinks[d] + (own + rest);
    } else {
      assert dsts[j..] == [];
    }
  }

  /**
   * A fan-out that fails part-way: each destination before the first failed
   * write has one whole copy of the frame per listing there, and the
   * destination of the failed write also holds the prefix written before
   * the error.
   */
  lemma {:induction false} WriteAllFailedContents(sinks: Router.Sinks, dsts: seq<string>, bytes: Router.Bytes, k: nat,
                                                  writes: (nat, nat) -> WriteAll, j: nat, d: string)
    requires j <= |dsts| && RoutedInto(dsts, sinks) && FrameWritesFit(bytes, k, writes) && d in sinks
    requires FirstFailure(dsts, k, writes, j) < |dsts|
    ensures var f := FirstFailure(dsts, k, writes, j);
      WriteAllFrom(sinks, dsts, bytes, k, writes, j).0[d] ==
        sinks[d] + Router.Repeat(bytes, Router.Count(d, dsts[j..f])) + (if dsts[f] == d then bytes[..writes(k, f).written] else [])
    decreases |dsts| - j
  {
    var f := FirstFailure(dsts, k, writes, j);
    var e := dsts[j];
    var tail := if dsts[f] == d then bytes[..writes(k, f).written] else [];
    var r := WriteAllFrom(sinks, dsts, bytes, k, writes, j);
    if writes(k, j).WroteAll? {
      var next := sinks[e := sinks[e] + bytes];
      var own: Router.Bytes := if e == d then bytes else [];
      var rest := Router.Repeat(bytes, Router.Count(d, dsts[j + 1..f]));
      assert r.0[d] == next[d] + rest + tail by {
        assert r == WriteAllFrom(next, dsts, bytes, k, writes, j + 1);
        assert f == FirstFailure(dsts, k, writes, j + 1);
        WriteAllFailedContents(next, dsts, bytes, k, writes, j + 1, d);
      }
      assert next[d] == sinks[d] + own;
      assert Router.Repeat(bytes, Router.Count(d, dsts[j..f])) == own + rest by {
        assert dsts[j..f][0] == e && dsts[j..f][1..] == dsts[j + 1..f];
        CopiesStep(bytes, dsts[j..f], d);
      }
      Regroup(sinks[d], own, rest, tail);
    } else {
      assert f == j && dsts[j..f] == [];
      assert r.0 == sinks[e := sinks[e] + bytes[..writes(k, j).written]];
      assert sinks[d] + [] + tail == sinks[d] + tail;
    }
  }

  /** The copies of a frame owed for a non-empty list: those of its head, then those of the rest. */
  lemma CopiesStep(bytes: Router.Bytes, dsts: seq<string>, d: string)
    requires dsts != []
    ensures Router.Repeat(bytes, Router.Count(d, dsts)) ==
      (if dsts[0] == d then bytes else []) + Router.Repeat(bytes, Router.Count(d, dsts[1..]))
  {
  }

  lemma Regroup(p: Router.Bytes, q: Router.Bytes, r: Router.Bytes, s: Router.Bytes)
    ensures p + q + r + s == p + (q + r) + s
  {
  }

  /** Position of the first failed write of event `k` in `dsts[j..]`, or `|dsts|` if there is none. */
  function FirstFailure(dsts: seq<string>, k: nat, writes: (nat, nat) -> WriteAll, j: nat): (f: nat)
    requires j <= |dsts|
    ensures j <= f <= |dsts|
    ensures forall i :: j <= i < f ==> writes(k, i).WroteAll?
    ensures f < |dsts| ==> writes(k, f).WriteAllFailed?
    decreases |dsts| - j
  {
    if j == |dsts| || writes(k, j).WriteAllFailed? then j else FirstFailure(dsts, k, writes, j + 1)
  }

  /** The first failed write ends the fan-out: the fan-out fails exactly when some write fails, with the first failure's error. */
  lemma {:induction false} WriteAllStopsAtFirstFailure(sinks: Router.Sinks, dsts: seq<string>, bytes: Router.Bytes, k: nat,
                                                       writes: (nat, nat) -> WriteAll, j: nat)
    requires j <= |dsts| && RoutedInto(dsts, sinks) && FrameWritesFit(bytes, k, writes)
    ensures var r := WriteAllFrom(sinks, dsts, bytes, k, writes, j);
      var f := FirstFailure(dsts, k, writes, j);
      (r.1.None? <==> f == |dsts|) && (r.1.Some? ==> r.1.value == writes(k, f).cause)
    decreases |dsts| - j
  {
    if j < |dsts| && writes(k, j).WroteAll? {
      var d := dsts[j];
      WriteAllStopsAtFirstFailure(sinks[d := sinks[d] + bytes], dsts, bytes, k, writes, j + 1);
    }
  }

  /** No destination after the first failed write is written: a sink not routed up to that write keeps its contents. */
  lemma {:induction false} WriteAllSkipsAfterFailure(sinks: Router.Sinks, dsts: seq<string>, bytes: Router.Bytes, k: nat,
                                                     writes: (nat, nat) -> WriteAll, j: nat, id: string)
    requires j <= |dsts| && RoutedInto(dsts, sinks) && FrameWritesFit(bytes, k, writes) && id in sinks
    requires FirstFailure(dsts, k, writes, j) < |dsts|
    requires forall i :: j <= i <= FirstFailure(dsts, k, writes, j) ==> dsts[i] != id
    ensures WriteAllFrom(sinks, dsts, bytes, k, writes, j).0[id] == sinks[id]
    decreases |dsts| - j
  {
    var d := dsts[j];
    if writes(k, j).WroteAll? {
      var next := sinks[d := sinks[d] + bytes];
      assert WriteAllFrom(sinks, dsts, bytes, k, writes, j) == WriteAllFrom(next, dsts, bytes, k, writes, j + 1);
      WriteAllSkipsAfterFailure(next, dsts, bytes, k, writes, j + 1, id);
    }
  }

  /** Every item from `k` up to (not including) `i` is a read frame. */
  ghost predicate FramesUpTo(events: seq<SelectEvent>, k: nat, i: nat) {
    forall i' :: k <= i' < i && i' < |events| ==> events[i'].Next? && events[i'].result.Data?
  }

  /**
   * Item `i` accounts for the end `end` of the loop: `Ok` comes from a
   * shutdown, "channel closed" from the end of the sources, a read error from
   * that failed read, and a write error from a frame whose fan-out has a
   * failed write, with the cause of the first one.
   */
  predicate EndsAt(routes: Router.Routes, events: seq<SelectEvent>, writes: (nat, nat) -> WriteAll, end: LoopEnd, i: nat)
    requires i < |events|
  {
    (end == ReturnedOk ==> events[i] == Shutdown) &&
    (end == ReturnedErr(ChannelClosed) ==> events[i] == SourcesClosed) &&
    (end.ReturnedErr? && end.error.ReadError? ==> events[i].Next? && events[i].result == Router.ReadFailed(end.error.cause)) &&
    (end.ReturnedErr? && end.error.WriteError? ==>
      events[i].Next? && events[i].result.Data? && events[i].src in routes &&
      var dsts := routes[events[i].src];
      var f := FirstFailure(dsts, i, writes, 0);
      f < |dsts| && end.error.cause == writes(i, f).cause)
  }

  /**
   * How the loop can end: every way out is accounted for by one item, as
   * `EndsAt` says, and every earlier item was a frame. The loop is still
   * running only if every item was a frame.
   */
  lemma {:induction false} BlockingEnds(sinks: Router.Sinks, routes: Router.Routes, events: seq<SelectEvent>,
                                        writes: (nat, nat) -> WriteAll, k: nat)
    requires k <= |events| && LookupsSucceed(sinks, routes, events) && WritesFit(events, writes)
    ensures var end := RunBlocking(sinks, routes, events, writes, k).1;
      (end == Running ==> FramesUpTo(events, k, |events|)) &&
      (end != Running ==> exists i :: k <= i < |events| && FramesUpTo(events, k, i) && EndsAt(routes, events, writes, end, i))
    decreases |events| - k
  {
    if k < |events| {
      var end := RunBlocking(sinks, routes, events, writes, k).1;
      match events[k]
      case SourcesClosed =>
        assert FramesUpTo(events, k, k) && EndsAt(routes, events, writes, end, k);
      case Shutdown =>
        assert FramesUpTo(events, k, k) && EndsAt(routes, events, writes, end, k);
      case Next(src, result) =>
        match result
        case ReadFailed(e) =>
          assert FramesUpTo(events, k, k) && EndsAt(routes, events, writes, end, k);
        case Data(bytes) =>
          var after := WriteAllFrom(sinks, routes[src], bytes, k, writes, 0);
          if after.1.Some? {
            WriteAllStopsAtFirstFailure(sinks, routes[src], bytes, k, writes, 0);
            assert FramesUpTo(events, k, k) && EndsAt(routes, events, writes, end, k);
          } else {
            BlockingEnds(after.0, routes, events, writes, k + 1);
            if end != Running {
              var i :| k + 1 <= i < |events| && FramesUpTo(events, k + 1, i) && EndsAt(routes, events, writes, end, i);
              assert FramesUpTo(events, k, i);
            }
          }
    }
  }

  /**
   * Shutdown and the end of the sources are final: whatever the script holds
   * after such an item changes neither the sink outputs nor how the loop ends.
   */
  lemma {:induction false} NothingAfterStop(sinks: Router.Sinks, routes: Router.Routes, events: seq<SelectEvent>,
                                            writes: (nat, nat) -> WriteAll, k: nat, i: nat)
    requires k <= i < |events| && (events[i] == Shutdown || events[i] == SourcesClosed)
    requires LookupsSucceed(sinks, routes, events) && WritesFit(events, writes)
    ensures LookupsSucceed(sinks, routes, events[..i + 1]) && WritesFit(events[..i + 1], writes)
    ensures RunBlocking(sinks, routes, events, writes, k) == RunBlocking(sinks, routes, events[..i + 1], writes, k)
    decreases i - k
  {
    var prefix := events[..i + 1];
    assert forall k' :: 0 <= k' < |prefix| ==> prefix[k'] == events[k'];
    if k < i {
      match events[k]
      case SourcesClosed =>
      case Shutdown =>
      case Next(src, result) =>
        match result
        case ReadFailed(e) =>
        case Data(bytes) =>
          var after := WriteAllFrom(sinks, routes[src], bytes, k, writes, 0);
          if after.1.None? {
            NothingAfterStop(after.0, routes, events, writes, k + 1, i);
          }
    }
  }

  // ---------------------------------------------------------------------------
  // The two delivery policies compared

  /**
   * The library's read events as the items the binary's `select!` yields:
   * the same items, then the end of the sources, which the library's loop
   * sees as the end of its script.
   */
  function AsSelectEvents(events: seq<Router.ReadEvent>): (r: seq<SelectEvent>)
    ensures |r| == |events| + 1
    ensures forall i :: 0 <= i < |events| ==> r[i] == Next(events[i].src, events[i].result)
    ensures r[|events|] == SourcesClosed
  {
    seq(|events|, i requires 0 <= i < |events| => Next(events[i].src, events[i].result)) + [SourcesClosed]
  }

  ghost predicate NoWriteFails(writes: (nat, nat) -> WriteAll) {
    forall k: nat, j: nat :: writes(k, j) == WroteAll
  }

  lemma {:induction false} FanOutsAgree(sinks: Router.Sinks, dsts: seq<string>, bytes: Router.Bytes, k: nat,
                                        polls: (nat, nat) -> Router.Poll, writes: (nat, nat) -> WriteAll, j: nat)
    requires j <= |dsts| && RoutedInto(dsts, sinks)
    requires Router.FullWrite(bytes, k, polls) && NoWriteFails(writes)
    ensures Router.FrameFits(bytes, k, polls) && FrameWritesFit(bytes, k, writes)
    ensures WriteAllFrom(sinks, dsts, bytes, k, writes, j) == (Router.Deliver(sinks, dsts, bytes, k, polls, j), None)
    decreases |dsts| - j
  {
    Router.GatheredFull("", [], bytes, k, polls, 0);
    if j < |dsts| {
      var d := dsts[j];
      assert Router.Accepted(bytes, polls(k, j)) == bytes;
      FanOutsAgree(sinks[d := sinks[d] + bytes], dsts, bytes, k, polls, writes, j + 1);
    }
  }

  /**
   * When every write succeeds in full and every source is routed to
   * registered sinks, the two loops deliver the same bytes to every sink.
   * They differ on exhausted sources: the library's loop returns `Ok`
   * exactly when the binary's returns "channel closed". A failed read is
   * the same read error in both.
   */
  lemma {:induction false} PoliciesAgreeOnWholeWrites(sinks: Router.Sinks, routes: Router.Routes, events: seq<Router.ReadEvent>,
                                                      polls: (nat, nat) -> Router.Poll, writes: (nat, nat) -> WriteAll, k: nat)
    requires k <= |events| && LookupsSucceed(sinks, routes, AsSelectEvents(events))
    requires Router.AllFullWrites(events, polls) && NoWriteFails(writes)
    ensures Router.PollsFit(events, polls) && WritesFit(AsSelectEvents(events), writes)
    ensures var lib := Router.Run(sinks, routes, events, polls, k);
      var bin := RunBlocking(sinks, routes, AsSelectEvents(events), writes, k);
      lib.0 == bin.0 &&
      (lib.1 == Ok(()) <==> bin.1 == ReturnedErr(ChannelClosed)) &&
      (lib.1.Err? ==> bin.1 == ReturnedErr(ReadError(lib.1.error.cause)))
    decreases |events| - k
  {
    Router.FullWritesFit(events, polls);
    var sel := AsSelectEvents(events);
    if k < |events| {
      var ev := events[k];
      assert sel[k].Next? && sel[k].src == ev.src;
      match ev.result
      case ReadFailed(e) =>
      case Data(bytes) =>
        FanOutsAgree(sinks, routes[ev.src], bytes, k, polls, writes, 0);
        var after := Router.Deliver(sinks, routes[ev.src], bytes, k, polls, 0);
        PoliciesAgreeOnWholeWrites(after, routes, events, polls, writes, k + 1);
    }
  }
}
