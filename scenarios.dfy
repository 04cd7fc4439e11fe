/**
 * Concrete routings stated as lemmas about the model. The integration test
 * (tests/integration.rs) and the help text's example (src/cli.rs:82-89)
 * share one routing: two ports `a` and `b` both feed a third port `c`, and
 * `c` feeds both of them. It is stated here for any three distinct ids (both
 * use "0", "1" and "2").
 */
module Scenarios {
  import opened Wrappers
  import Cli
  import Router
  import App

  /** Three distinct port ids. */
  predicate Distinct(a: string, b: string, c: string) {
    a != b && b != c && a != c
  }

  /** `--route a:c --route b:c --route c:a --route c:b`. */
  function ListenerEdges(a: string, b: string, c: string): seq<Cli.Route> {
    [Cli.Route(a, c), Cli.Route(b, c), Cli.Route(c, a), Cli.Route(c, b)]
  }

  function ListenerRoutes(a: string, b: string, c: string): Router.Routes {
    map[a := [c], b := [c], c := [a, b]]
  }

  function EmptySinks(a: string, b: string, c: string): Router.Sinks {
    map[a := [], b := [], c := []]
  }

  /** The four `--route` arguments. */
  function ListenerArgs(a: string, b: string, c: string): seq<string> {
    [a + ":" + c, b + ":" + c, c + ":" + a, c + ":" + b]
  }

  /** Ids without ':' make the route arguments parse back to the four edges. */
  lemma ListenerArgsParse(a: string, b: string, c: string)
    requires ':' !in a && ':' !in b && ':' !in c
    ensures forall i :: 0 <= i < 4 ==> Cli.ParseRoute(ListenerArgs(a, b, c)[i]) == Ok(ListenerEdges(a, b, c)[i])
  {
    var args, edges := ListenerArgs(a, b, c), ListenerEdges(a, b, c);
    forall i | 0 <= i < 4
      ensures Cli.ParseRoute(args[i]) == Ok(edges[i])
    {
      assert args[i] == Cli.FormatRoute(edges[i]);
      Cli.RouteRoundTrip(edges[i]);
    }
  }

  /** `main`'s route loop over the four edges gives each port its destination list. */
  method ListenerRouting(a: string, b: string, c: string) returns (routes: Router.Routes)
    requires Distinct(a, b, c)
    ensures routes == ListenerRoutes(a, b, c)
  {
    var edges := ListenerEdges(a, b, c);
    routes := App.BuildRoutes(edges);
    var e0, e1, e2, e3 := edges[0], edges[1], edges[2], edges[3];
    assert (set e | e in edges :: e.src) == {a, b, c} by {
      assert e0 in edges && e1 in edges && e2 in edges && e3 in edges;
    }
    ListenerDestinations(a, b, c, a);
    ListenerDestinations(a, b, c, b);
    ListenerDestinations(a, b, c, c);
  }

  /** The destination lists of the four edges, one port at a time. */
  lemma ListenerDestinations(a: string, b: string, c: string, x: string)
    requires Distinct(a, b, c)
    ensures x == a ==> App.DestinationsOf(ListenerEdges(a, b, c), x) == [c]
    ensures x == b ==> App.DestinationsOf(ListenerEdges(a, b, c), x) == [c]
    ensures x == c ==> App.DestinationsOf(ListenerEdges(a, b, c), x) == [a, b]
  {
    var edges := ListenerEdges(a, b, c);
    var p1 := [edges[0]];
    var p2 := p1 + [edges[1]];
    var p3 := p2 + [edges[2]];
    assert edges == p3 + [edges[3]];
    App.DestinationsStep([], edges[0], x);
    assert [] + [edges[0]] == p1;
    App.DestinationsStep(p1, edges[1], x);
    App.DestinationsStep(p2, edges[2], x);
    App.DestinationsStep(p3, edges[3], x);
  }

  // ---------------------------------------------------------------------------
  // What each port is owed

  /** One step of `Expected` at a routed frame. */
  lemma ExpectedAtFrame(d: string, routes: Router.Routes, events: seq<Router.ReadEvent>, k: nat, src: string, bytes: Router.Bytes)
    requires k < |events| && events[k] == Router.ReadEvent(src, Router.Data(bytes)) && src in routes
    ensures Router.Expected(d, routes, events, k) ==
      Router.Repeat(bytes, Router.Count(d, routes[src])) + Router.Expected(d, routes, events, k + 1)
  {
  }

  /** How often `d` is a destination of each of the three ports, and so how many copies of each frame it gets. */
  lemma ListenerCounts(a: string, b: string, c: string, m: Router.Bytes)
    requires Distinct(a, b, c)
    ensures Router.Repeat(m, Router.Count(a, [c])) == [] && Router.Repeat(m, Router.Count(b, [c])) == []
    ensures Router.Repeat(m, Router.Count(c, [c])) == m
    ensures Router.Repeat(m, Router.Count(a, [a, b])) == m && Router.Repeat(m, Router.Count(b, [a, b])) == m
    ensures Router.Repeat(m, Router.Count(c, [a, b])) == []
  {
    assert [a, b][1..] == [b] && [b][1..] == [] && [c][1..] == [];
    assert Router.Count(a, [c]) == 0 && Router.Count(b, [c]) == 0 && Router.Count(c, [c]) == 1;
    assert Router.Count(a, [b]) == 0 && Router.Count(b, [b]) == 1 && Router.Count(c, [b]) == 0;
    assert Router.Count(a, [a, b]) == 1 && Router.Count(b, [a, b]) == 1 && Router.Count(c, [a, b]) == 0;
    assert Router.Repeat(m, 1) == m + [];
  }

  /** No frame of the script is a failed read, so the library's loop can only end with `Ok`. */
  lemma FramesOnlyOk(sinks: Router.Sinks, routes: Router.Routes, events: seq<Router.ReadEvent>, polls: (nat, nat) -> Router.Poll)
    requires Router.PollsFit(events, polls) && forall k :: 0 <= k < |events| ==> events[k].result.Data?
    ensures Router.Run(sinks, routes, events, polls, 0).1 == Ok(())
  {
    Router.RunResult(sinks, routes, events, polls, 0);
    forall i | 0 <= i < |events|
      ensures !Router.RoutedReadError(routes, events[i])
    {
      assert events[i].result.Data?;
    }
    var r := Router.Run(sinks, routes, events, polls, 0).1;
    assert r.Ok?;
    match r.value {
      case () =>
    }
  }

  // ---------------------------------------------------------------------------
  // tests/integration.rs: two rounds of one frame from each port

  function TwoRounds(a: string, b: string, c: string, ma: Router.Bytes, mb: Router.Bytes, mc: Router.Bytes): seq<Router.ReadEvent> {
    [Router.ReadEvent(a, Router.Data(ma)), Router.ReadEvent(b, Router.Data(mb)), Router.ReadEvent(c, Router.Data(mc)),
     Router.ReadEvent(a, Router.Data(ma)), Router.ReadEvent(b, Router.Data(mb)), Router.ReadEvent(c, Router.Data(mc))]
  }

  /** Three routed frames in a row, from `a`, `b` and `c`. */
  lemma ExpectedRound(d: string, routes: Router.Routes, events: seq<Router.ReadEvent>, k: nat,
                      a: string, b: string, c: string, ma: Router.Bytes, mb: Router.Bytes, mc: Router.Bytes)
    requires k + 3 <= |events| && a in routes && b in routes && c in routes
    requires events[k] == Router.ReadEvent(a, Router.Data(ma))
    requires events[k + 1] == Router.ReadEvent(b, Router.Data(mb))
    requires events[k + 2] == Router.ReadEvent(c, Router.Data(mc))
    ensures Router.Expected(d, routes, events, k) ==
      Router.Repeat(ma, Router.Count(d, routes[a])) + Router.Repeat(mb, Router.Count(d, routes[b])) +
      Router.Repeat(mc, Router.Count(d, routes[c])) + Router.Expected(d, routes, events, k + 3)
  {
    var ra, rb, rc := Router.Repeat(ma, Router.Count(d, routes[a])), Router.Repeat(mb, Router.Count(d, routes[b])), Router.Repeat(mc, Router.Count(d, routes[c]));
    var rest := Router.Expected(d, routes, events, k + 3);
    var e1, e2 := Router.Expected(d, routes, events, k + 1), Router.Expected(d, routes, events, k + 2);
    ExpectedAtFrame(d, routes, events, k, a, ma);
    ExpectedAtFrame(d, routes, events, k + 1, b, mb);
    ExpectedAtFrame(d, routes, events, k + 2, c, mc);
    assert e1 == rb + (rc + rest);
    Concat4(ra, rb, rc, rest);
  }

  lemma Concat4(p: Router.Bytes, q: Router.Bytes, r: Router.Bytes, s: Router.Bytes)
    ensures p + (q + (r + s)) == p + q + r + s
  {
  }

  /** Each port is owed, per round, its copies of the frames of `a`, `b` and `c`, in that order. */
  lemma TwoRoundsShape(a: string, b: string, c: string, ma: Router.Bytes, mb: Router.Bytes, mc: Router.Bytes, d: string)
    requires Distinct(a, b, c)
    ensures var round := Router.Repeat(ma, Router.Count(d, [c])) + Router.Repeat(mb, Router.Count(d, [c])) + Router.Repeat(mc, Router.Count(d, [a, b]));
      Router.Expected(d, ListenerRoutes(a, b, c), TwoRounds(a, b, c, ma, mb, mc), 0) == round + round
  {
    var routes, events := ListenerRoutes(a, b, c), TwoRounds(a, b, c, ma, mb, mc);
    assert routes[a] == [c] && routes[b] == [c] && routes[c] == [a, b];
    ExpectedRound(d, routes, events, 0, a, b, c, ma, mb, mc);
    ExpectedRound(d, routes, events, 3, a, b, c, ma, mb, mc);
    assert Router.Expected(d, routes, events, 6) == [];
  }

  lemma TwoRoundsExpected(a: string, b: string, c: string, ma: Router.Bytes, mb: Router.Bytes, mc: Router.Bytes, d: string)
    requires Distinct(a, b, c) && (d == a || d == b || d == c)
    ensures var owed := Router.Expected(d, ListenerRoutes(a, b, c), TwoRounds(a, b, c, ma, mb, mc), 0);
      (d == c ==> owed == ma + mb + ma + mb) && (d != c ==> owed == mc + mc)
  {
    TwoRoundsShape(a, b, c, ma, mb, mc, d);
    ListenerCounts(a, b, c, ma);
    ListenerCounts(a, b, c, mb);
    ListenerCounts(a, b, c, mc);
    if d == c {
      assert ma + mb + [] + (ma + mb + []) == ma + mb + ma + mb;
    } else {
      assert [] + [] + mc + ([] + [] + mc) == mc + mc;
    }
  }

  /**
   * The integration test under the library's loop: when every write is
   * whole, `c` receives the frames of `a` and `b` in turn, twice, `a` and
   * `b` each receive the frame of `c` twice, and the loop ends with `Ok`
   * once the script runs out.
   */
  lemma TwoRoundsDelivery(a: string, b: string, c: string, ma: Router.Bytes, mb: Router.Bytes, mc: Router.Bytes,
                          polls: (nat, nat) -> Router.Poll)
    requires Distinct(a, b, c) && Router.AllFullWrites(TwoRounds(a, b, c, ma, mb, mc), polls)
    ensures Router.PollsFit(TwoRounds(a, b, c, ma, mb, mc), polls)
    ensures var r := Router.Run(EmptySinks(a, b, c), ListenerRoutes(a, b, c), TwoRounds(a, b, c, ma, mb, mc), polls, 0);
      r.1 == Ok(()) && r.0[a] == mc + mc && r.0[b] == mc + mc && r.0[c] == ma + mb + ma + mb
  {
    var sinks, routes, events := EmptySinks(a, b, c), ListenerRoutes(a, b, c), TwoRounds(a, b, c, ma, mb, mc);
    Router.FullWritesFit(events, polls);
    Router.RunDeliversExpected(sinks, routes, events, polls, 0, a);
    Router.RunDeliversExpected(sinks, routes, events, polls, 0, b);
    Router.RunDeliversExpected(sinks, routes, events, polls, 0, c);
    TwoRoundsExpected(a, b, c, ma, mb, mc, a);
    TwoRoundsExpected(a, b, c, ma, mb, mc, b);
    TwoRoundsExpected(a, b, c, ma, mb, mc, c);
    FramesOnlyOk(sinks, routes, events, polls);
  }

  /**
   * The same script under the binary's blocking loop, when no write fails:
   * the same outputs, and once the sources are exhausted the loop returns
   * "channel closed".
   */
  lemma TwoRoundsBlocking(a: string, b: string, c: string, ma: Router.Bytes, mb: Router.Bytes, mc: Router.Bytes,
                          polls: (nat, nat) -> Router.Poll, writes: (nat, nat) -> App.WriteAll)
    requires Distinct(a, b, c) && Router.AllFullWrites(TwoRounds(a, b, c, ma, mb, mc), polls) && App.NoWriteFails(writes)
    ensures App.LookupsSucceed(EmptySinks(a, b, c), ListenerRoutes(a, b, c), App.AsSelectEvents(TwoRounds(a, b, c, ma, mb, mc)))
    ensures App.WritesFit(App.AsSelectEvents(TwoRounds(a, b, c, ma, mb, mc)), writes)
    ensures var r := App.RunBlocking(EmptySinks(a, b, c), ListenerRoutes(a, b, c), App.AsSelectEvents(TwoRounds(a, b, c, ma, mb, mc)), writes, 0);
      r.1 == App.ReturnedErr(App.ChannelClosed) && r.0[a] == mc + mc && r.0[b] == mc + mc && r.0[c] == ma + mb + ma + mb
  {
    var sinks, routes, events := EmptySinks(a, b, c), ListenerRoutes(a, b, c), TwoRounds(a, b, c, ma, mb, mc);
    var sel := App.AsSelectEvents(events);
    forall k | 0 <= k < |sel| && sel[k].Next?
      ensures sel[k].src in routes && (sel[k].result.Data? ==> App.RoutedInto(routes[sel[k].src], sinks))
    {
      assert sel[k].src == events[k].src;
    }
    App.PoliciesAgreeOnWholeWrites(sinks, routes, events, polls, writes, 0);
    TwoRoundsDelivery(a, b, c, ma, mb, mc, polls);
  }

  // ---------------------------------------------------------------------------
  // One frame on `a`, then one on `c`

  /** What each port is owed from one frame on `a` followed by one on `c`. */
  lemma ListenerExpected(a: string, b: string, c: string, ma: Router.Bytes, mc: Router.Bytes, d: string)
    requires Distinct(a, b, c) && (d == a || d == b || d == c)
    ensures var owed := Router.Expected(d, ListenerRoutes(a, b, c), [Router.ReadEvent(a, Router.Data(ma)), Router.ReadEvent(c, Router.Data(mc))], 0);
      (d == c ==> owed == ma) && (d != c ==> owed == mc)
  {
    var routes := ListenerRoutes(a, b, c);
    var events := [Router.ReadEvent(a, Router.Data(ma)), Router.ReadEvent(c, Router.Data(mc))];
    ExpectedAtFrame(d, routes, events, 0, a, ma);
    ExpectedAtFrame(d, routes, events, 1, c, mc);
    assert Router.Expected(d, routes, events, 2) == [];
    ListenerCounts(a, b, c, ma);
    ListenerCounts(a, b, c, mc);
  }

  /**
   * A frame written on `a` is observed on `c` and not on `b`; a frame
   * written on `c` is observed on both `a` and `b`.
   */
  lemma ListenerDelivery(a: string, b: string, c: string, ma: Router.Bytes, mc: Router.Bytes, polls: (nat, nat) -> Router.Poll)
    requires Distinct(a, b, c)
    requires Router.AllFullWrites([Router.ReadEvent(a, Router.Data(ma)), Router.ReadEvent(c, Router.Data(mc))], polls)
    ensures Router.PollsFit([Router.ReadEvent(a, Router.Data(ma)), Router.ReadEvent(c, Router.Data(mc))], polls)
    ensures var r := Router.Run(EmptySinks(a, b, c), ListenerRoutes(a, b, c),
                                [Router.ReadEvent(a, Router.Data(ma)), Router.ReadEvent(c, Router.Data(mc))], polls, 0);
      r.1 == Ok(()) && r.0[a] == mc && r.0[b] == mc && r.0[c] == ma
  {
    var sinks, routes := EmptySinks(a, b, c), ListenerRoutes(a, b, c);
    var events := [Router.ReadEvent(a, Router.Data(ma)), Router.ReadEvent(c, Router.Data(mc))];
    Router.FullWritesFit(events, polls);
    Router.RunDeliversExpected(sinks, routes, events, polls, 0, a);
    Router.RunDeliversExpected(sinks, routes, events, polls, 0, b);
    Router.RunDeliversExpected(sinks, routes, events, polls, 0, c);
    ListenerExpected(a, b, c, ma, mc, a);
    ListenerExpected(a, b, c, ma, mc, b);
    ListenerExpected(a, b, c, ma, mc, c);
    FramesOnlyOk(sinks, routes, events, polls);
  }

  /**
   * The same two frames under the binary's blocking loop, when no write
   * fails: the same outputs, and once the sources are exhausted the loop
   * returns "channel closed".
   */
  lemma ListenerBlocking(a: string, b: string, c: string, ma: Router.Bytes, mc: Router.Bytes,
                         polls: (nat, nat) -> Router.Poll, writes: (nat, nat) -> App.WriteAll)
    requires Distinct(a, b, c) && App.NoWriteFails(writes)
    requires Router.AllFullWrites([Router.ReadEvent(a, Router.Data(ma)), Router.ReadEvent(c, Router.Data(mc))], polls)
    ensures var sel := App.AsSelectEvents([Router.ReadEvent(a, Router.Data(ma)), Router.ReadEvent(c, Router.Data(mc))]);
      App.LookupsSucceed(EmptySinks(a, b, c), ListenerRoutes(a, b, c), sel) && App.WritesFit(sel, writes)
    ensures var r := App.RunBlocking(EmptySinks(a, b, c), ListenerRoutes(a, b, c),
                                     App.AsSelectEvents([Router.ReadEvent(a, Router.Data(ma)), Router.ReadEvent(c, Router.Data(mc))]), writes, 0);
      r.1 == App.ReturnedErr(App.ChannelClosed) && r.0[a] == mc && r.0[b] == mc && r.0[c] == ma
  {
    var sinks, routes := EmptySinks(a, b, c), ListenerRoutes(a, b, c);
    var events := [Router.ReadEvent(a, Router.Data(ma)), Router.ReadEvent(c, Router.Data(mc))];
    var sel := App.AsSelectEvents(events);
    forall k | 0 <= k < |sel| && sel[k].Next?
      ensures sel[k].src in routes && (sel[k].result.Data? ==> App.RoutedInto(routes[sel[k].src], sinks))
    {
      assert sel[k].src == events[k].src;
    }
    App.PoliciesAgreeOnWholeWrites(sinks, routes, events, polls, writes, 0);
    ListenerDelivery(a, b, c, ma, mc, polls);
  }
}
