# vsp-router core in Dafny

vsp-router joins serial ports. Some are virtual: a pseudo-terminal reached
through a symlink. Others are physical devices. Every port is registered under
an id. Each `--route <src-id>:<dst-id>` edge tells the router to copy the bytes
read from one port to another.

This project models three pieces of that system:

- **Command-line parsers** (`cli.dfy`, module `Cli`). It models the `FromStr`
  implementations of `Virtual` (`[<id>:]<path>`), `Physical`
  (`[<id>:]<path>[,<baud-rate>]`) and `Route` (`<src-id>:<dst-id>`). It also
  models the library functions they rely on: `str::split_once`,
  `Utf8Path::file_name` on Unix paths and `u32::from_str`.
- **The library's fan-out loop** (`router.dfy`, module `Router`). This is
  `transfer` and `write_non_blocking` of `src/lib.rs`, plus the crate's `Error`
  enum.
  - A sink is the sequence of bytes it has accepted so far.
  - The sources are a finite script of read events, in the order the source
    map yields them.
  - The outcome of each write attempt comes from an oracle
    `polls(k, j)`: the poll of the write of event `k` to the `j`-th
    destination of its route list.
- **The binary** (`app.dfy`, module `App`). It covers three parts of `main`:
  - registering endpoints into the source map and the sink map;
  - building the routing table;
  - the blocking `transfer` loop, with its `select!` between the next source
    item and shutdown, modelled as a script of events.

  The two delivery policies are compared when every write succeeds in full
  and every read source is routed to registered sinks. Under those
  conditions both deliver the same bytes to every sink. They differ only when
  the sources are exhausted: the library returns `Ok`, the binary
  "channel closed".

`scenarios.dfy` (module `Scenarios`) states the integration test's routing
as lemmas about the model, and also the routing of the help text's example. The ids
are any three distinct ids. `wrappers.dfy` holds `Option` and `Result`.

Each imperative operation is a method whose loop is proved against a
recursive specification function:

| method | specification function |
|---|---|
| `Router.Transfer` | `Router.Run` |
| `Router.FanOut` | `Router.Deliver` |
| `App.BlockingTransfer` | `App.RunBlocking` |
| `App.RegisterEndpoints` | `App.Registry` |
| `App.BuildRoutes` | `App.DestinationsOf` |

The properties of the routers are lemmas about those functions.

One place where the documentation and the code disagree. The doc comment at
src/cli.rs:26-28 says `0:dev/ttyUSB0` gives the path `/dev/ttyUSB0`. The code
keeps the text after the first `:` verbatim, and the model follows the code
(`Cli.VirtualRoundTrip`).

## Model

| member | source | states |
|---|---|---|
| Cli.SplitOnce | src/cli.rs:115 | `split_once` gives `None` exactly when the separator is absent. Otherwise the input is the left part, the separator and the right part, and the left part has no separator. |
| Cli.SplitOnceOfJoin | src/cli.rs:124-127 | Splitting `a + c + b` at its first `c` gives back `(a, b)` whenever `a` has no `c`. Later separators stay in the right part. |
| Cli.FileName | src/cli.rs:117-121 | When a file name exists, it is a normal component (not empty, `.` or `..`, and no `/`) and one of the path's pieces. |
| Cli.FileNameOfComponent | src/cli.rs:117-121 | A path that is a single normal component is its own file name. |
| Cli.FileNameOfChild | src/cli.rs:117-121 | `dir/name` has file name `name`, for any `dir`. |
| Cli.FileNameIgnoresTrailing | src/cli.rs:117-121 | A trailing `/` or `/.` does not change the file name. |
| Cli.FileNameOfParent | src/cli.rs:118-120 | A path ending in `/..` has no file name, so `Virtual` rejects such an input when it has no `:`. |
| Cli.FileNameNone | src/cli.rs:118-120 | The empty path, `/`, `.` and `..` have no file name, so `Virtual` rejects them. |
| Cli.ParseDigitsCorrect | src/cli.rs:140 | The digit loop succeeds exactly when every character is a digit and the value fits in 32 bits. It then returns that value. |
| Cli.ParseU32 | src/cli.rs:140 | A parsed baud rate is at most `u32::MAX`. The error is `Empty` exactly for the empty string. |
| Cli.ParseU32Correct | src/cli.rs:140 | `u32::from_str` accepts exactly an optional `+` followed by a non-empty run of digits worth at most `u32::MAX`, and returns their value. |
| Cli.ParseU32OfDecimal | src/cli.rs:140 | Any `u32` written in decimal parses back to itself. |
| Cli.ParseVirtual | src/cli.rs:111-131 | With a `:`, the parse always succeeds: the id is the text before the first `:` and the path is the rest. Without a `:`, it succeeds exactly when the input has a file name, with path = input and id = file name. Every error is `invalid path` of the input. |
| Cli.VirtualRoundTrip | src/cli.rs:124-128 | `id:path` parses to exactly `(id, path)` for every id without `:` and every path. |
| Cli.VirtualDefaultId | src/cli.rs:115-123 | Without a `:`, `dir/name` gets id `name` and keeps the whole input as its path. |
| Cli.VirtualBareName | src/cli.rs:115-123 | A bare normal component such as `0` is both the id and the path. |
| Cli.ParsePhysical | src/cli.rs:133-153 | A parsed baud rate fits a `u32`. Without a `,`, the parse succeeds or fails exactly as `Virtual` does on the whole input: the same id and path with baud rate 9600, or the same error. |
| Cli.PhysicalWithBaudRate | src/cli.rs:137-145 | With a `,`, the input splits at the first one. A bad baud rate is reported whatever the prefix is. Otherwise the result is the prefix's `Virtual` parse (or its error) with that baud rate. |
| Cli.PhysicalWithoutBaudRate | src/cli.rs:137-145 | Without a `,`, the result is the `Virtual` parse of the input with baud rate 9600, or its error. |
| Cli.PhysicalRoundTrip | src/cli.rs:133-153 | `id:path,rate` parses back to `(id, path, rate)` for every id without `:` or `,`, every path without `,`, and every `u32` rate. |
| Cli.PhysicalDefaultId | src/cli.rs:43-45 | `dir/name` with no `:` and no `,` has id `name`, keeps the whole path, and has baud rate 9600. |
| Cli.PhysicalExplicitId | src/cli.rs:47-49 | `id:path` with no `,` keeps the id and the path and has baud rate 9600. |
| Cli.BaudRateExample | src/cli.rs:51-53 | The baud rate text `115200` parses to 115200. |
| Cli.ParseRoute | src/cli.rs:155-165 | The parse fails exactly when there is no `:`, with `invalid route` of the input. Otherwise src is the text before the first `:` and dst is the rest. |
| Cli.RouteRoundTrip | src/cli.rs:159-163 | `src:dst` parses back to `(src, dst)` for every src without `:`. |
| Cli.EmptyPartsAccepted | src/cli.rs:124-127 | Only the separator is required. `:` is a virtual port with empty id and empty path, and `:` and `a:` are routes with empty ends. |
| Router.WriteNonBlocking | src/lib.rs:136-152 | On `Ready(Ok(n))`, the sink gains the first `n` bytes, `buf` advances by `n` and the result is `Ok`, so a partial write counts as success. On `Ready(Err(e))` the result is `Error::Write(e)`. On a pending write it is `Error::Write` of kind `WouldBlock` and `buf` is unchanged. No byte is lost or invented. |
| Router.Offer | src/lib.rs:115-117 | `get_mut` never creates a sink. A present destination appends what its write accepted, and every other sink keeps its output. An absent destination is skipped and the map is unchanged. |
| Router.Deliver | src/lib.rs:114-129 | The fan-out of a frame never adds or removes sinks, whatever the write outcomes. |
| Router.DeliverUntouched | src/lib.rs:114-117 | A sink that the rest of the destination list does not name keeps its output through the fan-out. |
| Router.DeliverGathers | src/lib.rs:114-128 | After the fan-out, each present destination holds its old output followed by the bytes accepted at each of its own positions in the list, in list order. Later destinations are offered the frame whatever happened to earlier ones. |
| Router.GatheredOwnPolls | src/lib.rs:117-127 | What a destination gathers depends only on the polls of its own positions in the list. |
| Router.FanOutIndependence | src/lib.rs:117-127 | A destination's output is the same under any two oracles that agree on that destination's own write attempts. A failed, partial or blocked write elsewhere changes nothing for it. |
| Router.GatheredFull | src/lib.rs:114-117 | When every write is whole, a destination receives one copy of the frame per occurrence in the list. |
| Router.Run | src/lib.rs:110-133 | The loop never adds or removes sinks, and its only error is `Error::Read`. |
| Router.FanOut | src/lib.rs:114-129 | The inner loop, one `write_non_blocking` per present destination with its failure only logged, computes exactly the fan-out `Deliver`. |
| Router.Transfer | src/lib.rs:100-134 | The loop over the read events, with the fan-out of each routed frame, computes exactly `Run`: the same final sinks and the same result. |
| Router.UnroutedSkipped | src/lib.rs:110-112 | One item from a source without a route entry, frame or read error, is skipped in any script: no sink changes and the loop goes on with the next item. |
| Router.UnroutedDiscarded | src/lib.rs:110-112 | When every item from some point on comes from a source without a route entry, read errors included, no sink changes and the loop ends with `Ok`. |
| Router.RunResult | src/lib.rs:110-133 | The result is `Ok` exactly when no routed source has a failed read, that is, when the sources run out. Otherwise it is `Error::Read` of the first failed read on a routed source. |
| Router.OnlyDestinationsWritten | src/lib.rs:114-117 | A sink that no routed source lists as a destination keeps its output. |
| Router.RunDeliversExpected | src/lib.rs:110-131 | When every write is whole, each sink ends with its old output followed by exactly the frames routed to it. The frames come in read order, once per listing, up to the first failed read on a routed source. |
| App.RegistryKeys | src/main.rs:31-45 | The registered ids are exactly the declared ids. |
| App.RegistryLastWins | src/main.rs:31-45 | A declaration that no later one repeats supplies the port its id maps to. A repeated id keeps the last declaration. |
| App.RegisterEndpoints | src/main.rs:27-45 | The two loops insert every virtual port, then every physical port, into both maps. Both maps equal the registry of the declarations. `links` holds one entry per virtual port, in order. |
| App.DestinationsConcat | src/main.rs:51-57 | The destination list of two batches of edges is the first batch's list followed by the second's. |
| App.DestinationsMembership | src/main.rs:51-57 | `dst` is listed for `src` exactly when some edge goes from `src` to `dst`. |
| App.DestinationsOfUnnamed | src/main.rs:52-56 | A source that no edge names has no destinations. |
| App.BuildRoutes | src/main.rs:51-57 | The keys of the table are exactly the edges' sources. Each list holds the destinations of that source's edges, in declaration order, with duplicates kept. |
| App.WriteAllBuf | src/main.rs:103 | `write_all_buf` either delivers the whole frame with `Ok`, or fails with that error after a proper prefix. No byte is lost or invented. |
| App.WriteAllFrom | src/main.rs:99-105 | The blocking fan-out never adds or removes sinks, and it leaves every sink outside the destination list unchanged. |
| App.RunBlocking | src/main.rs:89-113 | The blocking loop never adds or removes sinks. |
| App.BlockingTransfer | src/main.rs:79-114 | The loop computes exactly `RunBlocking`. Its preconditions stand for the source's two `unwrap`s: every read source has a route entry, and every destination of a frame is a sink. |
| App.WriteAllDelivers | src/main.rs:99-105 | Without a failed write, every destination gets one whole copy of the frame per listing, and the fan-out succeeds. |
| App.WriteAllStopsAtFirstFailure | src/main.rs:99-105 | The fan-out fails exactly when some write fails, and the error is that of the first failed write. |
| App.WriteAllFailedContents | src/main.rs:99-105 | When a write fails part-way, each destination before the failure holds one whole copy of the frame per listing there. The destination of the failed write also holds the prefix written before the error. |
| App.WriteAllSkipsAfterFailure | src/main.rs:99-105 | A sink that is not listed before or at the first failed write keeps its output, so nothing after the failure is written. |
| App.BlockingEnds | src/main.rs:89-113 | `Ok` comes only from shutdown, and "channel closed" only from the end of the sources. A read error comes only from a failed read with that cause. A write error comes only from a frame whose fan-out has a failed write, and it carries the cause of the first one. Every earlier item was a frame. The loop is still running only if every item was a frame. |
| App.NothingAfterStop | src/main.rs:91-111 | Shutdown and the end of the sources are final: items after them change neither the sinks nor the outcome. |
| App.FanOutsAgree | src/main.rs:99-105 | With whole writes, the blocking fan-out and the library's fan-out produce the same sinks, and the blocking one does not fail. |
| App.PoliciesAgreeOnWholeWrites | src/main.rs:79-114 | With whole writes and every read source routed to sinks, both loops deliver the same bytes to every sink. When the sources are exhausted, the library returns `Ok` exactly when the binary returns "channel closed". Otherwise both report the same read error. |
| Scenarios.ListenerArgsParse | src/cli.rs:86-89 | The four route arguments `a:c`, `b:c`, `c:a`, `c:b` parse to the four edges, for any ids without `:`. |
| Scenarios.ListenerRouting | tests/integration.rs:47-53 | `main`'s route loop over the four edges builds the test's table: `a` and `b` go to `c`, and `c` goes to `a` and then `b`. |
| Scenarios.TwoRoundsExpected | tests/integration.rs:64-86 | Over two rounds of one frame per port, `c` is owed the frames of `a` and `b` in turn, twice, and `a` and `b` are owed the frame of `c` twice. |
| Scenarios.TwoRoundsDelivery | tests/integration.rs:64-86 | Under the library's loop with whole writes, those are exactly the outputs, and the loop ends with `Ok`. |
| Scenarios.TwoRoundsBlocking | tests/integration.rs:64-86 | Under the binary's loop with no failed write, the outputs are the same. Once the sources are exhausted, the loop returns "channel closed". |
| Scenarios.ListenerDelivery | src/cli.rs:75-80 | Under the library's loop with whole writes, a frame from `a` reaches `c` and not `b`. A frame from `c` reaches both `a` and `b`. The loop ends with `Ok`. |
| Scenarios.ListenerBlocking | src/cli.rs:75-80 | Under the binary's loop with no failed write, the same two frames give the same outputs. Once the sources are exhausted, the loop returns "channel closed". |

## Left out

- `PtyLink`, `create_virtual_serial_port`, creating and removing the symlink, and `open_physical_serial_port` (src/lib.rs:40-98) are operating-system I/O. So are `tokio_serial::new(..).open_native_async()` and `tokio::io::split` in `main`. `RegisterEndpoints` records only what is registered under which id. The `?` failures of creating or opening a port are not modelled.
- `Error::Link`, `Error::Serial` and `Error::Closed` are declared in `Router.Error` but produced by nothing modelled. `std::io::Error` is reduced to its kind, and `tokio_serial::Error` to an `IoError`.
- The following are replaced by a script of events: `tokio::select!`, the `CancellationToken`, the ctrl-c task and `StreamMap` fairness. Shutdown is one `Shutdown` event, seen between items as `select!` sees it once the chosen branch has run to completion. Which source is read next is the order of the script.
- `ReaderStream` framing and the async read/write machinery are replaced by given frames and by write-outcome oracles (`polls`, `writes`).
- The `tracing` events and `eprintln!` are observability only.
- clap, the help text and its snapshot test are not modelled. The help examples are stated as generic lemmas: `Cli.VirtualBareName`, `Cli.VirtualDefaultId`, `Cli.PhysicalDefaultId`, `Cli.PhysicalExplicitId` and `Scenarios.ListenerArgsParse`. Only the baud rate `115200` is stated on its literal text (`Cli.BaudRateExample`).
- `Cli.FileName`: covers Unix paths split on `/` only. Windows prefixes and separators are not modelled.
- `App.RegisterEndpoints`: the source map's reader streams and the sink map's writers are not modelled. Both maps are the same map from id to the declared port.
- Id validation is absent in the source (the TODO at src/main.rs:47-49), so the model validates nothing either. A route to an undeclared sink is skipped by the library (`Router.Offer`) and is excluded by the preconditions of the binary's loop.
- `App.BlockingTransfer`: the two `unwrap` panics of src/main.rs:96 and 101 are preconditions, not a modelled panic at the first offending item. They range over every read item of the script, including items after a shutdown or the end of the sources, which the loop never reaches.
- Scenarios: stated for any three distinct ids and any frames, not for the test's literal ids `"0"`, `"1"`, `"2"` and messages. The timeout and abort handling of the test are not modelled.
