/**
 * The endpoint and route arguments of the command line (src/cli.rs):
 * `--virtual [<id>:]<path>`, `--physical [<id>:]<path>[,<baud-rate>]` and
 * `--route <src-id>:<dst-id>`. Each parser is a split at the first separator
 * followed by record construction; nothing else is validated.
 */
module Cli {
  import opened Wrappers

  /** Largest value of a Rust `u32`. */
  const U32_MAX: nat := 0xFFFF_FFFF

  /** Baud rate of a physical port whose argument gives none. */
  const DEFAULT_BAUD_RATE: nat := 9600

  datatype Virtual = Virtual(id: string, path: string)

  datatype Physical = Physical(id: string, path: string, baudRate: nat)

  datatype Route = Route(src: string, dst: string)

  /** The kinds of `core::num::ParseIntError` that `u32::from_str` can produce. */
  datatype IntErrorKind = Empty | InvalidDigit | PosOverflow

  datatype CliError =
    | InvalidPath(input: string)        // no ':' and the path has no final component
    | InvalidBaudRate(kind: IntErrorKind)
    | InvalidRoute(input: string)       // no ':' in a route

  // ---------------------------------------------------------------------------
  // str::split_once

  /** Index of the first occurrence of `c` in `s`. */
  function FindFirst(s: string, c: char): (r: Option<nat>)
    ensures r.None? <==> c !in s
    ensures r.Some? ==> r.value < |s| && s[r.value] == c && c !in s[..r.value]
    ensures r.Some? ==> forall j :: 0 <= j < r.value ==> s[j] != c
    decreases |s|
  {
    if s == [] then None
    else if s[0] == c then Some(0)
    else match FindFirst(s[1..], c)
      case None => None
      case Some(i) =>
        assert s[..i + 1] == [s[0]] + s[1..][..i];
        Some(i + 1)
  }

  /** `s.split_once(c)`: the text before the first `c` and everything after it. */
  function SplitOnce(s: string, c: char): (r: Option<(string, string)>)
    ensures r.None? <==> c !in s
    ensures r.Some? ==> s == r.value.0 + [c] + r.value.1 && c !in r.value.0
  {
    match FindFirst(s, c)
    case None => None
    case Some(i) =>
      assert s == s[..i] + [c] + s[i + 1..];
      Some((s[..i], s[i + 1..]))
  }

  /** Splitting a joined pair at its first separator gives the pair back, when the left part has no separator. */
  lemma SplitOnceOfJoin(a: string, c: char, b: string)
    requires c !in a
    ensures SplitOnce(a + [c] + b, c) == Some((a, b))
  {
    var s := a + [c] + b;
    assert s[|a|] == c;
    assert forall j :: 0 <= j < |a| ==> s[j] == a[j];
    var i := FindFirst(s, c).value;
    assert i == |a|;
    assert s[..i] == a;
    assert s[i + 1..] == b;
  }

  // ---------------------------------------------------------------------------
  // Paths: Utf8Path::file_name on Unix

  /** The pieces of `s` between occurrences of `sep`. */
  function Split(s: string, sep: char): (parts: seq<string>)
    ensures |parts| >= 1
    ensures forall i :: 0 <= i < |parts| ==> sep !in parts[i]
    decreases |s|
  {
    match SplitOnce(s, sep)
    case None => [s]
    case Some((a, b)) => [a] + Split(b, sep)
  }

  function Join(parts: seq<string>, sep: char): string
    requires |parts| >= 1
  {
    if |parts| == 1 then parts[0] else parts[0] + [sep] + Join(parts[1..], sep)
  }

  /** Split loses nothing: joining the pieces with the separator restores the text. */
  lemma {:induction false} JoinSplit(s: string, sep: char)
    ensures Join(Split(s, sep), sep) == s
    decreases |s|
  {
    match SplitOnce(s, sep)
    case None =>
    case Some((a, b)) =>
      JoinSplit(b, sep);
      assert Split(s, sep)[1..] == Split(b, sep);
  }

  /** Appending a separator and a separator-free piece appends one piece. */
  lemma {:induction false} SplitAppend(s: string, sep: char, t: string)
    requires sep !in t
    ensures Split(s + [sep] + t, sep) == Split(s, sep) + [t]
    decreases |s|
  {
    assert Split(t, sep) == [t];
    match SplitOnce(s, sep)
    case None =>
      SplitOnceOfJoin(s, sep, t);
    case Some((a, b)) =>
      assert s + [sep] + t == a + [sep] + (b + [sep] + t);
      SplitOnceOfJoin(a, sep, b + [sep] + t);
      SplitAppend(b, sep, t);
  }

  /** A component `file_name` can return: not empty, not `.` or `..`, no separator. */
  predicate IsNormalComponent(c: string) {
    c != "" && c != "." && c != ".." && '/' !in c
  }

  /**
   * The last component of a path: empty pieces (repeated or trailing `/`) and
   * `.` pieces are not components; a path ending in `..` or with no pieces
   * left (empty, `/`, `.`) has no file name.
   */
  function LastNormal(parts: seq<string>): (r: Option<string>)
    requires forall i :: 0 <= i < |parts| ==> '/' !in parts[i]
    ensures r.Some? ==> IsNormalComponent(r.value) && r.value in parts
  {
    if parts == [] then None
    else
      var last := parts[|parts| - 1];
      if last == "" || last == "." then LastNormal(parts[..|parts| - 1])
      else if last == ".." then None
      else Some(last)
  }

  /** `Utf8Path::file_name`: the final normal component of the path, or None. */
  function FileName(path: string): (r: Option<string>)
    ensures r.Some? ==> IsNormalComponent(r.value) && r.value in Split(path, '/')
  {
    LastNormal(Split(path, '/'))
  }

  /** A path that is one normal component names itself. */
  lemma FileNameOfComponent(name: string)
    requires IsNormalComponent(name)
    ensures FileName(name) == Some(name)
  {
    assert Split(name, '/') == [name];
  }

  /** The file name of `dir/name` is `name`, whatever `dir` is. */
  lemma FileNameOfChild(dir: string, name: string)
    requires IsNormalComponent(name)
    ensures FileName(dir + "/" + name) == Some(name)
  {
    SplitAppend(dir, '/', name);
    assert dir + "/" + name == dir + ['/'] + name;
  }

  /** A trailing `/` or `/.` does not change the file name. */
  lemma FileNameIgnoresTrailing(dir: string, tail: string)
    requires tail == "" || tail == "."
    ensures FileName(dir + "/" + tail) == FileName(dir)
  {
    SplitAppend(dir, '/', tail);
    assert dir + "/" + tail == dir + ['/'] + tail;
    var parts := Split(dir, '/') + [tail];
    assert parts[|parts| - 1] == tail;
    assert parts[..|parts| - 1] == Split(dir, '/');
    assert LastNormal(parts) == LastNormal(Split(dir, '/'));
  }

  /**
   * A path ending in `..` has no file name. The last component is a
   * parameter fixed to `..` by the precondition, which keeps the literal out
   * of the splitting proof.
   */
  lemma FileNameOfParent(dir: string, tail: string)
    requires tail == ".."
    ensures FileName(dir + "/" + tail) == None
  {
    SplitAppend(dir, '/', tail);
    assert dir + "/" + tail == dir + ['/'] + tail;
    var parts := Split(dir, '/') + [tail];
    assert parts[|parts| - 1] == tail;
  }

  /** The empty path, the root, `.` and `..` have no file name. */
  lemma FileNameNone()
    ensures FileName("") == None
    ensures FileName("/") == None
    ensures FileName(".") == None
    ensures FileName("..") == None
  {
    assert Split("", '/') == [""];
    assert Split(".", '/') == ["."];
    assert Split("..", '/') == [".."];
    SplitAppend("", '/', "");
    assert "" + ['/'] + "" == "/";
    assert [""] + [""] == ["", ""];
    assert ["", ""][..1] == [""];
  }

  // ---------------------------------------------------------------------------
  // u32::from_str

  predicate IsDigit(c: char) {
    '0' <= c <= '9'
  }

  function DigitValue(c: char): (v: nat)
    requires IsDigit(c)
    ensures v < 10
  {
    (c as int) - ('0' as int)
  }

  function DigitChar(v: nat): (c: char)
    requires v < 10
    ensures IsDigit(c) && DigitValue(c) == v
  {
    ('0' as int + v) as char
  }

  predicate AllDigits(s: string) {
    forall i :: 0 <= i < |s| ==> IsDigit(s[i])
  }

  /** The number that the digits `s` denote, read after the accumulated value `acc`, with no width limit. */
  function DecimalValue(s: string, acc: nat): nat
    requires AllDigits(s)
  {
    if s == [] then acc else DecimalValue(s[1..], acc * 10 + DigitValue(s[0]))
  }

  /**
   * The digit loop of `u32::from_str`: for each character, a non-digit is
   * `InvalidDigit`; then multiplying the running value by 10 or adding the
   * digit past `u32::MAX` is `PosOverflow`.
   */
  function ParseDigits(s: string, acc: nat): (r: Result<nat, IntErrorKind>)
    requires acc <= U32_MAX
    ensures r.Ok? ==> r.value <= U32_MAX
    ensures r.Err? ==> r.error != Empty
  {
    if s == [] then Ok(acc)
    else if !IsDigit(s[0]) then Err(InvalidDigit)
    else if acc * 10 > U32_MAX then Err(PosOverflow)
    else if acc * 10 + DigitValue(s[0]) > U32_MAX then Err(PosOverflow)
    else ParseDigits(s[1..], acc * 10 + DigitValue(s[0]))
  }

  /** `u32::from_str`: an optional leading `+`, then one or more decimal digits whose value fits in 32 bits. */
  function ParseU32(s: string): (r: Result<nat, IntErrorKind>)
    ensures r.Ok? ==> r.value <= U32_MAX
    ensures r == Err(Empty) <==> s == ""
  {
    if s == [] then Err(Empty)
    else if s == "+" || s == "-" then Err(InvalidDigit)
    else if s[0] == '+' then ParseDigits(s[1..], 0)
    else ParseDigits(s, 0)
  }

  lemma {:induction false} DecimalValueAtLeast(s: string, acc: nat)
    requires AllDigits(s)
    ensures DecimalValue(s, acc) >= acc
    decreases |s|
  {
    if s != [] {
      DecimalValueAtLeast(s[1..], acc * 10 + DigitValue(s[0]));
    }
  }

  /** The digit loop succeeds exactly when every character is a digit and the whole value fits, and then yields that value. */
  lemma {:induction false} ParseDigitsCorrect(s: string, acc: nat)
    requires acc <= U32_MAX
    ensures ParseDigits(s, acc).Ok? <==> AllDigits(s) && DecimalValue(s, acc) <= U32_MAX
    ensures ParseDigits(s, acc).Ok? ==> ParseDigits(s, acc).value == DecimalValue(s, acc)
    decreases |s|
  {
    if s == [] {
    } else if !IsDigit(s[0]) {
    } else {
      assert AllDigits(s) <==> AllDigits(s[1..]);
      var next := acc * 10 + DigitValue(s[0]);
      if next > U32_MAX {
        if AllDigits(s) {
          DecimalValueAtLeast(s[1..], next);
        }
      } else {
        ParseDigitsCorrect(s[1..], next);
      }
    }
  }

  /** `u32::from_str` accepts exactly an optional `+` and a non-empty run of digits of value at most `u32::MAX`. */
  lemma ParseU32Correct(s: string)
    ensures var body := if |s| > 0 && s[0] == '+' then s[1..] else s;
      (ParseU32(s).Ok? <==> body != "" && AllDigits(body) && DecimalValue(body, 0) <= U32_MAX) &&
      (ParseU32(s).Ok? ==> ParseU32(s).value == DecimalValue(body, 0))
  {
    if s == [] {
    } else if s == "+" {
    } else if s == "-" {
      assert !IsDigit(s[0]);
    } else if s[0] == '+' {
      ParseDigitsCorrect(s[1..], 0);
    } else {
      ParseDigitsCorrect(s, 0);
    }
  }

  /** Decimal digits of `n`, most significant first, without leading zeros. */
  function Decimal(n: nat): (s: string)
    ensures |s| >= 1 && AllDigits(s)
  {
    if n < 10 then [DigitChar(n)] else Decimal(n / 10) + [DigitChar(n % 10)]
  }

  lemma {:induction false} DecimalValueAppend(s: string, c: char, acc: nat)
    requires AllDigits(s) && IsDigit(c)
    ensures AllDigits(s + [c])
    ensures DecimalValue(s + [c], acc) == DecimalValue(s, acc) * 10 + DigitValue(c)
    decreases |s|
  {
    assert AllDigits(s + [c]);
    if s == [] {
      assert [c][1..] == [];
    } else {
      assert (s + [c])[1..] == s[1..] + [c];
      DecimalValueAppend(s[1..], c, acc * 10 + DigitValue(s[0]));
    }
  }

  lemma {:induction false} DecimalValueOfDecimal(n: nat)
    ensures DecimalValue(Decimal(n), 0) == n
  {
    if n < 10 {
      assert [DigitChar(n)][1..] == [];
    } else {
      DecimalValueOfDecimal(n / 10);
      DecimalValueAppend(Decimal(n / 10), DigitChar(n % 10), 0);
    }
  }

  /** Formatting a `u32` in decimal and parsing it back gives the same number. */
  lemma ParseU32OfDecimal(n: nat)
    requires n <= U32_MAX
    ensures ParseU32(Decimal(n)) == Ok(n)
  {
    var s := Decimal(n);
    assert s[0] != '+';
    DecimalValueOfDecimal(n);
    ParseU32Correct(s);
  }

  // ---------------------------------------------------------------------------
  // The three FromStr implementations

  /**
   * `Virtual::from_str`: with no ':' the whole input is the path and the id is
   * its file name (an input with no file name is an invalid path); otherwise the
   * id is the text before the first ':' and the path is the rest, verbatim.
   */
  function ParseVirtual(s: string): (r: Result<Virtual, CliError>)
    ensures ':' in s ==> r.Ok? && r.value.id + ":" + r.value.path == s && ':' !in r.value.id
    ensures ':' !in s ==> (r.Ok? <==> FileName(s).Some?)
    ensures ':' !in s && r.Ok? ==> r.value.path == s && Some(r.value.id) == FileName(s)
    ensures r.Err? ==> r.error == InvalidPath(s)
  {
    match SplitOnce(s, ':')
    case None =>
      (match FileName(s)
       case None => Err(InvalidPath(s))
       case Some(id) => Ok(Virtual(id, s)))
    case Some((id, path)) => Ok(Virtual(id, path))
  }

  /** The argument text `<id>:<path>` for a virtual port. */
  function FormatVirtual(v: Virtual): string {
    v.id + ":" + v.path
  }

  /** An explicit id without ':' and any path survive formatting and parsing unchanged. */
  lemma VirtualRoundTrip(v: Virtual)
    requires ':' !in v.id
    ensures ParseVirtual(FormatVirtual(v)) == Ok(v)
  {
    assert FormatVirtual(v) == v.id + [':'] + v.path;
    SplitOnceOfJoin(v.id, ':', v.path);
  }

  /** `--virtual 0` of the help text: a bare component without ':' is both the path and the id. */
  lemma VirtualBareName(name: string)
    requires IsNormalComponent(name) && ':' !in name
    ensures ParseVirtual(name) == Ok(Virtual(name, name))
  {
    FileNameOfComponent(name);
  }

  /** An input without ':' whose path is `dir/name` gets the id `name`. */
  lemma VirtualDefaultId(dir: string, name: string)
    requires ':' !in dir && IsNormalComponent(name) && ':' !in name
    ensures ParseVirtual(dir + "/" + name) == Ok(Virtual(name, dir + "/" + name))
  {
    FileNameOfChild(dir, name);
  }

  /**
   * `Physical::from_str`: split at the first ','; the suffix must parse as a
   * `u32` (tried first), the prefix is parsed as a virtual port. Without ','
   * the whole input is the prefix and the baud rate is 9600.
   */
  function ParsePhysical(s: string): (r: Result<Physical, CliError>)
    ensures r.Ok? ==> r.value.baudRate <= U32_MAX
    ensures ',' !in s ==> (r.Ok? <==> ParseVirtual(s).Ok?)
    ensures ',' !in s && r.Ok? ==>
      r.value.baudRate == DEFAULT_BAUD_RATE && Virtual(r.value.id, r.value.path) == ParseVirtual(s).value
    ensures ',' !in s && r.Err? ==> r.error == ParseVirtual(s).error
  {
    var split: Result<(string, nat), CliError> :=
      match SplitOnce(s, ',')
      case None => Ok((s, DEFAULT_BAUD_RATE))
      case Some((remainder, baud)) =>
        (match ParseU32(baud)
         case Err(kind) => Err(InvalidBaudRate(kind))
         case Ok(rate) => Ok((remainder, rate)));
    match split
    case Err(e) => Err(e)
    case Ok((remainder, rate)) =>
      match ParseVirtual(remainder)
      case Err(e) => Err(e)
      case Ok(v) => Ok(Physical(v.id, v.path, rate))
  }

  /**
   * With a ',' the input splits at the first one: a bad baud rate is reported
   * whatever the prefix is; otherwise id and path, or the error, are those of
   * the prefix parsed as a virtual port.
   */
  lemma PhysicalWithBaudRate(prefix: string, baud: string)
    requires ',' !in prefix
    ensures ParsePhysical(prefix + "," + baud) ==
      match ParseU32(baud)
      case Err(kind) => Err(InvalidBaudRate(kind))
      case Ok(rate) =>
        (match ParseVirtual(prefix)
         case Err(e) => Err(e)
         case Ok(v) => Ok(Physical(v.id, v.path, rate)))
  {
    assert prefix + "," + baud == prefix + [','] + baud;
    SplitOnceOfJoin(prefix, ',', baud);
  }

  /** Without a ',' the input is parsed as a virtual port and the baud rate is 9600. */
  lemma PhysicalWithoutBaudRate(s: string)
    requires ',' !in s
    ensures ParsePhysical(s) ==
      match ParseVirtual(s)
      case Err(e) => Err(e)
      case Ok(v) => Ok(Physical(v.id, v.path, DEFAULT_BAUD_RATE))
  {
  }

  /** The argument text `<id>:<path>,<baud-rate>` for a physical port. */
  function FormatPhysical(p: Physical): string {
    p.id + ":" + p.path + "," + Decimal(p.baudRate)
  }

  /** An id without ':' or ',', a path without ',' and any `u32` baud rate survive formatting and parsing. */
  lemma PhysicalRoundTrip(p: Physical)
    requires ':' !in p.id && ',' !in p.id && ',' !in p.path && p.baudRate <= U32_MAX
    ensures ParsePhysical(FormatPhysical(p)) == Ok(p)
  {
    var prefix := p.id + ":" + p.path;
    assert FormatPhysical(p) == prefix + "," + Decimal(p.baudRate);
    assert ',' !in prefix;
    PhysicalWithBaudRate(prefix, Decimal(p.baudRate));
    ParseU32OfDecimal(p.baudRate);
    VirtualRoundTrip(Virtual(p.id, p.path));
  }

  /** `Route::from_str`: the text before the first ':' is the source, the rest the destination; no ':' is an error. */
  function ParseRoute(s: string): (r: Result<Route, CliError>)
    ensures r.Err? <==> ':' !in s
    ensures r.Err? ==> r.error == InvalidRoute(s)
    ensures r.Ok? ==> r.value.src + ":" + r.value.dst == s && ':' !in r.value.src
  {
    match SplitOnce(s, ':')
    case None => Err(InvalidRoute(s))
    case Some((src, dst)) => Ok(Route(src, dst))
  }

  /** The argument text `<src-id>:<dst-id>`. */
  function FormatRoute(route: Route): string {
    route.src + ":" + route.dst
  }

  /** A route whose source has no ':' survives formatting and parsing unchanged. */
  lemma RouteRoundTrip(route: Route)
    requires ':' !in route.src
    ensures ParseRoute(FormatRoute(route)) == Ok(route)
  {
    assert FormatRoute(route) == route.src + [':'] + route.dst;
    SplitOnceOfJoin(route.src, ':', route.dst);
  }

  /**
   * The `--physical` examples of the help text without a baud rate
   * (`/dev/ttyUSB0` has id `ttyUSB0`): without ':' the id is the file name
   * of the path and the baud rate is 9600.
   */
  lemma PhysicalDefaultId(dir: string, name: string)
    requires ':' !in dir && ',' !in dir && IsNormalComponent(name) && ':' !in name && ',' !in name
    ensures ParsePhysical(dir + "/" + name) == Ok(Physical(name, dir + "/" + name, DEFAULT_BAUD_RATE))
  {
    VirtualDefaultId(dir, name);
    PhysicalWithoutBaudRate(dir + "/" + name);
  }

  /** `1:/dev/ttyUSB0`: an explicit id keeps the path verbatim, and the baud rate is 9600. */
  lemma PhysicalExplicitId(id: string, path: string)
    requires ':' !in id && ',' !in id && ',' !in path
    ensures ParsePhysical(id + ":" + path) == Ok(Physical(id, path, DEFAULT_BAUD_RATE))
  {
    VirtualRoundTrip(Virtual(id, path));
    PhysicalWithoutBaudRate(id + ":" + path);
  }

  /** The baud rate of the help text's `1:/dev/ttyUSB0,115200` example. */
  lemma BaudRateExample()
    ensures ParseU32("115200") == Ok(115200)
  {
    DecimalExample();
    ParseU32OfDecimal(115200);
  }

  /** The decimal text of the baud rate in the third `--physical` example. */
  lemma DecimalExample()
    ensures Decimal(115200) == "115200"
  {
    assert Decimal(1) == "1";
    assert Decimal(11) == "11";
    assert Decimal(115) == "115";
    assert Decimal(1152) == "1152";
    assert Decimal(11520) == "11520";
  }

  /** Only the separator is required: an empty id and path, or an empty route end, are accepted. */
  lemma EmptyPartsAccepted()
    ensures ParseVirtual(":") == Ok(Virtual("", ""))
    ensures ParseRoute(":") == Ok(Route("", ""))
    ensures ParseRoute("a:") == Ok(Route("a", ""))
  {
    var v, r1, r2 := Virtual("", ""), Route("", ""), Route("a", "");
    assert ':' !in v.id && ':' !in r1.src && ':' !in r2.src;
    VirtualRoundTrip(v);
    RouteRoundTrip(r1);
    RouteRoundTrip(r2);
    assert FormatVirtual(v) == ":";
    assert FormatRoute(r1) == ":";
    assert FormatRoute(r2) == "a:";
  }
}
