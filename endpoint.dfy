/**
 * The listener adapters of pkg/endpoint/endpoint.go: their names, the stop
 * result of the gRPC adapter, the request-path helpers the HTTP adapter hands
 * to its tracing handler, and the part of `Run` that registers one stop hook
 * per endpoint with the shutdown registry.
 */
module Endpoints {
  import opened Wrappers
  import Strconv
  import Shutdown

  /** The three adapters, each with the name and the bind address it was built with. */
  datatype Endpoint =
    | Fiber(name: string, addr: string)
    | Http(name: string, addr: string)
    | Grpc(name: string, addr: string)

  function Protocol(e: Endpoint): (p: string)
    ensures |p| == 4
  {
    if e.Grpc? then "GRPC" else "Http"
  }

  // ---------------------------------------------------------------------
  // Names

  /** `Name()`: the protocol, the address in parentheses, then the name. */
  function Name(e: Endpoint): (r: string)
    ensures |r| == 9 + |e.addr| + |e.name|
    ensures r[..6] == (if e.Grpc? then "GRPC (" else "Http (")
    ensures r[6..6 + |e.addr|] == e.addr
    ensures r[6 + |e.addr|..9 + |e.addr|] == "), "
    ensures r[|r| - |e.name|..] == e.name
  {
    Protocol(e) + " (" + e.addr + "), " + e.name
  }

  /** An address without a closing parenthesis can be read back from the name, and so can the name. */
  lemma NameInjective(a: Endpoint, b: Endpoint)
    requires ')' !in a.addr && ')' !in b.addr
    requires Name(a) == Name(b)
    ensures Protocol(a) == Protocol(b) && a.addr == b.addr && a.name == b.name
  {
    var s := Name(a);
    assert s[6 + |a.addr|] == ')';
    assert s[6 + |b.addr|] == ')' by { assert s == Name(b); }
    assert s[..4] == Protocol(a) && Name(b)[..4] == Protocol(b);
  }

  /** With a parenthesis in an address, two different endpoints can share a name. */
  lemma NamesCanCollide()
    ensures Name(Http("c", "a), b")) == Name(Http("b), c", "a"))
  {
  }

  // ---------------------------------------------------------------------
  // Stopping, and the hooks `Run` registers

  /**
   * `Stop()`: the gRPC adapter stops its server and always reports success;
   * the HTTP adapters report what their server's shutdown returned
   * (`shutdownErr`, which the model takes as given).
   */
  function StopResult(e: Endpoint, shutdownErr: Option<string>): (r: Option<string>)
    ensures e.Grpc? ==> r == None
    ensures !e.Grpc? ==> r == shutdownErr
  {
    match e
    case Grpc(_, _) => None
    case _ => shutdownErr
  }

  /** The hook `Run` registers for an endpoint: stop it. */
  datatype StopHook = StopHook(endpoint: Endpoint)

  datatype LogLine = Debug(endpoint: string, text: string) | Warn(endpoint: string, text: string, err: string)

  /**
   * What the stop hook of `e` writes to the log. A stop error is logged as a
   * warning and goes no further: the hook returns nothing either way.
   */
  function StopHookLog(e: Endpoint, shutdownErr: Option<string>): (lines: seq<LogLine>)
    ensures |lines| == 2 && lines[0] == Debug(Name(e), "Shutdown...")
    ensures lines[1].Warn? <==> StopResult(e, shutdownErr).Some?
    ensures e.Grpc? ==> lines[1] == Debug(Name(e), "Stopped")
  {
    var stopped := match StopResult(e, shutdownErr)
      case Some(err) => Warn(Name(e), "Fail to shutdown", err)
      case None => Debug(Name(e), "Stopped");
    [Debug(Name(e), "Shutdown..."), stopped]
  }

  function StopHooks(endpoints: seq<Endpoint>): (hs: seq<StopHook>)
    ensures |hs| == |endpoints|
    ensures forall i :: 0 <= i < |endpoints| ==> hs[i] == StopHook(endpoints[i])
  {
    seq(|endpoints|, i requires 0 <= i < |endpoints| => StopHook(endpoints[i]))
  }

  /** The sequential part of `Run`: one stop hook per endpoint, in argument order. */
  method RegisterStopHooks(endpoints: seq<Endpoint>, registry: Shutdown.Registry<StopHook>)
    requires registry.Valid()
    modifies registry
    ensures registry.Valid()
    ensures registry.hooks == old(registry.hooks) + StopHooks(endpoints)
    ensures registry.phase == old(registry.phase) && registry.trace == old(registry.trace)
  {
    for i := 0 to |endpoints|
      invariant registry.Valid()
      invariant registry.hooks == old(registry.hooks) + StopHooks(endpoints[..i])
      invariant registry.phase == old(registry.phase) && registry.trace == old(registry.trace)
    {
      registry.OnShutdown(StopHook(endpoints[i]));
      assert StopHooks(endpoints[..i + 1]) == StopHooks(endpoints[..i]) + [StopHook(endpoints[i])];
    }
    assert endpoints[..|endpoints|] == endpoints;
  }

  /** Hooks registered before `Run` are drained after all of its endpoints, which go last to first. */
  lemma EndpointsStopFirstInReverse(earlier: seq<StopHook>, endpoints: seq<Endpoint>)
    ensures Shutdown.Reverse(earlier + StopHooks(endpoints)) == StopHooks(Shutdown.Reverse(endpoints)) + Shutdown.Reverse(earlier)
  {
    Shutdown.ReverseAppend(earlier, StopHooks(endpoints));
    assert Shutdown.Reverse(StopHooks(endpoints)) == StopHooks(Shutdown.Reverse(endpoints));
  }

  /**
   * `Run` on a fresh registry, followed by the shutdown signal: the order in
   * which the endpoints are stopped is the reverse of the argument order.
   */
  method StopOrder(endpoints: seq<Endpoint>) returns (order: seq<StopHook>)
    ensures order == StopHooks(Shutdown.Reverse(endpoints))
  {
    var registry := new Shutdown.Registry<StopHook>();
    RegisterStopHooks(endpoints, registry);
    registry.Signal();
    var completed := registry.WaitShutdown();
    assert completed;
    order := Shutdown.RunOrder(registry.trace[..|registry.trace| - 1]);
    EndpointsStopFirstInReverse([], endpoints);
    assert [] + StopHooks(endpoints) == StopHooks(endpoints);
  }

  // ---------------------------------------------------------------------
  // The health-endpoint matcher

  const HealthEndpoints: seq<string> := ["/metrics", "/debug/pprof"]

  /** `strings.HasSuffix`: the last `|suffix|` characters of `s` are those of `suffix`. */
  function HasSuffix(s: string, suffix: string): (r: bool)
    ensures r <==> |suffix| <= |s| && forall i :: 0 <= i < |suffix| ==> s[|s| - |suffix| + i] == suffix[i]
  {
    |suffix| <= |s| && s[|s| - |suffix|..] == suffix
  }

  /** `strings.TrimSuffix`: removes one copy of `suffix` from the end, if it is there. */
  function TrimSuffix(s: string, suffix: string): (r: string)
    ensures HasSuffix(s, suffix) ==> r + suffix == s
    ensures !HasSuffix(s, suffix) ==> r == s
  {
    if HasSuffix(s, suffix) then s[..|s| - |suffix|] else s
  }

  /** A request path whose spans are not traced: `/metrics` or `/debug/pprof` at the end, after one trailing slash is dropped. */
  function IsHealthPath(path: string): (r: bool)
    ensures HasSuffix(path, "/metrics") || HasSuffix(path, "/debug/pprof") ==> r
  {
    var p := TrimSuffix(path, "/");
    assert HasSuffix(path, "/metrics") || HasSuffix(path, "/debug/pprof") ==> p == path by {
      if HasSuffix(path, "/metrics") || HasSuffix(path, "/debug/pprof") {
        assert path[|path| - 1] != '/';
      }
    }
    HasSuffix(p, "/metrics") || HasSuffix(p, "/debug/pprof")
  }

  /** The matcher `newHealthEndpoint` returns: a search over `HealthEndpoints` that stops at the first hit. */
  method IsHealthEndpoint(path: string) returns (healthy: bool)
    ensures healthy == IsHealthPath(path)
  {
    var p := TrimSuffix(path, "/");
    assert HealthEndpoints[0] == "/metrics" && HealthEndpoints[1] == "/debug/pprof";
    for i := 0 to |HealthEndpoints|
      invariant forall j :: 0 <= j < i ==> !HasSuffix(p, HealthEndpoints[j])
    {
      if HasSuffix(p, HealthEndpoints[i]) {
        return true;
      }
    }
    return false;
  }

  /** After one trailing slash is dropped, `x` ends the path exactly when `x` or `x` and a slash ended it before. */
  lemma TrimmedSuffix(path: string, x: string)
    requires x != [] && x[|x| - 1] != '/'
    ensures HasSuffix(TrimSuffix(path, "/"), x) <==> HasSuffix(path, x) || HasSuffix(path, x + "/")
  {
    if HasSuffix(path, "/") {
      var t := path[..|path| - 1];
      assert path == t + "/";
      assert TrimSuffix(path, "/") == t;
      if HasSuffix(t, x) {
        assert path[|path| - |x| - 1..] == t[|t| - |x|..] + "/";
      }
      if HasSuffix(path, x + "/") {
        assert t[|t| - |x|..] == path[|path| - |x| - 1..][..|x|];
      }
    } else {
      assert TrimSuffix(path, "/") == path;
    }
  }

  /** The matcher accepts exactly the paths ending in one of the two endpoints, with or without one slash after it. */
  lemma HealthPathEndings(path: string)
    ensures IsHealthPath(path) <==>
      || HasSuffix(path, "/metrics") || HasSuffix(path, "/metrics/")
      || HasSuffix(path, "/debug/pprof") || HasSuffix(path, "/debug/pprof/")
  {
    TrimmedSuffix(path, "/metrics");
    TrimmedSuffix(path, "/debug/pprof");
    assert "/metrics" + "/" == "/metrics/";
    assert "/debug/pprof" + "/" == "/debug/pprof/";
  }

  /** Only one trailing slash is dropped, and the endpoint must end the path. */
  lemma HealthPathExamples()
    ensures IsHealthPath("/x/metrics/")
    ensures IsHealthPath("/debug/pprof")
    ensures !IsHealthPath("/metrics//")
    ensures !IsHealthPath("/debug/pprof/heap")
  {
    TrailingSlashExample();
    DoubleSlashExample();
    SubPathExample();
  }

  lemma TrailingSlashExample()
    ensures IsHealthPath("/x/metrics/")
  {
    HealthPathEndings("/x/metrics/");
    assert "/x/metrics/"[2..] == "/metrics/";
  }

  lemma DoubleSlashExample()
    ensures !IsHealthPath("/metrics//")
  {
    HealthPathEndings("/metrics//");
    assert !HasSuffix("/metrics//", "/metrics/") by {
      assert "/metrics//"[1] != "/metrics/"[0];
    }
    assert !HasSuffix("/metrics//", "/metrics") by {
      assert "/metrics//"[2] != "/metrics"[0];
    }
  }

  lemma SubPathExample()
    ensures !IsHealthPath("/debug/pprof/heap")
  {
    HealthPathEndings("/debug/pprof/heap");
    var p := "/debug/pprof/heap";
    assert !HasSuffix(p, "/metrics") by { assert p[|p| - 1] != "/metrics"[7]; }
    assert !HasSuffix(p, "/metrics/") by { assert p[|p| - 1] != "/metrics/"[8]; }
    assert !HasSuffix(p, "/debug/pprof") by { assert p[|p| - 1] != "/debug/pprof"[11]; }
    assert !HasSuffix(p, "/debug/pprof/") by { assert p[|p| - 1] != "/debug/pprof/"[12]; }
  }

  // ---------------------------------------------------------------------
  // The span-name formatter

  /** What is left of `s` after the run of decimal digits it starts with. */
  function SkipDigits(s: string): (r: string)
    ensures |r| <= |s|
    ensures r == [] || !Strconv.IsDigit(r[0])
  {
    if s != [] && Strconv.IsDigit(s[0]) then SkipDigits(s[1..]) else s
  }

  /** Only the leading run of digits is dropped: what is left is the rest of `s`, unchanged. */
  lemma {:induction false} SkipDigitsDropsRun(s: string)
    ensures var r := SkipDigits(s);
      s[|s| - |r|..] == r && Strconv.AllDigits(s[..|s| - |r|])
    decreases |s|
  {
    if s != [] && Strconv.IsDigit(s[0]) {
      SkipDigitsDropsRun(s[1..]);
    }
  }

  /** A string of digits is skipped entirely. */
  lemma SkipAllDigits(d: string)
    requires Strconv.AllDigits(d)
    ensures SkipDigits(d) == []
  {
    SkipDigitsDropsRun(d);
  }

  /** Skipping digits keeps the end of the string. */
  lemma {:induction false} SkipDigitsKeepsLast(s: string)
    requires s != [] && SkipDigits(s) != []
    ensures SkipDigits(s)[|SkipDigits(s)| - 1] == s[|s| - 1]
    decreases |s|
  {
    if Strconv.IsDigit(s[0]) {
      SkipDigitsKeepsLast(s[1..]);
    }
  }

  /**
   * `regexp.MustCompile("/(\d+)").ReplaceAllString(path, "/-")`: scanning from
   * the left, every slash followed by a run of digits becomes `/-`, the whole
   * run being consumed; every other character is copied.
   */
  function ReplaceDigitSegments(s: string): (r: string)
    ensures |r| <= |s|
    ensures s != [] ==> r != [] && r[0] == s[0]
    decreases |s|
  {
    if s == [] then []
    else if s[0] == '/' && |s| > 1 && Strconv.IsDigit(s[1]) then "/-" + ReplaceDigitSegments(SkipDigits(s[1..]))
    else [s[0]] + ReplaceDigitSegments(s[1..])
  }

  /** No slash in `s` is followed by a digit. */
  predicate NoDigitSegment(s: string) {
    forall i :: 0 <= i < |s| - 1 ==> !(s[i] == '/' && Strconv.IsDigit(s[i + 1]))
  }

  /** After the replacement no slash is followed by a digit. */
  lemma {:induction false} ReplacedHasNoDigitSegment(s: string)
    ensures NoDigitSegment(ReplaceDigitSegments(s))
    decreases |s|
  {
    if s == [] {
    } else if s[0] == '/' && |s| > 1 && Strconv.IsDigit(s[1]) {
      var rest := SkipDigits(s[1..]);
      ReplacedHasNoDigitSegment(rest);
      var tail := ReplaceDigitSegments(rest);
      var r := ReplaceDigitSegments(s);
      assert r == "/-" + tail;
      forall i | 0 <= i < |r| - 1 ensures !(r[i] == '/' && Strconv.IsDigit(r[i + 1])) {
        if i >= 2 {
          assert r[i] == tail[i - 2] && r[i + 1] == tail[i - 1];
        }
      }
    } else {
      var tail := ReplaceDigitSegments(s[1..]);
      ReplacedHasNoDigitSegment(s[1..]);
      var r := ReplaceDigitSegments(s);
      assert r == [s[0]] + tail;
      forall i | 0 <= i < |r| - 1 ensures !(r[i] == '/' && Strconv.IsDigit(r[i + 1])) {
        if i >= 1 {
          assert r[i] == tail[i - 1] && r[i + 1] == tail[i];
        } else {
          assert r[1] == tail[0] == s[1];
        }
      }
    }
  }

  /** A path is left as it is exactly when no slash in it is followed by a digit. */
  lemma {:induction false} ReplaceFixpoint(s: string)
    ensures ReplaceDigitSegments(s) == s <==> NoDigitSegment(s)
    decreases |s|
  {
    if ReplaceDigitSegments(s) == s {
      ReplacedHasNoDigitSegment(s);
    }
    if NoDigitSegment(s) && s != [] {
      assert !(s[0] == '/' && |s| > 1 && Strconv.IsDigit(s[1])) by {
        if |s| > 1 { assert !(s[0] == '/' && Strconv.IsDigit(s[1])); }
      }
      assert NoDigitSegment(s[1..]) by {
        forall i | 0 <= i < |s[1..]| - 1 ensures !(s[1..][i] == '/' && Strconv.IsDigit(s[1..][i + 1])) {
          assert s[1..][i] == s[i + 1] && s[1..][i + 1] == s[i + 2];
        }
      }
      ReplaceFixpoint(s[1..]);
      assert s == [s[0]] + s[1..];
    }
  }

  /** Formatting a span name twice changes nothing more. */
  lemma ReplaceIdempotent(s: string)
    ensures ReplaceDigitSegments(ReplaceDigitSegments(s)) == ReplaceDigitSegments(s)
  {
    ReplacedHasNoDigitSegment(s);
    ReplaceFixpoint(ReplaceDigitSegments(s));
  }

  /** A digit run cannot continue into a part that does not start with a digit. */
  lemma {:induction false} SkipDigitsAppend(x: string, y: string)
    requires y == [] || !Strconv.IsDigit(y[0])
    ensures SkipDigits(x + y) == SkipDigits(x) + y
    decreases |x|
  {
    if x == [] {
      assert x + y == y;
    } else if Strconv.IsDigit(x[0]) {
      assert (x + y)[1..] == x[1..] + y;
      SkipDigitsAppend(x[1..], y);
    }
  }

  /**
   * The replacement works piece by piece: a path cut where the left part does
   * not end with a slash and the right part does not start with a digit is
   * formatted as its two parts are.
   */
  lemma {:induction false} ReplaceAppend(a: string, b: string)
    requires a == [] || a[|a| - 1] != '/'
    requires b == [] || !Strconv.IsDigit(b[0])
    ensures ReplaceDigitSegments(a + b) == ReplaceDigitSegments(a) + ReplaceDigitSegments(b)
    decreases |a|
  {
    if a == [] {
      assert a + b == b;
    } else if a[0] == '/' && |a| > 1 && Strconv.IsDigit(a[1]) {
      var rest := SkipDigits(a[1..]);
      if rest != [] {
        SkipDigitsKeepsLast(a[1..]);
      }
      ReplaceAppend(rest, b);
      AppendSegmentCase(a, b);
    } else {
      var rest := a[1..];
      assert rest == [] || rest[|rest| - 1] == a[|a| - 1];
      ReplaceAppend(rest, b);
      AppendCopyCase(a, b);
    }
  }

  lemma SegmentUnfold(s: string)
    requires |s| > 1 && s[0] == '/' && Strconv.IsDigit(s[1])
    ensures ReplaceDigitSegments(s) == "/-" + ReplaceDigitSegments(SkipDigits(s[1..]))
  {
  }

  lemma CopyUnfold(s: string)
    requires s != [] && !(s[0] == '/' && |s| > 1 && Strconv.IsDigit(s[1]))
    ensures ReplaceDigitSegments(s) == [s[0]] + ReplaceDigitSegments(s[1..])
  {
  }

  lemma ConcatAssoc<T>(p: seq<T>, q: seq<T>, r: seq<T>)
    ensures p + (q + r) == (p + q) + r
  {
  }

  lemma TailOfAppend(a: string, b: string)
    requires a != []
    ensures (a + b)[1..] == a[1..] + b
  {
  }

  /** The step of `ReplaceAppend` when `a` starts with a numeric segment. */
  lemma AppendSegmentCase(a: string, b: string)
    requires |a| > 1 && a[0] == '/' && Strconv.IsDigit(a[1])
    requires b == [] || !Strconv.IsDigit(b[0])
    requires ReplaceDigitSegments(SkipDigits(a[1..]) + b)
      == ReplaceDigitSegments(SkipDigits(a[1..])) + ReplaceDigitSegments(b)
    ensures ReplaceDigitSegments(a + b) == ReplaceDigitSegments(a) + ReplaceDigitSegments(b)
  {
    var ab := a + b;
    var rest := SkipDigits(a[1..]);
    TailOfAppend(a, b);
    SkipDigitsAppend(a[1..], b);
    SegmentUnfold(a);
    SegmentUnfold(ab);
    var x, y := ReplaceDigitSegments(rest), ReplaceDigitSegments(b);
    ConcatAssoc("/-", x, y);
  }

  /** The step of `ReplaceAppend` when the first character of `a` is copied. */
  lemma AppendCopyCase(a: string, b: string)
    requires a != [] && a[|a| - 1] != '/'
    requires !(a[0] == '/' && |a| > 1 && Strconv.IsDigit(a[1]))
    requires b == [] || !Strconv.IsDigit(b[0])
    requires ReplaceDigitSegments(a[1..] + b) == ReplaceDigitSegments(a[1..]) + ReplaceDigitSegments(b)
    ensures ReplaceDigitSegments(a + b) == ReplaceDigitSegments(a) + ReplaceDigitSegments(b)
  {
    var ab := a + b;
    TailOfAppend(a, b);
    assert !(ab[0] == '/' && |ab| > 1 && Strconv.IsDigit(ab[1])) by {
      if |a| == 1 { assert a[0] != '/'; } else { assert ab[1] == a[1]; }
    }
    CopyUnfold(a);
    CopyUnfold(ab);
    ConcatAssoc([a[0]], ReplaceDigitSegments(a[1..]), ReplaceDigitSegments(b));
  }

  /**
   * The general rule of the formatter: a slash with the whole run of digits
   * after it becomes `/-`, and the formatting goes on after the run.
   */
  lemma ReplaceSegmentRule(d: string, q: string)
    requires d != [] && Strconv.AllDigits(d)
    requires q == [] || !Strconv.IsDigit(q[0])
    ensures ReplaceDigitSegments("/" + d + q) == "/-" + ReplaceDigitSegments(q)
  {
    var s := "/" + d + q;
    assert s[0] == '/' && s[1] == d[0];
    assert s[1..] == d + q;
    SegmentUnfold(s);
    SkipDigitsAppend(d, q);
    SkipAllDigits(d);
    assert [] + q == q;
  }

  lemma NumericSegment()
    ensures ReplaceDigitSegments("/123") == "/-"
  {
    assert SkipDigits("123") == [] by {
      assert "123"[1..] == "23" && "23"[1..] == "3" && "3"[1..] == "";
    }
    assert "/123"[1..] == "123";
  }

  lemma PlainSegments()
    ensures ReplaceDigitSegments("/u") == "/u"
    ensures ReplaceDigitSegments("/x45") == "/x45"
  {
    assert NoDigitSegment("/u");
    ReplaceFixpoint("/u");
    assert NoDigitSegment("/x45");
    ReplaceFixpoint("/x45");
  }

  lemma TailExample()
    ensures ReplaceDigitSegments("/123/x45") == "/-/x45"
  {
    NumericSegment();
    PlainSegments();
    ReplaceAppend("/123", "/x45");
    assert "/123" + "/x45" == "/123/x45";
  }

  /** The example path: the numeric segment becomes `/-`, the segment `x45` is kept. */
  lemma ReplaceExample()
    ensures ReplaceDigitSegments("/u/123/x45") == "/u/-/x45"
  {
    PlainSegments();
    TailExample();
    ReplaceAppend("/u", "/123/x45");
    assert "/u" + "/123/x45" == "/u/123/x45";
    assert "/u" + "/-/x45" == "/u/-/x45";
  }

  /** The span name of a request: the formatted path, or `/` when that is empty. */
  function SpanName(path: string): (r: string)
    ensures r != []
    ensures path == [] ==> r == "/"
    ensures path != [] ==> r == ReplaceDigitSegments(path)
  {
    var name := ReplaceDigitSegments(path);
    if name != "" then name else "/"
  }
}
