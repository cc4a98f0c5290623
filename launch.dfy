/** src/index.js: building the daemon's launch options, classifying how the
    child process ends, the memoised readiness wait and its retry loop.
    Spawning, signals, streams, timers and the RPC client are outside the model:
    the child's exit is an input event, the clock is an input function of the
    check number, and each RPC attempt's outcome is an input. */
module Launch {
  import opened Wrappers
  import opened JsStrings
  import opened Flags

  // ---------------------------------------------------------------------------
  // options objects: lookup, property assignment and Object.assign

  predicate DistinctKeys(o: Options) {
    forall i, j :: 0 <= i < j < |o| ==> o[i].0 != o[j].0
  }

  function Keys(o: Options): seq<string> {
    seq(|o|, i requires 0 <= i < |o| => o[i].0)
  }

  /** `o[k]`: `None` stands for `undefined`. */
  function Get(o: Options, k: string): Option<Value> {
    if o == [] then None
    else if o[0].0 == k then Some(o[0].1)
    else Get(o[1..], k)
  }

  /** A property is defined exactly when its key is present, and then it holds
      the value of an entry with that key. */
  lemma {:induction false} GetSpec(o: Options, k: string)
    ensures Get(o, k).None? <==> k !in Keys(o)
    ensures Get(o, k).Some? ==> exists i :: 0 <= i < |o| && o[i] == (k, Get(o, k).value)
  {
    if o != [] {
      GetSpec(o[1..], k);
      assert Keys(o) == [o[0].0] + Keys(o[1..]);
      if o[0].0 != k && Get(o, k).Some? {
        var i :| 0 <= i < |o[1..]| && o[1..][i] == (k, Get(o, k).value);
        assert o[i + 1] == (k, Get(o, k).value);
      }
    }
  }

  /** `o[k] = v`: an existing property keeps its place, a new one goes last. */
  function Put(o: Options, k: string, v: Value): Options {
    if o == [] then [(k, v)]
    else if o[0].0 == k then [(k, v)] + o[1..]
    else [o[0]] + Put(o[1..], k, v)
  }

  /** Assigning a property defines it and leaves every other property as it was. */
  lemma {:induction false} PutGet(o: Options, k: string, v: Value, k': string)
    ensures Get(Put(o, k, v), k') == if k' == k then Some(v) else Get(o, k')
  {
    if o != [] && o[0].0 != k {
      PutGet(o[1..], k, v, k');
      assert Put(o, k, v)[1..] == Put(o[1..], k, v);
    } else if o != [] {
      assert Put(o, k, v)[1..] == o[1..];
    }
  }

  /** An existing key keeps its place; a new key is appended. */
  lemma {:induction false} PutKeys(o: Options, k: string, v: Value)
    ensures Keys(Put(o, k, v)) == if k in Keys(o) then Keys(o) else Keys(o) + [k]
  {
    if o == [] {
      assert Keys([(k, v)]) == [k];
    } else {
      var x, tail := o[0], o[1..];
      KeysCons(x, tail);
      assert o == [x] + tail;
      if x.0 == k {
        KeysCons((k, v), tail);
      } else {
        PutKeys(tail, k, v);
        KeysCons(x, Put(tail, k, v));
        var ks := Keys(tail);
        assert k !in Keys(tail) ==> [x.0] + (ks + [k]) == ([x.0] + ks) + [k];
      }
    }
  }

  lemma KeysCons(x: (string, Value), o: Options)
    ensures Keys([x] + o) == [x.0] + Keys(o)
  {
  }

  lemma PutDistinct(o: Options, k: string, v: Value)
    requires DistinctKeys(o)
    ensures DistinctKeys(Put(o, k, v))
  {
    var r := Put(o, k, v);
    PutKeys(o, k, v);
    forall i, j | 0 <= i < j < |r| ensures r[i].0 != r[j].0 {
      assert Keys(r)[i] == r[i].0 && Keys(r)[j] == r[j].0;
    }
  }

  /** `Object.assign(target, source)`: the properties of `source`, in order,
      assigned onto `target`. */
  function Assign(target: Options, source: Options): Options
    decreases source
  {
    if source == [] then target
    else Assign(Put(target, source[0].0, source[0].1), source[1..])
  }

  /** Source values win and every other key keeps the target's value. */
  lemma {:induction false} AssignGet(target: Options, source: Options, k: string)
    requires DistinctKeys(source)
    ensures Get(Assign(target, source), k) == if k in Keys(source) then Get(source, k) else Get(target, k)
    decreases source
  {
    if source != [] {
      var (k0, v0) := source[0];
      var rest := source[1..];
      assert DistinctKeys(rest) by {
        forall i, j | 0 <= i < j < |rest| ensures rest[i].0 != rest[j].0 {
          assert rest[i] == source[i + 1] && rest[j] == source[j + 1];
        }
      }
      AssignGet(Put(target, k0, v0), rest, k);
      PutGet(target, k0, v0, k);
      assert Keys(source) == [k0] + Keys(rest);
      if k == k0 {
        assert k !in Keys(rest);
      }
    }
  }

  /** The target's keys keep their places at the front. */
  lemma {:induction false} AssignKeepsTargetKeys(target: Options, source: Options)
    ensures |Assign(target, source)| >= |target|
    ensures Keys(Assign(target, source))[..|target|] == Keys(target)
    decreases source
  {
    if source != [] {
      var t' := Put(target, source[0].0, source[0].1);
      PutKeys(target, source[0].0, source[0].1);
      AssignKeepsTargetKeys(t', source[1..]);
      assert Keys(t')[..|target|] == Keys(target);
      assert Keys(Assign(target, source))[..|target|] == Keys(Assign(target, source))[..|t'|][..|target|];
    }
  }

  lemma {:induction false} AssignDistinct(target: Options, source: Options)
    requires DistinctKeys(target)
    ensures DistinctKeys(Assign(target, source))
    decreases source
  {
    if source != [] {
      PutDistinct(target, source[0].0, source[0].1);
      AssignDistinct(Put(target, source[0].0, source[0].1), source[1..]);
    }
  }

  // ---------------------------------------------------------------------------
  // node(): defaults, the regtest port, the network

  /** The defaults `node` puts under the caller's options: server mode and
      random credentials, given here as arbitrary strings. */
  function Defaults(user: string, password: string): Options {
    [("server", Bool(true)), ("rpcuser", Str(user)), ("rpcpassword", Str(password))]
  }

  /** JavaScript truthiness of a property value. */
  predicate Truthy(v: Option<Value>) {
    match v
    case None => false
    case Some(Bool(b)) => b
    case Some(Num(n)) => n != 0
    case Some(Str(s)) => s != ""
  }

  const RegtestRpcPort := 18332

  /** Lines 73-75: `rpcport` defaults to 18332 on regtest. */
  function WithRegtestPort(o: Options): Options {
    if Get(o, "rpcport").None? && Truthy(Get(o, "regtest")) then Put(o, "rpcport", Num(RegtestRpcPort)) else o
  }

  /** The options `node` spawns the daemon with (lines 67-75). */
  function NodeOptions(opts: Options, user: string, password: string): Options {
    WithRegtestPort(Assign(Defaults(user, password), opts))
  }

  /** The defaults by key. */
  lemma DefaultsGet(user: string, password: string, k: string)
    ensures Get(Defaults(user, password), k) ==
      if k == "server" then Some(Bool(true))
      else if k == "rpcuser" then Some(Str(user))
      else if k == "rpcpassword" then Some(Str(password))
      else None
    ensures Keys(Defaults(user, password)) == ["server", "rpcuser", "rpcpassword"]
    ensures DistinctKeys(Defaults(user, password))
  {
    var d := Defaults(user, password);
    var d1: Options := [("rpcuser", Str(user)), ("rpcpassword", Str(password))];
    var d2: Options := [("rpcpassword", Str(password))];
    assert d[1..] == d1 && d1[1..] == d2 && d2[1..] == [];
    assert Get(d2, k) == if k == "rpcpassword" then Some(Str(password)) else None;
    assert Get(d1, k) == if k == "rpcuser" then Some(Str(user)) else Get(d2, k);
    assert Get(d, k) == if k == "server" then Some(Bool(true)) else Get(d1, k);
  }

  /** `Object.assign` of the caller's options over the defaults. */
  lemma MergedSpec(opts: Options, user: string, password: string, k: string)
    requires DistinctKeys(opts)
    ensures DistinctKeys(Assign(Defaults(user, password), opts))
    ensures |Assign(Defaults(user, password), opts)| >= 3
    ensures Keys(Assign(Defaults(user, password), opts))[..3] == ["server", "rpcuser", "rpcpassword"]
    ensures Get(Assign(Defaults(user, password), opts), k) ==
      if k in Keys(opts) then Get(opts, k) else Get(Defaults(user, password), k)
  {
    DefaultsGet(user, password, k);
    AssignDistinct(Defaults(user, password), opts);
    AssignKeepsTargetKeys(Defaults(user, password), opts);
    AssignGet(Defaults(user, password), opts, k);
  }

  /** The regtest step changes `rpcport` only, and only when it is undefined. */
  lemma RegtestPortSpec(o: Options, k: string)
    requires DistinctKeys(o) && |o| >= 3
    ensures DistinctKeys(WithRegtestPort(o))
    ensures |WithRegtestPort(o)| >= 3 && Keys(WithRegtestPort(o))[..3] == Keys(o)[..3]
    ensures Get(WithRegtestPort(o), k) ==
      if k == "rpcport" && Get(o, "rpcport").None? && Truthy(Get(o, "regtest")) then Some(Num(RegtestRpcPort))
      else Get(o, k)
  {
    if Get(o, "rpcport").None? && Truthy(Get(o, "regtest")) {
      PutKeys(o, "rpcport", Num(RegtestRpcPort));
      PutDistinct(o, "rpcport", Num(RegtestRpcPort));
      PutGet(o, "rpcport", Num(RegtestRpcPort), k);
    }
  }

  /** After defaulting, `server`, `rpcuser` and `rpcpassword` are present and
      lead the key order; a caller's value for any of them is kept; `rpcport` is
      18332 exactly when the caller gave none and `regtest` is truthy; every
      other key passes through unchanged, and no key is duplicated. */
  lemma NodeOptionsSpec(opts: Options, user: string, password: string, k: string)
    requires DistinctKeys(opts)
    ensures DistinctKeys(NodeOptions(opts, user, password))
    ensures |NodeOptions(opts, user, password)| >= 3
    ensures Keys(NodeOptions(opts, user, password))[..3] == ["server", "rpcuser", "rpcpassword"]
    ensures Get(NodeOptions(opts, user, password), "server") ==
      if "server" in Keys(opts) then Get(opts, "server") else Some(Bool(true))
    ensures Get(NodeOptions(opts, user, password), "rpcuser") ==
      if "rpcuser" in Keys(opts) then Get(opts, "rpcuser") else Some(Str(user))
    ensures Get(NodeOptions(opts, user, password), "rpcpassword") ==
      if "rpcpassword" in Keys(opts) then Get(opts, "rpcpassword") else Some(Str(password))
    ensures Get(NodeOptions(opts, user, password), "rpcport") ==
      if "rpcport" !in Keys(opts) && Truthy(Get(opts, "regtest")) then Some(Num(RegtestRpcPort)) else Get(opts, "rpcport")
    ensures k !in ["server", "rpcuser", "rpcpassword", "rpcport"] ==>
      Get(NodeOptions(opts, user, password), k) == Get(opts, k)
  {
    var merged := Assign(Defaults(user, password), opts);
    MergedSpec(opts, user, password, "server");
    MergedSpec(opts, user, password, "rpcuser");
    MergedSpec(opts, user, password, "rpcpassword");
    MergedSpec(opts, user, password, "rpcport");
    MergedSpec(opts, user, password, "regtest");
    MergedSpec(opts, user, password, k);
    DefaultsGet(user, password, "server");
    DefaultsGet(user, password, "rpcuser");
    DefaultsGet(user, password, "rpcpassword");
    DefaultsGet(user, password, "rpcport");
    DefaultsGet(user, password, "regtest");
    DefaultsGet(user, password, k);
    GetSpec(opts, "rpcport");
    GetSpec(opts, "regtest");
    GetSpec(opts, k);
    RegtestPortSpec(merged, "server");
    RegtestPortSpec(merged, "rpcuser");
    RegtestPortSpec(merged, "rpcpassword");
    RegtestPortSpec(merged, "rpcport");
    RegtestPortSpec(merged, k);
  }

  datatype Network = Mainnet | Testnet | Regtest

  /** Lines 79-81: start from mainnet, then testnet, then regtest override. */
  function NetworkOf(o: Options): (n: Network)
    ensures n == Regtest <==> Truthy(Get(o, "regtest"))
    ensures n == Testnet <==> !Truthy(Get(o, "regtest")) && Truthy(Get(o, "testnet"))
    ensures n == Mainnet <==> !Truthy(Get(o, "regtest")) && !Truthy(Get(o, "testnet"))
  {
    if Truthy(Get(o, "regtest")) then Regtest
    else if Truthy(Get(o, "testnet")) then Testnet
    else Mainnet
  }

  /** What the RPC client is constructed with. */
  datatype RpcConfig = RpcConfig(username: Option<Value>, password: Option<Value>, port: Option<Value>, network: Network)

  function RpcConfigOf(o: Options): RpcConfig {
    RpcConfig(Get(o, "rpcuser"), Get(o, "rpcpassword"), Get(o, "rpcport"), NetworkOf(o))
  }

  /** Every key of the launch options is a key of the caller's or one of the
      four `node` adds. */
  lemma NodeOptionKeys(opts: Options, user: string, password: string, k: string)
    requires DistinctKeys(opts)
    ensures k in Keys(NodeOptions(opts, user, password)) <==>
      k in Keys(opts) || k in ["server", "rpcuser", "rpcpassword"]
      || (k == "rpcport" && Truthy(Get(opts, "regtest")))
  {
    NodeOptionsSpec(opts, user, password, k);
    GetSpec(NodeOptions(opts, user, password), k);
    GetSpec(opts, k);
  }

  /** A caller's key that is not lowercase makes the launch throw. */
  lemma UppercaseOptionFailsLaunch(opts: Options, user: string, password: string, i: nat)
    requires DistinctKeys(opts)
    requires i < |opts| && !IsLowercase(opts[i].0)
    ensures ArgsOf(NodeOptions(opts, user, password)).Failure?
  {
    var o := NodeOptions(opts, user, password);
    NodeOptionKeys(opts, user, password, opts[i].0);
    assert Keys(opts)[i] == opts[i].0;
    var j :| 0 <= j < |o| && Keys(o)[j] == opts[i].0;
    ArgsOfSpec(o);
  }

  /** With lowercase keys from the caller, the launch arguments are built. */
  lemma LowercaseOptionsLaunch(opts: Options, user: string, password: string)
    requires DistinctKeys(opts)
    requires forall i :: 0 <= i < |opts| ==> IsLowercase(opts[i].0)
    ensures ArgsOf(NodeOptions(opts, user, password)).Success?
  {
    var o := NodeOptions(opts, user, password);
    assert IsLowercase("server") && IsLowercase("rpcuser") && IsLowercase("rpcpassword") && IsLowercase("rpcport");
    forall j | 0 <= j < |o| ensures IsLowercase(o[j].0) {
      NodeOptionKeys(opts, user, password, o[j].0);
      assert Keys(o)[j] == o[j].0;
      if o[j].0 in Keys(opts) {
        var i :| 0 <= i < |opts| && Keys(opts)[i] == o[j].0;
      }
    }
    ArgsOfSpec(o);
  }

  /** The RPC client uses the credentials the daemon is started with: the
      arguments carry `-rpcuser=` and `-rpcpassword=` with the client's values. */
  lemma LaunchArgsCarryCredentials(opts: Options, user: string, password: string)
    requires DistinctKeys(opts)
    requires ArgsOf(NodeOptions(opts, user, password)).Success?
    ensures RpcConfigOf(NodeOptions(opts, user, password)).username.Some?
    ensures RpcConfigOf(NodeOptions(opts, user, password)).password.Some?
    ensures FormatArg("rpcuser", RpcConfigOf(NodeOptions(opts, user, password)).username.value)
      in ArgsOf(NodeOptions(opts, user, password)).value
    ensures FormatArg("rpcpassword", RpcConfigOf(NodeOptions(opts, user, password)).password.value)
      in ArgsOf(NodeOptions(opts, user, password)).value
  {
    var o := NodeOptions(opts, user, password);
    NodeOptionsSpec(opts, user, password, "rpcuser");
    GetSpec(o, "rpcuser");
    GetSpec(o, "rpcpassword");
    GetSpec(opts, "rpcuser");
    GetSpec(opts, "rpcpassword");
    ArgsOfSpec(o);
    var args := ArgsOf(o).value;
    var u := Get(o, "rpcuser").value;
    var i :| 0 <= i < |o| && o[i] == ("rpcuser", u);
    assert args[i] == FormatArg("rpcuser", u);
    var p := Get(o, "rpcpassword").value;
    var j :| 0 <= j < |o| && o[j] == ("rpcpassword", p);
    assert args[j] == FormatArg("rpcpassword", p);
  }

  // ---------------------------------------------------------------------------
  // spawn(): how the child's end settles its promise (lines 36-49)

  /** Exits within this many milliseconds of the spawn count as startup failures. */
  const GraceMs := 1000

  /** What the child process emits: `exit` with its code (`None` when it was
      ended by a signal and node reports `null`), the milliseconds since spawn
      and the buffered standard error (`None` when `read()` returns `null`), or
      an `error` event. */
  datatype ChildEvent =
    | Exit(code: Option<int>, elapsedMs: int, stderr: Option<string>)
    | SpawnError(message: string)

  datatype Settlement = Resolved | Rejected(message: string)

  /** `${code}` for an exit code, `null` when there is none. */
  function CodeText(code: Option<int>): string {
    match code
    case None => "null"
    case Some(n) => IntToString(n)
  }

  const ExitMessagePrefix := "bitcoind exited with code "

  /** The `exit` listener. `None`: the listener throws (an early failure whose
      standard error has no buffered data) and the promise stays pending. */
  function OnExit(code: Option<int>, elapsedMs: int, stderr: Option<string>): (s: Option<Settlement>)
    ensures s == Some(Resolved) <==> code == Some(0)
    ensures code != Some(0) && elapsedMs < GraceMs && stderr.Some? ==> s == Some(Rejected(stderr.value))
    ensures code != Some(0) && elapsedMs >= GraceMs ==> s == Some(Rejected(ExitMessagePrefix + CodeText(code)))
    ensures s.None? <==> code != Some(0) && elapsedMs < GraceMs && stderr.None?
  {
    if code != Some(0) then
      if elapsedMs < GraceMs then
        match stderr
        case None => None
        case Some(text) => Some(Rejected(text))
      else Some(Rejected(ExitMessagePrefix + CodeText(code)))
    else Some(Resolved)
  }

  /** A late failure's message carries the exit code: it reads back from the
      text after the prefix. */
  lemma LateExitMessageCarriesCode(n: int, elapsedMs: int, stderr: Option<string>)
    requires n != 0 && elapsedMs >= GraceMs
    ensures OnExit(Some(n), elapsedMs, stderr).Some?
    ensures OnExit(Some(n), elapsedMs, stderr).value.Rejected?
    ensures StartsWith(OnExit(Some(n), elapsedMs, stderr).value.message, ExitMessagePrefix)
    ensures ParseInt(OnExit(Some(n), elapsedMs, stderr).value.message[|ExitMessagePrefix|..]) == n
  {
    var m := ExitMessagePrefix + IntToString(n);
    assert m[..|ExitMessagePrefix|] == ExitMessagePrefix;
    assert m[|ExitMessagePrefix|..] == IntToString(n);
    ParseIntToString(n);
  }

  /** Settling the promise from the events in the order they arrive: each
      listener is registered with `once`, and the first settlement wins. */
  function SettleFrom(events: seq<ChildEvent>, exitHeard: bool): Option<Settlement> {
    if events == [] then None
    else
      match events[0]
      case Exit(code, elapsedMs, stderr) =>
        if exitHeard then SettleFrom(events[1..], exitHeard)
        else
          var s := OnExit(code, elapsedMs, stderr);
          if s.Some? then s else SettleFrom(events[1..], true)
      case SpawnError(message) => Some(Rejected(message))
  }

  function Settle(events: seq<ChildEvent>): Option<Settlement> {
    SettleFrom(events, false)
  }

  /** The promise settles at most once: events after the settling one change
      nothing. */
  lemma {:induction false} SettleIsFinal(events: seq<ChildEvent>, later: seq<ChildEvent>, exitHeard: bool)
    requires SettleFrom(events, exitHeard).Some?
    ensures SettleFrom(events + later, exitHeard) == SettleFrom(events, exitHeard)
  {
    assert (events + later)[0] == events[0];
    assert (events + later)[1..] == events[1..] + later;
    match events[0]
    case Exit(code, elapsedMs, stderr) =>
      if exitHeard {
        SettleIsFinal(events[1..], later, exitHeard);
      } else if OnExit(code, elapsedMs, stderr).None? {
        SettleIsFinal(events[1..], later, true);
      }
    case SpawnError(_) =>
  }

  /** Once an `exit` has been heard, a further `exit` changes nothing. */
  lemma HeardExitIgnored(x: ChildEvent, later: seq<ChildEvent>)
    requires x.Exit?
    ensures SettleFrom([x] + later, true) == SettleFrom(later, true)
  {
    assert ([x] + later)[0] == x && ([x] + later)[1..] == later;
  }

  /** Once an `exit` has been heard, the promise settles exactly when a spawn
      error follows. */
  lemma {:induction false} HeardExitSettlesOnSpawnError(events: seq<ChildEvent>)
    ensures SettleFrom(events, true).Some? <==> exists i :: 0 <= i < |events| && events[i].SpawnError?
  {
    if events != [] {
      HeardExitSettlesOnSpawnError(events[1..]);
      if events[0].Exit? && exists i :: 0 <= i < |events| && events[i].SpawnError? {
        var i :| 0 <= i < |events| && events[i].SpawnError?;
        assert events[1..][i - 1].SpawnError?;
      }
      if exists i :: 0 <= i < |events[1..]| && events[1..][i].SpawnError? {
        var i :| 0 <= i < |events[1..]| && events[1..][i].SpawnError?;
        assert events[i + 1].SpawnError?;
      }
    }
  }

  /** Once an `exit` has been heard, the first spawn error decides, with its
      own message. */
  lemma {:induction false} HeardExitFirstSpawnError(events: seq<ChildEvent>, i: nat)
    requires i < |events| && events[i].SpawnError?
    requires forall j :: 0 <= j < i ==> events[j].Exit?
    ensures SettleFrom(events, true) == Some(Rejected(events[i].message))
  {
    if i > 0 {
      assert forall j :: 0 <= j < i - 1 ==> events[1..][j] == events[j + 1];
      HeardExitFirstSpawnError(events[1..], i - 1);
    }
  }

  /** After an early exit whose listener throws, only the `error` listener is
      left: every later `exit` is ignored and the first spawn error, if any,
      decides. */
  lemma AfterThrowingExit(e: ChildEvent, later: seq<ChildEvent>)
    requires e.Exit? && OnExit(e.code, e.elapsedMs, e.stderr).None?
    ensures Settle([e] + later) == SettleFrom(later, true)
    ensures Settle([e] + later).Some? <==> exists i :: 0 <= i < |later| && later[i].SpawnError?
  {
    assert ([e] + later)[0] == e && ([e] + later)[1..] == later;
    HeardExitSettlesOnSpawnError(later);
  }

  /** The first event decides, whichever kind it is, unless it is an early exit
      whose listener throws. */
  lemma FirstEventDecides(e: ChildEvent, later: seq<ChildEvent>)
    requires e.SpawnError? || OnExit(e.code, e.elapsedMs, e.stderr).Some?
    ensures Settle([e] + later) == if e.SpawnError? then Some(Rejected(e.message)) else OnExit(e.code, e.elapsedMs, e.stderr)
  {
    assert ([e] + later)[0] == e;
  }

  // ---------------------------------------------------------------------------
  // maybeError (lines 56-64)

  /** What `maybeError` inspects: `killed`, `code`, and the value a thenable
      resolves with (`next`); `None` for an absent `then`. A `code` of `None`
      stands for `code: null`, which the message prints as `null`; a record with
      no `code` property at all, which would print `undefined`, is not modelled. */
  datatype ExitRecord = ExitRecord(killed: bool, code: Option<int>, next: Option<ExitRecord>)

  /** The record `maybeError` ends its checks on: the first killed one, or the
      first one that is not a thenable. */
  function Final(res: ExitRecord): (f: ExitRecord)
    ensures f.killed || f.next.None?
  {
    if res.killed || res.next.None? then res else Final(res.next.value)
  }

  function MaybeError(res: ExitRecord): (r: Result<(), string>)
    ensures r.Failure? <==> !Final(res).killed && Final(res).code != Some(0)
    ensures r.Failure? ==> r.error == ExitMessagePrefix + CodeText(Final(res).code)
  {
    if res.killed then Success(())
    else if res.next.Some? then MaybeError(res.next.value)
    else if res.code != Some(0) then Failure(ExitMessagePrefix + CodeText(res.code))
    else Success(())
  }

  // ---------------------------------------------------------------------------
  // waiting for the RPC interface (lines 107-123)

  const DefaultTimeoutMs := 30 * 1000
  const RetryDelayMs := 1000

  /** The abstract clock: `elapsed(k)` is `Date.now() - start` at the k-th
      timeout check. It never reads before the start, and between two checks
      lie an attempt and a sleep of `RetryDelayMs`. */
  ghost predicate ClockAdvances(elapsed: nat -> int) {
    elapsed(0) >= 0 && forall k: nat :: elapsed(k) + RetryDelayMs <= elapsed(k + 1)
  }

  lemma {:induction false} ClockLowerBound(elapsed: nat -> int, k: nat)
    requires ClockAdvances(elapsed)
    ensures elapsed(k) >= elapsed(0) + k * RetryDelayMs
  {
    if k > 0 {
      ClockLowerBound(elapsed, k - 1);
    }
  }

  datatype WaitOutcome = Ready(attempts: nat) | TimedOut(attempts: nat)

  const TimeoutMessage := "Timed out while waiting"

  /** How the promise `wait` returns ends: it resolves once the condition held,
      and rejects with `Error('Timed out while waiting')` once the deadline
      passed. */
  function WaitResult(w: WaitOutcome): (r: Result<(), string>)
    ensures r.Success? <==> w.Ready?
    ensures r.Failure? ==> r.error == TimeoutMessage
  {
    match w
    case Ready(_) => Success(())
    case TimedOut(_) => Failure(TimeoutMessage)
  }

  /** The loop of `wait`: check the deadline, try the condition (`succeeds(k)`
      is the k-th attempt's outcome; a throw and a falsy result both count as
      failure), sleep, repeat. The timeout defaults to 30000 ms. */
  method Wait(timeout: Option<int>, elapsed: nat -> int, succeeds: nat -> bool) returns (w: WaitOutcome)
    requires ClockAdvances(elapsed)
    ensures w.Ready? ==> w.attempts >= 1 && succeeds(w.attempts - 1)
    ensures w.TimedOut? ==> elapsed(w.attempts) > timeout.GetOr(DefaultTimeoutMs)
    ensures forall j :: 0 <= j < w.attempts ==> elapsed(j) <= timeout.GetOr(DefaultTimeoutMs)
    ensures forall j :: 0 <= j < w.attempts && (w.TimedOut? || j < w.attempts - 1) ==> !succeeds(j)
    ensures elapsed(0) <= timeout.GetOr(DefaultTimeoutMs) ==> w.attempts >= 1
    ensures w.attempts >= 1 ==> (w.attempts - 1) * RetryDelayMs <= timeout.GetOr(DefaultTimeoutMs) - elapsed(0)
  {
    var limit := timeout.GetOr(DefaultTimeoutMs);
    var k: nat := 0;
    while true
      invariant forall j :: 0 <= j < k ==> elapsed(j) <= limit && !succeeds(j)
      invariant k >= 1 ==> elapsed(k - 1) <= limit
      decreases limit - elapsed(k) + RetryDelayMs
    {
      if elapsed(k) > limit {
        if k >= 1 {
          ClockLowerBound(elapsed, k - 1);
        }
        return TimedOut(k);
      }
      if succeeds(k) {
        ClockLowerBound(elapsed, k);
        return Ready(k + 1);
      }
      k := k + 1;
    }
  }

  // ---------------------------------------------------------------------------
  // the handle node() returns, with its memoised `started`

  /** A readiness wait that has been started: the client it polls and the
      timeout argument it was started with. */
  datatype Readiness = Readiness(rpc: RpcConfig, timeout: Option<int>)

  class Daemon {
    const options: Options
    const args: seq<string>
    const rpc: RpcConfig
    var started: Option<Readiness>
    ghost var waitsStarted: nat

    ghost predicate Valid()
      reads this
    {
      waitsStarted == (if started.Some? then 1 else 0)
      && (started.Some? ==> started.value.rpc == rpc)
    }

    constructor (options: Options, args: seq<string>, rpc: RpcConfig)
      ensures Valid()
      ensures this.options == options && this.args == args && this.rpc == rpc
      ensures started == None
    {
      this.options := options;
      this.args := args;
      this.rpc := rpc;
      started := None;
      waitsStarted := 0;
    }

    /** `started(timeout)`: the first call starts the wait; every later call
        returns that same wait and ignores its own timeout. */
    method Started(timeout: Option<int>) returns (r: Readiness)
      requires Valid()
      modifies this`started, this`waitsStarted
      ensures Valid()
      ensures started == Some(r)
      ensures old(started).Some? ==> r == old(started).value && waitsStarted == old(waitsStarted)
      ensures old(started).None? ==> r == Readiness(rpc, timeout) && waitsStarted == 1
    {
      if started.Some? {
        return started.value;
      }
      r := Readiness(rpc, timeout);
      started := Some(r);
      waitsStarted := waitsStarted + 1;
    }
  }

  /** Two calls of `started` yield one wait, with the first call's timeout. */
  method StartedTwice(d: Daemon, first: Option<int>, second: Option<int>) returns (a: Readiness, b: Readiness)
    requires d.Valid() && d.started == None
    modifies d
    ensures a == b && a.timeout == first && d.waitsStarted == 1
  {
    a := d.Started(first);
    b := d.Started(second);
  }

  /** `node(opts)`: default the options, build the arguments (which throws on a
      key that is not lowercase) and set up the RPC client with the same
      credentials, port and network. */
  method Node(opts: Options, user: string, password: string) returns (r: Result<Daemon, string>)
    requires DistinctKeys(opts)
    ensures r.Success? <==> forall i :: 0 <= i < |opts| ==> IsLowercase(opts[i].0)
    ensures r.Failure? ==> r.error == LowercaseError
    ensures r.Success? ==> fresh(r.value) && r.value.Valid() && r.value.started == None
    ensures r.Success? ==> r.value.options == NodeOptions(opts, user, password)
    ensures r.Success? ==> Success(r.value.args) == ArgsOf(r.value.options)
    ensures r.Success? ==> r.value.rpc == RpcConfigOf(r.value.options)
  {
    var o := Assign(Defaults(user, password), opts);
    if Get(o, "rpcport").None? && Truthy(Get(o, "regtest")) {
      o := Put(o, "rpcport", Num(RegtestRpcPort));
    }
    assert o == NodeOptions(opts, user, password);
    var args := ToArgs(o);
    if args.Failure? {
      if forall i :: 0 <= i < |opts| ==> IsLowercase(opts[i].0) {
        LowercaseOptionsLaunch(opts, user, password);
      }
      return Failure(args.error);
    }
    if i :| 0 <= i < |opts| && !IsLowercase(opts[i].0) {
      UppercaseOptionFailsLaunch(opts, user, password, i);
    }
    var network := Mainnet;
    if Truthy(Get(o, "testnet")) {
      network := Testnet;
    }
    if Truthy(Get(o, "regtest")) {
      network := Regtest;
    }
    var rpc := RpcConfig(Get(o, "rpcuser"), Get(o, "rpcpassword"), Get(o, "rpcport"), network);
    var d := new Daemon(o, args.value, rpc);
    return Success(d);
  }
}
