/** src/flags.js: turning an ordered options object into daemon command-line
    arguments `-<key>=<value>`. */
module Flags {
  import opened Wrappers
  import opened JsStrings

  /** The option values the daemon is configured with: booleans, integer
      numbers and strings. */
  datatype Value = Bool(b: bool) | Num(n: int) | Str(s: string)

  /** An options object as `Object.entries` lists it: key/value pairs in
      iteration order. */
  type Options = seq<(string, Value)>

  /** `value.toString()` in JavaScript. */
  function ToJsString(v: Value): string {
    match v
    case Bool(b) => if b then "true" else "false"
    case Num(n) => IntToString(n)
    case Str(s) => s
  }

  /** How a value appears on the command line: booleans as `1`/`0`, everything
      else in its string form. */
  function Rendered(v: Value): (r: string)
    ensures v == Bool(true) ==> r == "1"
    ensures v == Bool(false) ==> r == "0"
    ensures v.Num? ==> r == IntToString(v.n)
    ensures v.Str? ==> r == v.s
  {
    match v
    case Bool(b) => if b then "1" else "0"
    case Num(n) => IntToString(n)
    case Str(s) => s
  }

  /** A number is rendered as its canonical decimal text, the only text of
      that form for it, and so it reads back as the same number. */
  lemma RenderedNumber(n: int, s: string)
    ensures CanonicalDecimal(Rendered(Num(n)), n) && ParseInt(Rendered(Num(n))) == n
    ensures CanonicalDecimal(s, n) ==> s == Rendered(Num(n))
  {
    IntToStringCanonical(n);
    ParseIntToString(n);
    if CanonicalDecimal(s, n) {
      CanonicalDecimalUnique(s, n);
    }
  }

  function FormatArg(key: string, v: Value): string {
    "-" + key + "=" + Rendered(v)
  }

  predicate IsLowercase(key: string) {
    ToLower(key) == key
  }

  const LowercaseError := "Options must be lowercase"

  /** Reference definition of the transform: every key lowercase, one argument
      per entry in order; otherwise the call fails. */
  function ArgsOf(opts: Options): Result<seq<string>, string> {
    if opts == [] then Success([])
    else
      var rest := ArgsOf(opts[1..]);
      if !IsLowercase(opts[0].0) || rest.Failure? then Failure(LowercaseError)
      else Success([FormatArg(opts[0].0, opts[0].1)] + rest.value)
  }

  /** The position of the first key that is not lowercase, or `|opts|`. */
  function BadKeyIndex(opts: Options): (i: nat)
    ensures i <= |opts|
    ensures forall j :: 0 <= j < i ==> IsLowercase(opts[j].0)
    ensures i < |opts| ==> !IsLowercase(opts[i].0)
  {
    if opts == [] || !IsLowercase(opts[0].0) then 0 else 1 + BadKeyIndex(opts[1..])
  }

  /** The exported function of src/flags.js: the loop over `Object.entries`
      with the boolean replacement of `value` and the push of each argument. */
  method ToArgs(opts: Options) returns (r: Result<seq<string>, string>)
    ensures r == ArgsOf(opts)
    ensures r.Failure? <==> BadKeyIndex(opts) < |opts|
    ensures r.Failure? ==> r.error == LowercaseError
    ensures r.Success? ==> |r.value| == |opts|
    ensures r.Success? ==> forall i :: 0 <= i < |opts| ==> r.value[i] == FormatArg(opts[i].0, opts[i].1)
  {
    var args: seq<string> := [];
    var i := 0;
    while i < |opts|
      invariant 0 <= i <= |opts|
      invariant forall j :: 0 <= j < i ==> IsLowercase(opts[j].0)
      invariant |args| == i
      invariant forall j :: 0 <= j < i ==> args[j] == FormatArg(opts[j].0, opts[j].1)
    {
      var (key, value) := opts[i];
      if ToLower(key) != key {
        ArgsOfSpec(opts);
        return Failure(LowercaseError);
      }
      if value == Bool(true) {
        value := Num(1);
      } else if value == Bool(false) {
        value := Num(0);
      }
      var arg := "-" + key + "=" + ToJsString(value);
      args := args + [arg];
      i := i + 1;
    }
    ArgsOfSpec(opts);
    assert args == ArgsOf(opts).value;
    return Success(args);
  }

  /** What the reference definition promises: failure exactly when a key is
      not lowercase, and otherwise one formatted argument per entry, in order. */
  lemma {:induction false} ArgsOfSpec(opts: Options)
    ensures ArgsOf(opts).Failure? <==> exists i :: 0 <= i < |opts| && !IsLowercase(opts[i].0)
    ensures ArgsOf(opts).Failure? ==> ArgsOf(opts).error == LowercaseError
    ensures ArgsOf(opts).Success? ==> |ArgsOf(opts).value| == |opts|
    ensures ArgsOf(opts).Success? ==>
      forall i :: 0 <= i < |opts| ==> ArgsOf(opts).value[i] == FormatArg(opts[i].0, opts[i].1)
  {
    if opts != [] {
      ArgsOfSpec(opts[1..]);
      if IsLowercase(opts[0].0) && (exists i :: 0 <= i < |opts| && !IsLowercase(opts[i].0)) {
        var i :| 0 <= i < |opts| && !IsLowercase(opts[i].0);
        assert !IsLowercase(opts[1..][i - 1].0);
      }
    }
  }

  /** A key with an upper-case ASCII letter anywhere makes the whole call fail. */
  lemma UppercaseKeyFails(opts: Options, i: nat)
    requires i < |opts| && HasUpper(opts[i].0)
    ensures ArgsOf(opts) == Failure(LowercaseError)
  {
    LowerUnchangedIff(opts[i].0);
    ArgsOfSpec(opts);
  }

  /** The order of the arguments is the order of the entries: serialising a
      concatenation concatenates the serialisations. */
  lemma {:induction false} ArgsOfAppend(a: Options, b: Options)
    requires ArgsOf(a).Success? && ArgsOf(b).Success?
    ensures ArgsOf(a + b) == Success(ArgsOf(a).value + ArgsOf(b).value)
  {
    if a == [] {
      assert a + b == b;
      assert ArgsOf(a).value + ArgsOf(b).value == ArgsOf(b).value;
    } else {
      assert (a + b)[0] == a[0];
      assert (a + b)[1..] == a[1..] + b;
      ArgsOfAppend(a[1..], b);
      var h := FormatArg(a[0].0, a[0].1);
      Assoc(h, ArgsOf(a[1..]).value, ArgsOf(b).value);
    }
  }

  /** Re-brackets one argument in front of two lists; kept apart so the step
      above is not proved in the context of `ArgsOf`. */
  lemma Assoc(h: string, u: seq<string>, w: seq<string>)
    ensures [h] + (u + w) == ([h] + u) + w
  {
  }

  /** `-<key>=<value>` splits back into its key and rendered value when the key
      has no `=`. */
  function ParseArg(arg: string): Option<(string, string)> {
    if arg == [] || arg[0] != '-' then None
    else
      var body := arg[1..];
      var k := IndexOf(body, '=');
      if k == |body| then None else Some((body[..k], body[k + 1..]))
  }

  lemma ParseFormatArg(key: string, v: Value)
    requires '=' !in key
    ensures ParseArg(FormatArg(key, v)) == Some((key, Rendered(v)))
  {
    ParseArgOf(key, Rendered(v));
  }

  lemma ParseArgOf(key: string, value: string)
    requires '=' !in key
    ensures ParseArg("-" + key + "=" + value) == Some((key, value))
  {
    var tail := "=" + value;
    var body := key + tail;
    var arg := "-" + key + "=" + value;
    assert arg == "-" + body;
    assert arg[1..] == body;
    IndexOfPrefix(key, '=', tail);
    assert body[..|key|] == key;
    assert body[|key| + 1..] == value;
  }

  lemma {:induction false} IndexOfPrefix(a: string, sep: char, rest: string)
    requires sep !in a && rest != [] && rest[0] == sep
    ensures IndexOf(a + rest, sep) == |a|
  {
    if a != [] {
      assert (a + rest)[1..] == a[1..] + rest;
      IndexOfPrefix(a[1..], sep, rest);
    }
  }

  /** The example in the module's doc comment. */
  lemma DocExample()
    ensures ArgsOf([("foo", Num(123)), ("barbaz", Bool(true))]) == Success(["-foo=123", "-barbaz=1"])
  {
    assert NatToString(123) == "123" by {
      assert NatToString(12) == "12" by { assert NatToString(1) == "1"; }
    }
    var tail: Options := [("barbaz", Bool(true))];
    assert IsLowercase(tail[0].0);
    assert tail[1..] == [];
    assert ArgsOf(tail[1..]) == Success([]);
    assert ArgsOf(tail) == Success([FormatArg("barbaz", Bool(true))] + []);
    assert FormatArg("barbaz", Bool(true)) == "-barbaz=1";
    assert [FormatArg("barbaz", Bool(true))] + [] == ["-barbaz=1"];
    var opts: Options := [("foo", Num(123))] + tail;
    assert IsLowercase(opts[0].0);
    assert opts[1..] == tail;
    assert ArgsOf(opts) == Success([FormatArg("foo", Num(123))] + ["-barbaz=1"]);
    assert FormatArg("foo", Num(123)) == "-foo=123";
    assert [FormatArg("foo", Num(123))] + ["-barbaz=1"] == ["-foo=123", "-barbaz=1"];
    assert opts == [("foo", Num(123)), ("barbaz", Bool(true))];
  }
}
