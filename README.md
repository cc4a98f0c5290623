# node-bitcoind core, modelled in Dafny

node-bitcoind fetches a Bitcoin Core release and supervises a `bitcoind` child
process. This project models the decision logic of that package and proves
properties of it:

- **Artifact selection and integrity** (`bin/download.js`): the release archive
  name for a platform, architecture and version triple; the tar filter that keeps
  only the daemon binary; the lookup of the expected SHA-256 digest in the
  `SHA256SUMS.asc` manifest; the accept/reject decision; and the script's overall
  flow from the cache probe to installation (`Download.Acquire`).
- **Launch and supervision** (`src/index.js`): the option defaulting in `node`;
  the regtest RPC port; the network choice; how the child's `exit` and `error`
  events settle the process promise; `maybeError`; the memoised `started`
  accessor (the class `Launch.Daemon`); and the `wait` retry loop
  (`Launch.Wait`). The loop runs over an abstract clock and an abstract sequence
  of attempt outcomes.
- **Flag serialisation** (`src/flags.js`): an ordered options object becomes
  `-key=value` arguments (`Flags.ToArgs`). The loop is proved against a
  recursive reference definition, `Flags.ArgsOf`.

The modules are `Wrappers` (Option, Result), `JsStrings`, `Download`, `Flags`
and `Launch`. `JsStrings` holds the JavaScript built-ins the code relies on:
`split('\n')`, `split(/\s+/)`, `endsWith`, `toLowerCase`, and `toString` on
integers. It also defines a prefix test, `StartsWith`, which only the contracts
use. An options object is the sequence of entries that
`Object.entries` yields. `undefined` is `None`. An `Error` the code builds
and throws is a `Failure` that carries its message; the promise rejections are
`Rejected` settlements with their messages, and `wait`'s timeout maps to the
`Timed out while waiting` message through `Launch.WaitResult`. The filesystem
error that the cache probe rethrows is `FsFailure`, which keeps only the error's
`code`.

The manifest lookup follows the code. A line qualifies when its first field is
64 characters long; the field is never checked for being hexadecimal. A line
with only one field has `undefined` as its filename, and `endsWith(undefined)`
tests for the text "undefined". A 64-character field followed only by
whitespace leaves the filename empty, and the empty string ends every name, so
such a line matches every archive (`Download.EmptyFilenameMatchesAnyArchive`).

## Model

| member | source | states |
|---|---|---|
| `Download.Supported` | bin/download.js:135-150 | The supported matrix: darwin with any arch, and linux with x32, x64, arm or arm64. `GetArchiveFilename` succeeds exactly on it. |
| `Download.LocateMessage` | bin/download.js:132-163 | The two thrown messages, `Arch "<arch>" not supported` and `Platform "<platform>" is not supported`. `GetArchiveFilename` states which error each unsupported pair gets, and `Acquire` fails with its message. |
| `Download.GetArchiveFilename` | bin/download.js:126-164 | Succeeds exactly on darwin (any arch) and on linux with x32/x64/arm/arm64. Gives the name `bitcoin-<version>-` plus osx64.tar.gz, i686-pc-linux-gnu.tar.gz, x86_64-linux-gnu.tar.gz, arm-linux-gnueabihf.tar.gz or aarch64-linux-gnu.tar.gz. Any other linux arch fails with UnsupportedArch; any other platform fails with UnsupportedPlatform; an unsupported pair never yields a name. Every name starts with `bitcoin-<version>-`. |
| `Download.WithPrefix` | bin/download.js:127-129 | The result starts with `bitcoin-<version>-`, ends with the given platform filename, and is exactly as long as the two together, so it is their concatenation with nothing between them. |
| `Download.ArchiveNameDeterminesVersion` | bin/download.js:127-147 | For a supported pair, the version can be read back from the archive name, so different versions never share an archive name. |
| `Download.ArchiveNameOf` | bin/download.js:135-147 | On a supported pair the archive name is `bitcoin-<version>-` followed by the pair's platform filename. |
| `Download.VersionOfName` | bin/download.js:127-129 | Cutting the `bitcoin-` prefix and the platform filename off such a name leaves exactly the version. |
| `Download.ExtractFilterAcceptsOnlyBinary` | bin/download.js:75-77 | The filter accepts `bitcoin-<version>/bin/bitcoind`, accepts no other path, and rejects the binary path of any other version. |
| `Download.ExtractFilter` | bin/download.js:75-77 | The filter predicate itself. `ExtractFilterAcceptsOnlyBinary` states what it accepts. |
| `Download.ShasumField` | bin/download.js:100 | The first field of the line's `split(/\s+/)`; `SplitSpacesTwoFields` gives it for a manifest-shaped line. |
| `Download.FilenameField` | bin/download.js:100 | The second field, or the text "undefined" when the line has only one field. |
| `Download.MatchesArchive` | bin/download.js:101-102 | The test a line passes: a 64-character first field and an archive name that ends with the second field. `EntryLineMatches` and `EmptyFilenameMatchesAnyArchive` state its consequences. |
| `Download.EntryLines` | bin/download.js:99 | `split('\n').slice(3)`: the lines after the three-line preamble. `PreambleIgnored` states that the preamble never matters. |
| `Download.FirstMatch` | bin/download.js:99-105 | Reference definition of the lookup: the digest of the first matching line. Any digest it returns has 64 characters. |
| `Download.FindExpectedHash` | bin/download.js:97-106 | The loop with `continue`/`break` equals `FirstMatch` over the lines after the 3-line preamble. If it finds a digest, that digest is the first field of a matching line and no earlier line matches. If it finds none, no line after the preamble matches. |
| `Download.FirstMatchStep` | bin/download.js:99-105 | One turn of the loop: a matching line decides the lookup, and any other line hands it on to the rest of the lines. |
| `Download.PreambleIgnored` | bin/download.js:99 | Manifests that agree from line 4 on give the same expected digest; the first three lines are never read. |
| `Download.FirstMatchIgnoresLaterLines` | bin/download.js:102-105 | Once a line has matched, appending more lines does not change the result; the loop breaks at the first match. |
| `Download.FirstMatchAt` | bin/download.js:99-105 | If line i matches and no earlier line does, the result is the digest of line i. |
| `Download.EntryLineMatches` | bin/download.js:100-103 | A line of the form `<64-char digest><whitespace><name>` pins that digest for every archive whose name ends with `name`. |
| `Download.EmptyFilenameMatchesAnyArchive` | bin/download.js:100-102 | A 64-character field followed by one space matches every archive name. |
| `Download.HashAccepted` | bin/download.js:108-111 | Verification passes exactly when an expected digest exists and equals the computed one. An undefined expected digest always fails. |
| `Download.OnlyOneDigestAccepted` | bin/download.js:108-111 | For a given expectation, no second, different digest is accepted. |
| `Download.CacheProbe` | bin/download.js:29-36 | The cache `try` block succeeds exactly when `accessSync` and `copyFileSync` both succeed. A failing `accessSync` is the error that is reported, and the copy is then never attempted. Once `accessSync` succeeds, the outcome is the outcome of `copyFileSync`. |
| `Download.Acquire` | bin/download.js:29-111 | Cache hit exactly when both `accessSync` and `copyFileSync` succeed. A cache error other than ENOENT is rethrown with its code. An unsupported platform fails with the locator's message. The binary is installed exactly when the cache missed with ENOENT, the pair is supported, and the manifest's first match for the archive equals the computed digest; otherwise the result is IntegrityMismatch (exit 1). |
| `JsStrings.IsSpace` | bin/download.js:100 | The `\s` class: the characters in `SpaceRanges`, which lists ECMAScript's WhiteSpace and LineTerminator characters. `SpaceAscii` states its ASCII part. |
| `JsStrings.SpaceAscii` | bin/download.js:100 | An ASCII character is in `\s` exactly when it is the space, tab, line feed, line tabulation, form feed or carriage return. |
| `JsStrings.Split` | bin/download.js:99 | `split('\n')` gives at least one piece, no piece contains the separator, and joining the pieces gives back the input. |
| `JsStrings.SplitSpaces` | bin/download.js:100 | `split(/\s+/)` gives at least one field, no field contains `\s` whitespace, and only the first and last fields can be empty. `SplitSpacesWeave` ties the fields back to the input. |
| `JsStrings.Gaps` | bin/download.js:100 | The runs of whitespace that `split(/\s+/)` consumes, each non-empty and made only of `\s` characters. |
| `JsStrings.SplitSpacesWeave` | bin/download.js:100 | There is exactly one consumed run between each two fields, and putting the fields back together with those runs between them gives back the input. |
| `JsStrings.SplitSpacesTwoFields` | bin/download.js:100 | `a + whitespace + b`, with `a` and `b` free of whitespace and `b` non-empty, splits into exactly `[a, b]`. |
| `JsStrings.EndsWith` | bin/download.js:102 | `endsWith`: the last `|suffix|` characters are the suffix. `EntryLineMatches` and `EmptyFilenameMatchesAnyArchive` use it. |
| `JsStrings.ToLower` | src/flags.js:6 | `toLowerCase` keeps the length, leaves every character that is not an ASCII capital as it is, and leaves no ASCII capital. |
| `JsStrings.ToLowerIdempotent` | src/flags.js:6 | Lowercasing an already lowercased string changes nothing. |
| `JsStrings.LowerUnchangedIff` | src/flags.js:6 | `toLowerCase(key) === key` holds exactly when the key has no upper-case letter. |
| `JsStrings.IntToString` | src/flags.js:16 | `toString` on an integer. `IntToStringCanonical` and `CanonicalDecimalUnique` state what text it gives. |
| `JsStrings.NatToString` | src/flags.js:16 | The digits of a non-negative integer: at least one, decimal digits only, and no leading zero. |
| `JsStrings.IntToStringCanonical` | src/flags.js:16 | `toString` on an integer gives its canonical decimal text: a `-` exactly when the number is negative, then digits only, with no leading zero, whose value is the magnitude. |
| `JsStrings.CanonicalDecimalUnique` | src/flags.js:16 | The canonical decimal text of an integer is unique: any text in that form for `n` is `IntToString(n)`. |
| `JsStrings.DigitsUnique` | src/flags.js:16 | Two digit strings without leading zeros that have the same value are equal. |
| `JsStrings.ParseIntToString` | src/flags.js:16 | The decimal text of an integer reads back as the same integer. |
| `Flags.IsLowercase` | src/flags.js:6 | The key test `key.toLowerCase() === key`. `LowerUnchangedIff` states that it holds exactly when the key has no upper-case letter, and `ArgsOfSpec` that the call fails exactly when some key fails it. |
| `Flags.ToJsString` | src/flags.js:16 | `value.toString()`: a boolean as `true`/`false`, a number as its decimal text, a string as itself. `ToArgs` applies it after turning `true`/`false` into 1/0, and its ensures equate the result with `FormatArg`, which uses `Rendered`. |
| `Flags.Rendered` | src/flags.js:10-16 | `true` renders as `1` and `false` as `0`. A number renders as its `toString` text, and a string as itself. `RenderedNumber` states what the number's text is. |
| `Flags.RenderedNumber` | src/flags.js:10-16 | A number renders as its canonical decimal text: a `-` exactly when it is negative, then digits only, with no leading zero. That text reads back as the number, and it is the only text of that form for the number. |
| `Flags.BadKeyIndex` | src/flags.js:5-8 | The position where the loop throws: every earlier key is lowercase, and the key there (if any) is not. |
| `Flags.FormatArg` | src/flags.js:16 | One argument, `-<key>=<rendered value>`. `ParseFormatArg` gives back the key and the rendered value. |
| `Flags.ArgsOf` | src/flags.js:3-20 | The recursive reference definition the loop is proved against. `ArgsOfSpec`, `UppercaseKeyFails` and `ArgsOfAppend` state its properties. |
| `Flags.ToArgs` | src/flags.js:3-20 | The loop equals `ArgsOf`. It fails with "Options must be lowercase" exactly when some key is not lowercase, and then returns no arguments. `ArgsOfSpec` gives the successful result: one argument per entry, in entry order, each exactly `-` + key + `=` + the rendered value. |
| `Flags.ArgsOfSpec` | src/flags.js:3-20 | The same properties, proved of the reference definition. With no entries, the result is the empty list. |
| `Flags.UppercaseKeyFails` | src/flags.js:6-8 | A key with an upper-case letter anywhere fails the whole call. |
| `Flags.ArgsOfAppend` | src/flags.js:5-17 | Serialising concatenated options gives the concatenation of their arguments, so the order is preserved. |
| `Flags.ParseFormatArg` | src/flags.js:16 | If the key contains no `=`, an argument splits back into its key and its rendered value. |
| `Flags.DocExample` | src/flags.js:2 | `{ foo: 123, barbaz: true }` gives `['-foo=123', '-barbaz=1']`. |
| `Launch.Get` | src/index.js:73 | Property lookup, with `None` as `undefined`. `GetSpec` states what it returns. |
| `Launch.GetSpec` | src/index.js:73 | A property is undefined exactly when its key is absent; otherwise it holds the value of an entry with that key. |
| `Launch.Put` | src/index.js:74 | Property assignment. `PutGet`, `PutKeys` and `PutDistinct` state its effect. |
| `Launch.PutGet` | src/index.js:74 | Assigning a property defines it and leaves every other property as it was. |
| `Launch.PutKeys` | src/index.js:74 | An existing key keeps its place, and a new key is appended. |
| `Launch.PutDistinct` | src/index.js:74 | Assigning a property never duplicates a key. |
| `Launch.Assign` | src/index.js:67-71 | `Object.assign`, as property assignments in the source's entry order. `AssignGet`, `AssignKeepsTargetKeys` and `AssignDistinct` state its effect. |
| `Launch.AssignGet` | src/index.js:67-71 | `Object.assign`: the source's values win, and every other key keeps the target's value. |
| `Launch.AssignKeepsTargetKeys` | src/index.js:67-71 | `Object.assign` keeps the target's keys in their places at the front. |
| `Launch.AssignDistinct` | src/index.js:67-71 | `Object.assign` never duplicates a key. |
| `Launch.Defaults` | src/index.js:67-71 | The defaults object: `server: true` and the two generated credentials. `DefaultsGet` states what it holds and in which order. |
| `Launch.DefaultsGet` | src/index.js:67-71 | The defaults are `server: true` and the two generated credentials, in that order. |
| `Launch.MergedSpec` | src/index.js:67-71 | The caller's options over the defaults: the defaults' keys come first, a caller's value wins, and keys stay distinct. |
| `Launch.Truthy` | src/index.js:73-81 | JavaScript truthiness: `undefined`, `false`, `0` and `""` are falsy and every other value is truthy. `RegtestPortSpec` and `NetworkOf` state where it decides. |
| `Launch.WithRegtestPort` | src/index.js:73-75 | The regtest port default. `RegtestPortSpec` states its effect. |
| `Launch.RegtestPortSpec` | src/index.js:73-75 | `rpcport` becomes 18332 only when it is undefined and `regtest` is truthy; no other property changes. |
| `Launch.NodeOptions` | src/index.js:67-75 | The defaulted options `node` launches with. `NodeOptionsSpec` and `NodeOptionKeys` state what they hold. |
| `Launch.NodeOptionsSpec` | src/index.js:66-75 | After defaulting, `server`, `rpcuser` and `rpcpassword` are present and lead the key order, and a caller's value for any of them is kept. `rpcport` is 18332 exactly when the caller gave none and `regtest` is truthy; otherwise it is the caller's value. Every other key passes through unchanged. |
| `Launch.NodeOptionKeys` | src/index.js:67-75 | The launch keys are exactly the caller's keys, the three defaults, and `rpcport` when `regtest` is truthy. |
| `Launch.NetworkOf` | src/index.js:79-81 | The network is regtest if `regtest` is truthy, else testnet if `testnet` is truthy, else mainnet. |
| `Launch.RpcConfigOf` | src/index.js:83-89 | The RPC client's user, password and port are the launch options' `rpcuser`, `rpcpassword` and `rpcport`, and its network is `NetworkOf`. `LaunchArgsCarryCredentials` ties it to the arguments. |
| `Launch.UppercaseOptionFailsLaunch` | src/index.js:77 | A caller's key that is not lowercase makes `node` throw, because the flag transform fails. |
| `Launch.LowercaseOptionsLaunch` | src/index.js:77 | If all of the caller's keys are lowercase, the launch arguments are built. |
| `Launch.LaunchArgsCarryCredentials` | src/index.js:77-89 | The daemon's arguments contain `-rpcuser=` and `-rpcpassword=` with the same values the RPC client is given. |
| `Launch.Node` | src/index.js:66-99 | `node` succeeds exactly when all of the caller's keys are lowercase. It yields a fresh handle with no wait started. The handle holds the defaulted options, exactly their flag arguments, and an RPC config with the same user, password, port and selected network. |
| `Launch.CodeText` | src/index.js:43 | `${code}`: the code's decimal text, or `null` when there is none. `OnExit` and `MaybeError` put it after `bitcoind exited with code `. |
| `Launch.OnExit` | src/index.js:36-48 | Exit code 0 resolves, and only code 0 does. A non-zero or null code before 1000 ms rejects with the buffered stderr. When no stderr is buffered, the listener settles nothing (see "Left out" for the exception it raises). At 1000 ms or later the rejection is `bitcoind exited with code <code>`. |
| `Launch.LateExitMessageCarriesCode` | src/index.js:43 | A late failure's message starts with `bitcoind exited with code `, and the text after it reads back as the exit code. |
| `Launch.SettleFrom` | src/index.js:35-50 | The settlement from the events in order: a spawn `error` always settles; only the first `exit` is heard, and it settles unless its listener throws. `SettleIsFinal` states that the first settlement is final, and `AfterThrowingExit` with the `HeardExit` lemmas that later exits are ignored. |
| `Launch.Settle` | src/index.js:35-50 | The settlement of the process promise, starting with no event heard. `FirstEventDecides` states the role of the first event. |
| `Launch.SettleIsFinal` | src/index.js:35-50 | The promise settles at most once; events after the settling one change nothing. |
| `Launch.FirstEventDecides` | src/index.js:36-49 | A spawn `error` event as the first event rejects with its message. An exit as the first event settles as `OnExit` says, unless its listener throws. |
| `Launch.HeardExitIgnored` | src/index.js:36 | Once an `exit` has been heard, a further `exit` event changes nothing, because the listener was registered with `once`. |
| `Launch.HeardExitSettlesOnSpawnError` | src/index.js:36-49 | Once an `exit` has been heard, the promise settles exactly when some later event is a spawn `error`. |
| `Launch.HeardExitFirstSpawnError` | src/index.js:36-49 | Once an `exit` has been heard, the first later spawn `error` rejects the promise with its own message, whatever exits come before it. |
| `Launch.AfterThrowingExit` | src/index.js:36-49 | After an early exit whose listener throws, the outcome is that of the later events with the exit already heard. It settles exactly when a spawn `error` follows. |
| `Launch.Final` | src/index.js:57-60 | The chain of thenables ends at a killed record or at one without `then`. |
| `Launch.MaybeError` | src/index.js:56-64 | It throws exactly when the final record is not killed and its code is not 0. The message is `bitcoind exited with code <code>`. A killed result returns without error. |
| `Launch.ClockLowerBound` | src/index.js:111-120 | After k sleeps, the elapsed time is at least k × 1000 ms more than at the first check. |
| `Launch.Wait` | src/index.js:107-123 | `Ready(n)`: attempt n succeeded, every earlier attempt failed, and every check so far was within the timeout. `TimedOut(n)`: the elapsed time strictly exceeded the timeout at check n, and every attempt before it failed. An attempt is made whenever the first check is within the timeout. Attempts are bounded: (n − 1) × 1000 ≤ timeout − first elapsed time. The timeout defaults to 30000 ms. |
| `Launch.WaitResult` | src/index.js:112-114 | `wait`'s promise resolves exactly on `Ready`, and a timeout rejects it with the message `Timed out while waiting`. |
| `Launch.Daemon.constructor` | src/index.js:91-98 | A new handle holds its options, arguments and RPC config, with no wait started. |
| `Launch.Daemon.Started` | src/index.js:91-98 | The first call starts one wait with its own timeout. Every later call returns that same wait, starts no other, and ignores its own timeout. |
| `Launch.StartedTwice` | src/index.js:94-97 | Two calls return the same wait, with the first call's timeout, and start exactly one wait. |

## Left out

- The SHA-256 computation: the digest of the downloaded stream is an opaque string input to `Download.Acquire`.
- The WebTorrent transport, selecting the archive among the torrent's files, gunzip and tar streaming, and the progress bar (network and stream libraries, and floating point). Only the tar filter predicate is modelled.
- Filesystem effects. Reading the version and manifest files, `mkdirp`, `renameSync`, `rimraf` and the copy into the cache are not modelled; the cache probe's `accessSync` and `copyFileSync` appear only as success or error outcomes.
- `bin/update.js` is not part of this model: it only downloads files over HTTP and runs `npm`.
- Child-process spawning, the parent's `exit` hook that kills the child, the 4000 ms stream resume, and log piping (process and concurrency plumbing). The child's `exit` and `error` events are inputs to `Launch.Settle`.
- `randomBytes` credentials: the user name and password are arbitrary string parameters.
- The `bitcoin-core` RPC client and `getNetworkInfo`: each attempt's outcome is an input to `Launch.Wait`.
- Real time (`Date.now`, `setTimeout`): the clock is an input function of the check number.
- `Launch.Wait`: requires the clock to advance at least 1000 ms between checks, because each iteration sleeps 1000 ms. Without that assumption the loop need not end.
- The `then`/`catch` overlay that makes the child handle a thenable. In `Launch.MaybeError` a thenable is followed synchronously to the value it resolves with.
- Option values other than booleans, integers and strings (`null`, `undefined`, objects, fractional numbers). Numbers are integers rendered in decimal; JavaScript switches to exponent notation at 10^21 and loses precision above 2^53.
- The ordering rule of `Object.entries` for integer-like keys (those come first, in ascending order): this model lists entries in insertion order only.
- `Flags.ToArgs`: lowercasing is modelled on ASCII letters only, so a key whose only upper-case letters are non-ASCII is accepted here, though JavaScript rejects it.
- String lengths count Unicode code points, not UTF-16 code units, which matters for `shasum.length` only on characters outside the Basic Multilingual Plane.
- The `TypeError` that `null.toString()` raises inside the `exit` listener when the child dies within 1000 ms with nothing buffered on stderr (src/index.js:40). It escapes the listener as an uncaught exception, which by default ends the supervising process. The model only records that the promise is not settled by that exit.
- The source does not stop a readiness wait when the child exits, so neither does this model; the two run independently.
