# zscaler decision logic in Dafny

A verified model of the sequential decision logic of zscaler, an autoscaler
that samples a metric (a *probe*), compares it with two thresholds, and asks
a *scaler* to add or remove containers of a service.

The model covers:

- **Threshold decoding** (`Rule.Decode`): the string `">0.75"` becomes a
  predicate over the reading. The closure is represented by the datatype
  `Rule.Pred`. `Never` stands for the always-false closure of the error path.
  `NilFunc` stands for the nil function returned when the number does not parse.
  The syntax check models the regular expression character by character.
  Its operator class `[>|<|==|!=]` matches ONE character out of `> | < = !`,
  so `==` and `!=` are rejected by the syntax check.
  `=`, `!` and `|` followed by a number with at least one digit pass the
  syntax check, reach no switch case, and give the error result. Any
  operator character followed by a number with no digit (`""` or `"."`)
  gives a nil closure and a nil error before the switch.
- **The FloatValue rule** (`Rule.Check`): one probe reading, two predicates,
  at most one scaler call, and a nil return on every path that does not panic.
  Reading a nil probe, or calling a nil closure (from the decoder's nil
  result), panics in Go; the model keeps only whether the rule's probe is
  set, and records either panic as the `Panicked` outcome.
- **The Watcher loop** (`Rule.Watch`): a function over a finite trace of the
  outcomes of successive checks: the error value returned, or a panic. An
  unrecovered panic in the watcher's goroutine ends the process, so the model
  stops there with nothing sent. Sleeping is kept only as the list of
  requested intervals.
- **The scalers** (module `Scaler`): the mock scaler, and the docker-compose
  scaler as a transition function on its replica counter. The exit status
  of the `docker-compose` command is an input. The command line it would run
  is part of the result.
- **Configuration checks** (module `Config`): splitting a probe reference on
  `.`, dispatching on its first piece, and the required-field checks of the
  HAProxy and Prometheus probes and of each scaler entry. A configuration
  section is a `map<string, string>` where a missing key reads as `""`, as
  `GetString` does.

Helper modules: `Wrappers` (Option/Result), `Strconv` (decimal digits,
`strconv.Itoa` and its inverse, the decimal literal of the decoder), and
`Strings` (`strings.Split` on `.` and its inverse join).

core/rule/rule.go:46 marks `FloatValue.Check` "TODO proper error handling".
`Probe.Value()` returns only a number (rule.go:48), and a failing scaler
call is logged and swallowed, so `Check` returns nil on every path that does
not panic. `Rule.WatchFloatValue` states the consequence: a Watcher over a
FloatValue rule whose probe is set and whose two closures are non-nil never
reports anything.
A rule whose closure is nil (an order such as `">"`, whose number group has no
digit, decodes to a nil closure with a nil error) panics on its first check;
`Rule.WatchNilClosure` states that the Watcher then stops after one check
with nothing sent. The same holds for a nil probe, which cmd/config.go
accepts without an error for an invalid `hap` or `prom` reference
(`Rule.WatchNilProbe`, `Config.AcceptedNilProbePanics`).

## Model

| member | source | states |
|---|---|---|
| `Strconv.ItoaRoundTrip` | core/scaler/scaler.go:62 | the count written into the scale argument by `strconv.Itoa` reads back as the same integer, negative values included |
| `Strconv.ParseDecimal` | core/rule/rule.go:91-94 | parsing the captured number fails exactly when it contains no digit (`""` or `"."`); otherwise the value is non-negative and equals the literal's digits, read as one integer without the `.`, divided by ten to the number of fractional digits |
| `Strconv.TrailingZeroFraction` | core/rule/rule.go:91 | for a literal `ip.fp` with at least one digit, appending a zero to the fractional digits gives the same parse result (`0.75` and `0.750` are the same threshold) |
| `Strconv.ParseDecimalExample` | core/rule/rule.go:91 | the literal `0.75` is a valid number group and parses to exactly 3/4 |
| `Strings.Split` | cmd/config.go:162 | `strings.Split(ref, ".")` yields one more piece than there are dots; no piece contains a dot; joining the pieces with `.` gives back the reference |
| `Strings.SplitSingle` | cmd/config.go:162-165 | a reference splits into fewer than two pieces exactly when it contains no `.` |
| `Strings.SplitJoin` | cmd/config.go:162 | splitting the dot-join of dot-free pieces recovers exactly those pieces, so Split and Join are inverse |
| `Scaler.NewComposeScaler` | core/scaler/scaler.go:38-46 | a new compose scaler keeps the given service name and config path and assumes 3 running containers, which is at least one |
| `Scaler.ComposeUp` | core/scaler/scaler.go:61-71 | Up always runs `docker-compose -f <config> scale <service>=<n+1>`, where the count is written in the canonical decimal of `strconv.Itoa` and reads back as n+1; on success the count becomes n+1 and nil is returned; on failure the count is unchanged and the command's error is returned |
| `Scaler.ComposeDown` | core/scaler/scaler.go:74-88 | below two containers Down runs nothing, keeps the count and returns nil; otherwise it runs the scale command for n-1, written in the canonical decimal of `strconv.Itoa`, and the count becomes n-1 on success only, with the error returned on failure |
| `Scaler.ScalerUp` | core/scaler/scaler.go:26-29 | the mock's Up returns nil, runs nothing and keeps no state; a compose scaler's Up is the compose transition |
| `Scaler.ScalerDown` | core/scaler/scaler.go:32-35 | the mock's Down returns nil, runs nothing and keeps no state; a compose scaler's Down is the compose transition |
| `Scaler.RunKeepsAtLeastOne` | core/scaler/scaler.go:74-88 | from a count of at least one, no sequence of Up/Down calls with any command outcomes drives the count below one; service name and config file never change |
| `Scaler.UpThenDown` | core/scaler/scaler.go:61-88 | a successful Up followed by a successful Down returns the compose scaler to its starting state |
| `Scaler.DownFloorsAtOne` | core/scaler/scaler.go:75-78 | with one container, any number of Down calls leaves the scaler unchanged, whatever the command would return |
| `Rule.MatchSound` | core/rule/rule.go:88-89 | every syntax match splits the order into spaces, one operator character, spaces and a number group, and the captures are that operator and that number |
| `Rule.MatchComplete` | core/rule/rule.go:88-89 | every string of that shape matches, capturing exactly its operator character and its number group |
| `Rule.Decode` | core/rule/rule.go:86-107 | an error comes with the always-false closure and the message `Error decoding rule [<order>]`; no error exactly when the syntax matches and either the number has no digit or the operator is `>` or `<`; a nil closure exactly when the syntax matches and the number has no digit; never an equality or inequality closure |
| `Rule.DecodeGreater` | core/rule/rule.go:88-97 | optional spaces, `>`, optional spaces and a number t (nothing after it) decode with nil error to a predicate true exactly when v > t |
| `Rule.DecodeLess` | core/rule/rule.go:88-99 | optional spaces, `<`, optional spaces and a number t decode with nil error to a predicate true exactly when v < t |
| `Rule.DecodeStrictBoundary` | core/rule/rule.go:97 | `">0.75"` decodes to the test v > 0.75: false at exactly 0.75 and true at 0.76 |
| `Rule.DecodeRejected` | core/rule/rule.go:88-90 | any order the syntax check rejects yields the decode error and a predicate false for every reading |
| `Rule.DecodeRejectsDoubleEquals` | core/rule/rule.go:88-90 | `"==0.5"` is rejected: the operator class admits a single character only |
| `Rule.DecodeRejectsTilde` | core/rule/rule.go:88-90 | `"~0.5"` is rejected |
| `Rule.DecodeRejectsTrailingSpace` | core/rule/rule.go:88-90 | `">0.5 "` is rejected: nothing may follow the number |
| `Rule.DecodeUnknownOperator` | core/rule/rule.go:95-106 | `=`, `!` or the pipe character followed by a valid number passes the syntax check, hits no switch case, and yields the error with an always-false predicate |
| `Rule.DecodeNoDigits` | core/rule/rule.go:90-94 | an operator followed by an empty or lone-`.` number, as in `">"` or `"< ."`, yields a nil closure and a nil error |
| `Rule.DecodeNeverEquality` | core/rule/rule.go:95-104 | no input decodes to an equality or inequality test |
| `Rule.DecodeQuarter` | core/rule/rule.go:88-99 | `"<0.25"` decodes with nil error to the test v < 0.25 |
| `Rule.Check` | core/rule/rule.go:47-69 | given the one probe reading, the check panics exactly when the probe is nil or a closure is nil, before any scaler call; otherwise it returns nil; Up and Down both true means no call; Up only means exactly one Up call; Down only means exactly one Down call; neither means no call; only the scaler's state can change |
| `Rule.CheckCallsAtMostOne` | core/rule/rule.go:50-67 | a check makes at most one scaler call |
| `Rule.CheckSwallowsScalerError` | core/rule/rule.go:54-66 | a failing scaler command still gives a nil return, and a failing compose command leaves the rule unchanged |
| `Rule.CheckKeepsAtLeastOne` | core/rule/rule.go:54-67 | a check keeps a compose scaler's count at or above one |
| `Rule.ConflictDoesNothing` | core/rule/rule.go:50-53 | with up `> 0.2` and down `< 0.8`, a reading accepted by both gives no scaler call, an unchanged rule and a nil return |
| `Rule.QuadrantRule` | core/rule/rule.go:47-69 | a rule decoded from `">0.75"` and `"<0.25"` with the mock scaler scales up once at 0.9, down once at 0.1, and makes no call at 0.5 |
| `Rule.CheckQuadrant` | core/rule/rule.go:50-68 | the same three decisions for the tests v > 0.75 and v < 0.25 |
| `Rule.Watch` | core/rule/rule.go:24-33 | over a trace of check outcomes, the watcher stops exactly when some check returns an error or panics; it then ran the checks up to and including the first such check, slept once after each earlier check, and sent that check's error once, or nothing when it panicked; with no such check it ran every check and sent nothing; every sleep is the given interval |
| `Rule.WatchNilClosure` | core/rule/rule.go:24-33 | a rule with a nil closure panics on its first check: the watcher runs one check, sleeps never, sends nothing and ends by a panic |
| `Rule.WatchNilProbe` | core/rule/rule.go:24-48 | a rule with a nil probe panics at the probe read of its first check: the watcher runs one check, sleeps never, sends nothing and ends by a panic |
| `Rule.DecodeBareOperator` | core/rule/rule.go:90-94 | the order `">"` decodes to a nil closure with a nil error, so it is accepted and the rule built from it panics when checked |
| `Rule.CheckIntervalSteady` | core/rule/rule.go:72-74 | `CheckInterval` returns the configured refresh rate, and no check along a trace changes it |
| `Rule.CheckTraceReturnsNil` | core/rule/rule.go:47-69 | along any trace of checks of a rule with a probe and non-nil closures, every check returns nil and the closures and refresh rate never change |
| `Rule.CheckTraceKeepsAtLeastOne` | core/rule/rule.go:54-67 | along any trace of checks, a compose scaler that starts with at least one container keeps at least one |
| `Rule.WatchFloatValue` | core/rule/rule.go:24-74 | a FloatValue rule with a probe and non-nil closures never returns an error, so its watcher runs every check of the trace, sends nothing, never panics, and sleeps `CheckInterval()`, which is the refresh rate, after each check |
| `Config.ParseProbeHAP` | cmd/config.go:188-200 | a HAProxy probe is built exactly when the reference has three pieces and the rule names a stats socket, with Type and Item taken from pieces 1 and 2; otherwise there is an error and no probe |
| `Config.ParseProbeProm` | cmd/config.go:202-216 | a Prometheus probe is built exactly when piece 1 is `http` and the rule has a url and a key; otherwise there is an error and no probe |
| `Config.ParseProbe` | cmd/config.go:157-186 | an error is returned exactly when the reference has no `.` (`Badly formated probe: <ref>`) or its first piece is not one of swarm, hap, cmd, prom, mock (`Unknown probe <piece>`); an error comes with no probe |
| `Config.ProbeAnySuffix` | cmd/config.go:167-181 | `swarm.`, `cmd.` and `mock.` references are accepted whatever follows the first dot, giving the swarm CPU probe on the rule's target, the command probe with the rule's cmd, and the default probe |
| `Config.SwarmWithEmptySuffix` | cmd/config.go:162-170 | `"swarm."` is accepted as a swarm probe |
| `Config.ProbeHap` | cmd/config.go:171-199 | `hap.<type>.<item>` gives the HAProxy probe with that socket, type and item when a socket is set; without a socket, the sub-parser's error is dropped and the result is a nil probe with a nil error |
| `Config.ProbeHapWrongArity` | cmd/config.go:171-190 | a `hap` reference with other than three pieces gives a nil probe with a nil error |
| `Config.ProbeProm` | cmd/config.go:178-216 | `prom.<kind>`, with or without further dot-separated pieces after kind, never returns an error; it gives a Prometheus probe exactly when kind is `http` and url and key are set, and a nil probe otherwise |
| `Config.AcceptedNilProbePanics` | cmd/config.go:171-185 | a probe reference accepted without an error but yielding a nil probe gives a rule whose watcher ends by a panic on its first check |
| `Config.ParseScalerEntry` | cmd/config.go:95-114 | a `docker-compose` entry needs non-empty config and target and registers the compose scaler for that target and file, starting at 3 containers; `docker-service` needs a non-empty service and registers it with the global endpoint; an empty type is an error; any other type is skipped with no error |
| `Config.ScalerEntryMessages` | cmd/config.go:95-113 | the error each failing entry reports: the missing config (checked before the target), the missing target, the missing service, or the unknown (empty) type |
| `Config.ParseScalers` | cmd/config.go:90-117 | the parse succeeds exactly when every entry passes its checks; a failure carries the error of the first failing entry, all entries before it having passed; on success the result is the registry of the entries taken in key order |
| `Config.Collect` | cmd/config.go:91-116 | the loop stops at the first failing entry with its error and otherwise returns the map built by storing each registering entry under its name in order |
| `Config.RegistryKeys` | cmd/config.go:103-111 | a name is in the registry exactly when some entry with that name registers a scaler; skipped entries leave no trace |
| `Config.RegistryLastWins` | cmd/config.go:103-111 | a name holds the scaler of the last entry that registers it: a later entry with the same name overwrites an earlier one |

## Left out

- core/core.go, the supervisor: it starts one goroutine per rule, reads the first error from a channel of capacity 10 and calls `os.Exit`. That is concurrency and process termination, not sequential logic.
- `time.Sleep`: the Watcher model keeps only the requested intervals.
- All logrus logging, and the `Describe()` and `Name()` labels, which only feed log lines.
- `exec.Command(...).CombinedOutput()`: only its success or failure is modelled, as the `exec` input. The command's output text is not modelled.
- `FloatValue.JSON` (core/rule/rule.go:76-83): it relies on `encoding/json` reflection.
- Rule.Decode: uses exact reals for thresholds. It does not model float64 rounding, NaN or infinities. It also misses one error path: a number group whose value exceeds the float64 range (about 1.8e308; leading zeros do not count) makes `ParseFloat` fail with `ErrRange`. The source then returns a nil closure and a nil error before the operator switch, for every operator character. The model returns a `Gt`/`Lt` test for `>`/`<` and the decode error with the always-false closure for `=`, `!` and `|`.
- Strconv.ParseDecimal: converts a decimal literal exactly to a real. `strconv.ParseFloat` rounds to float64 and fails on out-of-range values.
- Scaler.ComposeUp: the count is an unbounded integer. It does not model Go's 64-bit wrap-around of `runningContainers+1`.
- The probe implementations (swarm CPU average, HAProxy, command, Prometheus, default) are not part of this model. A check is given the reading `Probe.Value()` returned.
- The docker-service scaler (`ServiceScaler`) is not part of this model. Its Up/Down result is taken as the `exec` input, and it keeps no state.
- Viper: reading the config file, `viper.Sub` returning nil (which dereferences nil at cmd/config.go:92 and 122), the order of `AllKeys` (the model takes the entries in the order given), and `GetDuration`.
- `parseConfig`, `parseOrchestrator` (its `CheckTLS` is not part of this model) and `parseRules` (it uses FloatValue fields and a `Parse` method that core/rule/rule.go does not have). A nil `Scale` would also panic in `Check`, but cmd/config.go:128 rejects a rule whose scaler is not registered, so the model's rule always has a scaler.
- api/scalers_test.go: it tests a `ScalerBuilder` that is not part of this model.
- A rule variant with fixed thresholds 0.75/0.25 does not appear in core/rule/rule.go. `Rule.QuadrantRule` shows a FloatValue rule built from those thresholds instead.
