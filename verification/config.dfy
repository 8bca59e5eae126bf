/** cmd/config.go: probe references of a rule and the entries of the `scalers`
    section. A configuration section is a map from key to value; a missing key
    reads as "", as `GetString` does. */
module Config {
  import opened Wrappers
  import opened Strings
  import opened Scaler
  import Rule

  type Section = map<string, string>

  /** `viper.GetString`: the value under key, "" when absent. */
  function GetString(sec: Section, key: string): string {
    if key in sec then sec[key] else ""
  }

  // ---------------------------------------------------------------------------
  // Probes
  // ---------------------------------------------------------------------------

  /** The probes a rule can name. Their sampling is not part of this model;
      only the fields the configuration fills in are kept. */
  datatype Probe =
    | AverageCPU(tag: string)
    | HAproxy(socket: string, kind: string, item: string)
    | Command(cmd: string)
    | Prometheus(url: string, key: string)
    | DefaultScaling

  /** A probe (None is a nil probe) and an error (None is nil). */
  datatype ProbeResult = ProbeResult(probe: Option<Probe>, err: Option<string>)

  /** The probe kinds `parseProbe` dispatches on. */
  predicate KnownKind(kind: string) {
    kind in {"swarm", "hap", "cmd", "prom", "mock"}
  }

  /** `parseProbeHAP`: a HAProxy reference is exactly `hap.<type>.<item>` and
      the rule must name a stats socket. */
  function ParseProbeHAP(sec: Section, name: string, parts: seq<string>): (r: ProbeResult)
    ensures r.probe.Some? <==> r.err.None?
    ensures r.probe.Some? <==> |parts| == 3 && GetString(sec, "ha-socket") != ""
    ensures r.probe.Some? ==> r.probe.value == HAproxy(GetString(sec, "ha-socket"), parts[1], parts[2])
  {
    if |parts| != 3 then ProbeResult(None, Some("hap probe need to be like hap.foo.bar"))
    else if GetString(sec, "ha-socket") == "" then
      ProbeResult(None, Some("No hap stat socket specified for " + name + " probe"))
    else ProbeResult(Some(HAproxy(GetString(sec, "ha-socket"), parts[1], parts[2])), None)
  }

  /** `parseProbeProm`: only the `http` kind exists, and it needs a url and a key. */
  function ParseProbeProm(sec: Section, parts: seq<string>): (r: ProbeResult)
    requires |parts| >= 2
    ensures r.probe.Some? <==> r.err.None?
    ensures r.probe.Some? <==> parts[1] == "http" && GetString(sec, "url") != "" && GetString(sec, "key") != ""
    ensures r.probe.Some? ==> r.probe.value == Prometheus(GetString(sec, "url"), GetString(sec, "key"))
  {
    if parts[1] == "http" then
      if GetString(sec, "url") == "" then ProbeResult(None, Some("No url specified for Prometheus probe"))
      else if GetString(sec, "key") == "" then ProbeResult(None, Some("No url specified for Prometheus probe"))
      else ProbeResult(Some(Prometheus(GetString(sec, "url"), GetString(sec, "key"))), None)
    else ProbeResult(None, Some("Unknow prometheus probe type \"" + parts[1] + "\""))
  }

  /** `parseProbe` for the rule `name` whose section is `sec`. The reference is
      split on '.'; it needs at least two pieces and a known first piece, and only
      those two failures are reported. The HAProxy and Prometheus parsers'
      errors are dropped: an invalid reference of those kinds gives a nil probe
      and a nil error. */
  function ParseProbe(sec: Section, name: string): (r: ProbeResult)
    ensures var ref := GetString(sec, "probe");
      && (r.err.Some? <==> NoDot(ref) || !KnownKind(Split(ref)[0]))
      && (NoDot(ref) ==> r == ProbeResult(None, Some("Badly formated probe: " + ref)))
      && (!NoDot(ref) && !KnownKind(Split(ref)[0]) ==>
            r == ProbeResult(None, Some("Unknown probe " + Split(ref)[0])))
      && (r.err.Some? ==> r.probe.None?)
  {
    var ref := GetString(sec, "probe");
    var parts := Split(ref);
    SplitSingle(ref);
    if |parts| < 2 then ProbeResult(None, Some("Badly formated probe: " + ref))
    else match parts[0]
      case "swarm" => ProbeResult(Some(AverageCPU(GetString(sec, "target"))), None)
      case "hap" => ProbeResult(ParseProbeHAP(sec, name, parts).probe, None)
      case "cmd" => ProbeResult(Some(Command(GetString(sec, "cmd"))), None)
      case "prom" => ProbeResult(ParseProbeProm(sec, parts).probe, None)
      case "mock" => ProbeResult(Some(DefaultScaling), None)
      case _ => ProbeResult(None, Some("Unknown probe " + parts[0]))
  }

  /** `swarm`, `cmd` and `mock` accept a reference with any suffix after the first '.'. */
  lemma {:induction false} ProbeAnySuffix(sec: Section, name: string, kind: string, suffix: string)
    requires kind in {"swarm", "cmd", "mock"}
    requires GetString(sec, "probe") == kind + "." + suffix
    ensures ParseProbe(sec, name).err.None?
    ensures kind == "swarm" ==> ParseProbe(sec, name).probe == Some(AverageCPU(GetString(sec, "target")))
    ensures kind == "cmd" ==> ParseProbe(sec, name).probe == Some(Command(GetString(sec, "cmd")))
    ensures kind == "mock" ==> ParseProbe(sec, name).probe == Some(DefaultScaling)
  {
    assert NoDot(kind);
    SplitPrefix(kind, suffix);
  }

  /** "swarm." is accepted: the empty piece after the dot is not checked. */
  lemma SwarmWithEmptySuffix(sec: Section, name: string)
    requires GetString(sec, "probe") == "swarm."
    ensures ParseProbe(sec, name) == ProbeResult(Some(AverageCPU(GetString(sec, "target"))), None)
  {
    assert "swarm." == "swarm" + "." + "";
    ProbeAnySuffix(sec, name, "swarm", "");
  }

  /** `hap.<type>.<item>` with dot-free type and item and a stats socket gives the
      HAProxy probe on that socket, type and item; without a socket, a nil probe
      and a nil error. */
  lemma {:induction false} ProbeHap(sec: Section, name: string, kind: string, item: string)
    requires NoDot(kind) && NoDot(item)
    requires GetString(sec, "probe") == "hap." + kind + "." + item
    ensures GetString(sec, "ha-socket") != "" ==>
      ParseProbe(sec, name) == ProbeResult(Some(HAproxy(GetString(sec, "ha-socket"), kind, item)), None)
    ensures GetString(sec, "ha-socket") == "" ==> ParseProbe(sec, name) == ProbeResult(None, None)
  {
    var parts := ["hap", kind, item];
    assert parts[1..] == [kind, item] && [kind, item][1..] == [item];
    assert Join([item]) == item;
    assert Join([kind, item]) == kind + "." + item;
    assert Join(parts) == "hap" + "." + (kind + "." + item);
    assert "hap." + kind + "." + item == "hap" + "." + (kind + "." + item);
    assert PartsHaveNoDot(parts);
    SplitJoin(parts);
  }

  /** A `hap` reference with other than three pieces gives a nil probe and a nil error. */
  lemma ProbeHapWrongArity(sec: Section, name: string)
    requires !NoDot(GetString(sec, "probe"))
    requires Split(GetString(sec, "probe"))[0] == "hap" && |Split(GetString(sec, "probe"))| != 3
    ensures ParseProbe(sec, name) == ProbeResult(None, None)
  {
    SplitSingle(GetString(sec, "probe"));
  }

  /** `prom.<kind>`, with a dot-free kind and any further pieces after it, is a
      Prometheus probe exactly when kind is `http` and the rule has a url and a
      key; otherwise a nil probe and a nil error. Only the second piece is read,
      so `prom.http.x` is accepted like `prom.http`. */
  lemma {:induction false} ProbeProm(sec: Section, name: string, kind: string, rest: string)
    requires NoDot(kind) && (rest == "" || rest[0] == '.')
    requires GetString(sec, "probe") == "prom." + kind + rest
    ensures ParseProbe(sec, name).err.None?
    ensures ParseProbe(sec, name).probe.Some? <==>
      kind == "http" && GetString(sec, "url") != "" && GetString(sec, "key") != ""
    ensures ParseProbe(sec, name).probe.Some? ==>
      ParseProbe(sec, name).probe.value == Prometheus(GetString(sec, "url"), GetString(sec, "key"))
  {
    PromPieces(kind, rest);
  }

  /** Splitting `prom.<kind><rest>` gives "prom", then kind, then rest's pieces. */
  lemma {:induction false} PromPieces(kind: string, rest: string)
    requires NoDot(kind) && (rest == "" || rest[0] == '.')
    ensures var parts := Split("prom." + kind + rest);
      |parts| >= 2 && parts[0] == "prom" && parts[1] == kind
  {
    var ref := "prom." + kind + rest;
    assert ref == "prom" + "." + (kind + rest);
    SplitPrefix("prom", kind + rest);
    if rest == "" {
      assert kind + rest == kind;
      SplitNoDot(kind);
    } else {
      assert kind + rest == kind + "." + rest[1..];
      SplitPrefix(kind, rest[1..]);
    }
  }

  /** A rule whose probe reference is accepted without an error but yields a nil
      probe (an invalid `hap` or `prom` reference) carries a nil probe, so its
      watcher ends by a panic at the first check. */
  lemma AcceptedNilProbePanics(sec: Section, name: string, r: Rule.FloatValue, steps: seq<(real, Option<string>)>)
    requires ParseProbe(sec, name).err.None?
    requires r.hasProbe <==> ParseProbe(sec, name).probe.Some?
    ensures ParseProbe(sec, name).probe.None? && |steps| > 0 ==>
      Rule.Watch(Rule.Outcomes(Rule.CheckTrace(r, steps)), Rule.CheckInterval(r)) == Rule.WatcherRun(1, [], [], true, true)
  {
    if ParseProbe(sec, name).probe.None? && |steps| > 0 {
      Rule.WatchNilProbe(r, steps);
    }
  }

  // ---------------------------------------------------------------------------
  // Scalers
  // ---------------------------------------------------------------------------

  /** The checks `parseScalers` applies to one entry: Success(Some(s)) registers
      s under the entry's name, Success(None) skips the entry, Failure stops the
      parse. `endpoint` is the top-level endpoint setting. */
  function ParseScalerEntry(name: string, sec: Section, endpoint: string): (r: Result<Option<Scaler>, string>)
    ensures var kind := GetString(sec, "type");
      && (r.Failure? <==>
            || kind == ""
            || (kind == "docker-compose" && (GetString(sec, "config") == "" || GetString(sec, "target") == ""))
            || (kind == "docker-service" && GetString(sec, "service") == ""))
      && (r.Success? && r.value.None? <==> kind !in {"", "docker-compose", "docker-service"})
      && (r.Success? && r.value.Some? && kind == "docker-compose" ==>
            && r.value.value == Compose(ComposeScaler(GetString(sec, "target"), GetString(sec, "config"), 3))
            && AtLeastOne(r.value.value.compose))
      && (r.Success? && r.value.Some? && kind == "docker-service" ==>
            r.value.value == Service(GetString(sec, "service"), endpoint))
  {
    match GetString(sec, "type")
    case "docker-compose" =>
      if GetString(sec, "config") == "" then
        Failure("No config specified for docker-compose scaler [" + name + "]")
      else if GetString(sec, "target") == "" then
        Failure("No target specified for docker-compose scaler [" + name + "]")
      else Success(Some(Compose(NewComposeScaler(GetString(sec, "target"), GetString(sec, "config")))))
    case "docker-service" =>
      if GetString(sec, "service") == "" then
        Failure("No service specified for docker-service scaler [" + name + "]")
      else Success(Some(Service(GetString(sec, "service"), endpoint)))
    case "" => Failure("Unknown scaler type: " + GetString(sec, "type") + "\n")
    case _ => Success(None)
  }

  /** The error each failing entry reports. A compose entry missing both its
      config and its target reports the missing config. */
  lemma ScalerEntryMessages(name: string, sec: Section, endpoint: string)
    ensures var r := ParseScalerEntry(name, sec, endpoint); var kind := GetString(sec, "type");
      && (kind == "" ==> r == Failure("Unknown scaler type: " + kind + "\n"))
      && (kind == "docker-compose" && GetString(sec, "config") == "" ==>
            r == Failure("No config specified for docker-compose scaler [" + name + "]"))
      && (kind == "docker-compose" && GetString(sec, "config") != "" && GetString(sec, "target") == "" ==>
            r == Failure("No target specified for docker-compose scaler [" + name + "]"))
      && (kind == "docker-service" && GetString(sec, "service") == "" ==>
            r == Failure("No service specified for docker-service scaler [" + name + "]"))
  {
  }

  predicate EntryOk(entries: seq<(string, Section)>, i: int, endpoint: string)
    requires 0 <= i < |entries|
  {
    ParseScalerEntry(entries[i].0, entries[i].1, endpoint).Success?
  }

  /** The entry names, in order. */
  function Names(entries: seq<(string, Section)>): (names: seq<string>)
    ensures |names| == |entries|
    ensures forall i :: 0 <= i < |entries| ==> names[i] == entries[i].0
  {
    seq(|entries|, i requires 0 <= i < |entries| => entries[i].0)
  }

  /** The result of checking each entry, in order. */
  function EntryResults(entries: seq<(string, Section)>, endpoint: string): (rs: seq<Result<Option<Scaler>, string>>)
    ensures |rs| == |entries|
    ensures forall i :: 0 <= i < |entries| ==> rs[i] == ParseScalerEntry(entries[i].0, entries[i].1, endpoint)
  {
    seq(|entries|, i requires 0 <= i < |entries| => ParseScalerEntry(entries[i].0, entries[i].1, endpoint))
  }

  /** Position j registers something. */
  predicate RegistersAt<T, E>(rs: seq<Result<Option<T>, E>>, j: int)
    requires 0 <= j < |rs|
  {
    rs[j].Success? && rs[j].value.Some?
  }

  /** The map built from the per-position results, taken in order: each
      registering position stores its value under its name. */
  function Registry<T, E>(names: seq<string>, rs: seq<Result<Option<T>, E>>): map<string, T>
    requires |names| == |rs|
    decreases |rs|
  {
    if |rs| == 0 then map[]
    else
      var n := |rs| - 1;
      var m := Registry(names[..n], rs[..n]);
      if RegistersAt(rs, n) then m[names[n] := rs[n].value.value] else m
  }

  /** The registry holds exactly the names of registering positions. */
  lemma {:induction false} RegistryKeys<T, E>(names: seq<string>, rs: seq<Result<Option<T>, E>>, name: string)
    requires |names| == |rs|
    ensures name in Registry(names, rs) <==> exists j :: 0 <= j < |rs| && names[j] == name && RegistersAt(rs, j)
    decreases |rs|
  {
    if |rs| > 0 {
      var n := |rs| - 1;
      RegistryKeys(names[..n], rs[..n], name);
      if exists j :: 0 <= j < n && names[..n][j] == name && RegistersAt(rs[..n], j) {
        var j :| 0 <= j < n && names[..n][j] == name && RegistersAt(rs[..n], j);
        assert names[j] == name && RegistersAt(rs, j);
      }
      if exists j :: 0 <= j < |rs| && names[j] == name && RegistersAt(rs, j) {
        var j :| 0 <= j < |rs| && names[j] == name && RegistersAt(rs, j);
        if j < n {
          assert names[..n][j] == name && RegistersAt(rs[..n], j);
        }
      }
    }
  }

  /** A name holds the value of the last position that registers it. */
  lemma {:induction false} RegistryLastWins<T, E>(names: seq<string>, rs: seq<Result<Option<T>, E>>, j: int)
    requires |names| == |rs| && 0 <= j < |rs| && RegistersAt(rs, j)
    requires forall k :: j < k < |rs| && names[k] == names[j] ==> !RegistersAt(rs, k)
    ensures names[j] in Registry(names, rs)
    ensures Registry(names, rs)[names[j]] == rs[j].value.value
    decreases |rs|
  {
    var n := |rs| - 1;
    if j < n {
      forall k | j < k < n && names[..n][k] == names[..n][j] ensures !RegistersAt(rs[..n], k) {
        assert !RegistersAt(rs, k);
      }
      assert RegistersAt(rs[..n], j);
      RegistryLastWins(names[..n], rs[..n], j);
      assert !RegistersAt(rs, n) || names[n] != names[j];
    }
  }

  /** The loop of `parseScalers` over the per-entry results: it stops at the
      first failure with that failure's error; otherwise it has stored each
      registering position's value under its name, in order. */
  method Collect<T, E>(names: seq<string>, rs: seq<Result<Option<T>, E>>) returns (res: Result<map<string, T>, E>)
    requires |names| == |rs|
    ensures res.Success? <==> forall i :: 0 <= i < |rs| ==> rs[i].Success?
    ensures res.Failure? ==> exists i :: (
      && 0 <= i < |rs| && rs[i] == Failure(res.error)
      && forall j :: 0 <= j < i ==> rs[j].Success?)
    ensures res.Success? ==> res.value == Registry(names, rs)
  {
    var m: map<string, T> := map[];
    var i := 0;
    while i < |rs|
      invariant 0 <= i <= |rs|
      invariant forall j :: 0 <= j < i ==> rs[j].Success?
      invariant m == Registry(names[..i], rs[..i])
    {
      if rs[i].Failure? {
        return Failure(rs[i].error);
      }
      assert names[..i + 1][..i] == names[..i] && rs[..i + 1][..i] == rs[..i];
      if rs[i].value.Some? {
        m := m[names[i] := rs[i].value.value];
      }
      i := i + 1;
    }
    assert names[..i] == names && rs[..i] == rs;
    return Success(m);
  }

  /** `parseScalers` over the entries in key order. The parse fails with the
      first failing entry's error; otherwise the result is the registry of the
      entries' scalers (see RegistryKeys and RegistryLastWins: exactly the names
      of registering entries, each holding the scaler of the last entry that
      registered it; skipped entries leave no trace). */
  method ParseScalers(entries: seq<(string, Section)>, endpoint: string) returns (res: Result<map<string, Scaler>, string>)
    ensures res.Success? <==> forall i :: 0 <= i < |entries| ==> EntryOk(entries, i, endpoint)
    ensures res.Failure? ==> exists i :: (
      && 0 <= i < |entries|
      && ParseScalerEntry(entries[i].0, entries[i].1, endpoint) == Failure(res.error)
      && forall j :: 0 <= j < i ==> EntryOk(entries, j, endpoint))
    ensures res.Success? ==> res.value == Registry(Names(entries), EntryResults(entries, endpoint))
  {
    var rs := EntryResults(entries, endpoint);
    res := Collect(Names(entries), rs);
    assert forall i :: 0 <= i < |entries| ==> (EntryOk(entries, i, endpoint) <==> rs[i].Success?);
  }
}
