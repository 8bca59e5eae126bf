/** The scalers of core/scaler/scaler.go. A scaler is a value; an `Up` or `Down`
    call returns the scaler as it is afterwards, the docker-compose command line it
    ran (if any) and the error it returned (None is Go's nil). Running the command
    is not modelled: its result is the `exec` input, None for success and
    `Some(e)` for a failure reported as e. */
module Scaler {
  import opened Wrappers
  import opened Strconv

  /** State of a ComposeScaler: the service it scales, the compose file, and the
      number of containers it believes are running. */
  datatype ComposeScaler = ComposeScaler(serviceName: string, configFile: string, runningContainers: int)

  /** The scalers a rule can hold. `Service` is the docker-service scaler whose
      implementation is not part of this model; its Up/Down result is the `exec` input. */
  datatype Scaler =
    | Mock
    | Compose(compose: ComposeScaler)
    | Service(serviceId: string, engineSocket: string)

  /** What one Up or Down call did. */
  datatype ComposeStep = ComposeStep(command: Option<seq<string>>, next: ComposeScaler, err: Option<string>)
  datatype ScaleStep = ScaleStep(command: Option<seq<string>>, next: Scaler, err: Option<string>)

  /** The replica count is sane: at least one container. */
  predicate AtLeastOne(s: ComposeScaler) {
    s.runningContainers >= 1
  }

  /** A `scale` argument `<service>=<count>`: the service name, '=', then the
      count in canonical decimal (the text `strconv.Itoa` writes, which reads
      back as the count). */
  predicate ScaleArgFor(arg: string, service: string, count: int) {
    && |arg| > |service|
    && arg[..|service|] == service
    && arg[|service|] == '='
    && arg[|service| + 1..] == Itoa(count)
    && Atoi(arg[|service| + 1..]) == Some(count)
  }

  /** `docker-compose -f <configFile> scale <service>=<count>`. */
  predicate IsScaleCommand(cmd: seq<string>, s: ComposeScaler, count: int) {
    && |cmd| == 5
    && cmd[0] == "docker-compose" && cmd[1] == "-f" && cmd[2] == s.configFile && cmd[3] == "scale"
    && ScaleArgFor(cmd[4], s.serviceName, count)
  }

  function ScaleCommand(s: ComposeScaler, count: int): (cmd: seq<string>)
    ensures IsScaleCommand(cmd, s, count)
  {
    var arg := s.serviceName + "=" + Itoa(count);
    assert arg[..|s.serviceName|] == s.serviceName;
    assert arg[|s.serviceName| + 1..] == Itoa(count);
    ItoaRoundTrip(count);
    ["docker-compose", "-f", s.configFile, "scale", arg]
  }

  /** `NewComposeScaler`: remembers the name and compose file and assumes three
      running containers. */
  function NewComposeScaler(name: string, configFilePath: string): (s: ComposeScaler)
    ensures s.serviceName == name && s.configFile == configFilePath
    ensures s.runningContainers == 3
    ensures AtLeastOne(s)
  {
    ComposeScaler(name, configFilePath, 3)
  }

  /** `ComposeScaler.Up`: asks docker-compose for one container more; the count
      follows only when the command succeeds, otherwise its error is returned. */
  function ComposeUp(s: ComposeScaler, exec: Option<string>): (r: ComposeStep)
    ensures r.command.Some? && IsScaleCommand(r.command.value, s, s.runningContainers + 1)
    ensures r.err == exec
    ensures exec.None? ==> r.next == s.(runningContainers := s.runningContainers + 1)
    ensures exec.Some? ==> r.next == s
  {
    var cmd := ScaleCommand(s, s.runningContainers + 1);
    if exec.Some? then ComposeStep(Some(cmd), s, exec)
    else ComposeStep(Some(cmd), s.(runningContainers := s.runningContainers + 1), None)
  }

  /** `ComposeScaler.Down`: below two containers nothing is run and nil is returned;
      otherwise docker-compose is asked for one container fewer, and the count
      follows only when the command succeeds. */
  function ComposeDown(s: ComposeScaler, exec: Option<string>): (r: ComposeStep)
    ensures s.runningContainers < 2 ==> r.command.None? && r.next == s && r.err.None?
    ensures s.runningContainers >= 2 ==>
      && r.command.Some? && IsScaleCommand(r.command.value, s, s.runningContainers - 1)
      && r.err == exec
      && (exec.None? ==> r.next == s.(runningContainers := s.runningContainers - 1))
      && (exec.Some? ==> r.next == s)
  {
    if s.runningContainers < 2 then ComposeStep(None, s, None)
    else
      var cmd := ScaleCommand(s, s.runningContainers - 1);
      if exec.Some? then ComposeStep(Some(cmd), s, exec)
      else ComposeStep(Some(cmd), s.(runningContainers := s.runningContainers - 1), None)
  }

  /** `Scaler.Up` dispatched on the scaler kind. The mock always succeeds and keeps no state. */
  function ScalerUp(s: Scaler, exec: Option<string>): (r: ScaleStep)
    ensures s.Mock? ==> r == ScaleStep(None, Mock, None)
    ensures s.Compose? ==> r.next.Compose? && var c := ComposeUp(s.compose, exec);
      r == ScaleStep(c.command, Compose(c.next), c.err)
    ensures s.Service? ==> r == ScaleStep(None, s, exec)
  {
    match s
    case Mock => ScaleStep(None, Mock, None)
    case Compose(c) =>
      var step := ComposeUp(c, exec);
      ScaleStep(step.command, Compose(step.next), step.err)
    case Service(_, _) => ScaleStep(None, s, exec)
  }

  /** `Scaler.Down` dispatched on the scaler kind. */
  function ScalerDown(s: Scaler, exec: Option<string>): (r: ScaleStep)
    ensures s.Mock? ==> r == ScaleStep(None, Mock, None)
    ensures s.Compose? ==> r.next.Compose? && var c := ComposeDown(s.compose, exec);
      r == ScaleStep(c.command, Compose(c.next), c.err)
    ensures s.Service? ==> r == ScaleStep(None, s, exec)
  {
    match s
    case Mock => ScaleStep(None, Mock, None)
    case Compose(c) =>
      var step := ComposeDown(c, exec);
      ScaleStep(step.command, Compose(step.next), step.err)
    case Service(_, _) => ScaleStep(None, s, exec)
  }

  /** A scaler call together with the result its command would have. */
  datatype ScaleOp = UpOp(exec: Option<string>) | DownOp(exec: Option<string>)

  function Apply(s: ComposeScaler, op: ScaleOp): ComposeScaler {
    match op
    case UpOp(e) => ComposeUp(s, e).next
    case DownOp(e) => ComposeDown(s, e).next
  }

  /** The compose scaler after a sequence of calls. */
  function RunCompose(s: ComposeScaler, ops: seq<ScaleOp>): ComposeScaler
    decreases |ops|
  {
    if |ops| == 0 then s else RunCompose(Apply(s, ops[0]), ops[1..])
  }

  /** One call never takes a scaler with at least one container below one,
      and never changes which service or compose file it drives. */
  lemma ApplyKeepsAtLeastOne(s: ComposeScaler, op: ScaleOp)
    requires AtLeastOne(s)
    ensures AtLeastOne(Apply(s, op))
    ensures Apply(s, op).serviceName == s.serviceName && Apply(s, op).configFile == s.configFile
  {
  }

  /** No sequence of Up/Down calls drives the count below one. */
  lemma {:induction false} RunKeepsAtLeastOne(s: ComposeScaler, ops: seq<ScaleOp>)
    requires AtLeastOne(s)
    ensures AtLeastOne(RunCompose(s, ops))
    ensures RunCompose(s, ops).serviceName == s.serviceName
    ensures RunCompose(s, ops).configFile == s.configFile
    decreases |ops|
  {
    if |ops| > 0 {
      ApplyKeepsAtLeastOne(s, ops[0]);
      RunKeepsAtLeastOne(Apply(s, ops[0]), ops[1..]);
    }
  }

  /** A successful Up followed by a successful Down restores the count. */
  lemma UpThenDown(s: ComposeScaler)
    requires AtLeastOne(s)
    ensures RunCompose(s, [UpOp(None), DownOp(None)]) == s
  {
    assert [UpOp(None), DownOp(None)][1..] == [DownOp(None)];
  }

  /** With one container left, Down is refused silently however often it is asked. */
  lemma {:induction false} DownFloorsAtOne(s: ComposeScaler, n: nat, exec: Option<string>)
    requires s.runningContainers == 1
    ensures RunCompose(s, seq(n, _ => DownOp(exec))) == s
  {
    if n > 0 {
      DownFloorsAtOne(s, n - 1, exec);
      assert seq(n, _ => DownOp(exec))[1..] == seq(n - 1, _ => DownOp(exec));
    }
  }
}
