/** core/rule/rule.go: the threshold-expression decoder, the FloatValue rule's
    check, its check interval, and the Watcher loop over a finite trace. */
module Rule {
  import opened Wrappers
  import opened Strconv
  import opened Scaler

  // ---------------------------------------------------------------------------
  // Predicates produced by the decoder
  // ---------------------------------------------------------------------------

  /** The closure `Decode` returns, made inspectable. `Never` is the always-false
      closure of the error path; `NilFunc` is the nil function value returned
      when the number fails to parse. `Eq` and `Ne` are the closures of the
      `==` and `!=` switch cases. */
  datatype Pred = Gt(t: real) | Lt(t: real) | Eq(t: real) | Ne(t: real) | Never | NilFunc

  /** Calling the closure on a reading; a nil function cannot be called. */
  predicate Holds(p: Pred, v: real)
    requires !p.NilFunc?
  {
    match p
    case Gt(t) => v > t
    case Lt(t) => v < t
    case Eq(t) => v == t
    case Ne(t) => v != t
    case Never => false
  }

  // ---------------------------------------------------------------------------
  // The syntax check: ^[[:space:]]*([>|<|==|!=])[[:space:]]*(\d*(?:\.\d*)?)$
  // ---------------------------------------------------------------------------

  /** POSIX [[:space:]]: tab, newline, vertical tab, form feed, carriage return, space. */
  predicate IsSpace(c: char) {
    c == ' ' || ('\t' <= c <= '\r')
  }

  predicate AllSpace(s: string) {
    forall i :: 0 <= i < |s| ==> IsSpace(s[i])
  }

  /** The bracket expression `[>|<|==|!=]` is one character out of this set. */
  predicate IsOpChar(c: char) {
    c == '>' || c == '|' || c == '<' || c == '=' || c == '!'
  }

  /** The whole-string shape the regular expression accepts, with its pieces named:
      spaces, the operator character, spaces, the number group. */
  predicate Shape(pre: string, op: char, mid: string, num: string) {
    AllSpace(pre) && IsOpChar(op) && AllSpace(mid) && IsNumberLiteral(num)
  }

  /** `FindStringSubmatch` with the decoder's pattern: the two captured groups,
      or None when the string does not match. The scan skips the leading spaces
      and takes one operator character; MatchAfter does the rest. */
  function Match(s: string): (r: Option<(char, string)>)
    ensures r.Some? ==> IsOpChar(r.value.0) && IsNumberLiteral(r.value.1)
    decreases |s|
  {
    if |s| == 0 then None
    else if IsSpace(s[0]) then Match(s[1..])
    else if IsOpChar(s[0]) then MatchAfter(s[0], s[1..])
    else None
  }

  /** The part of the pattern after the operator: spaces, then a number group
      that runs to the end of the string. A number group never starts with a
      space, so skipping every leading space is what the greedy pattern does. */
  function MatchAfter(op: char, s: string): (r: Option<(char, string)>)
    ensures r.Some? ==> r.value.0 == op && IsNumberLiteral(r.value.1)
    decreases |s|
  {
    if |s| > 0 && IsSpace(s[0]) then MatchAfter(op, s[1..])
    else if IsNumberLiteral(s) then Some((op, s))
    else None
  }

  /** What MatchAfter accepts: spaces followed by the captured number. */
  lemma {:induction false} MatchAfterSound(op: char, s: string) returns (mid: string)
    requires MatchAfter(op, s).Some?
    ensures AllSpace(mid) && MatchAfter(op, s).value.0 == op
    ensures IsNumberLiteral(MatchAfter(op, s).value.1)
    ensures s == mid + MatchAfter(op, s).value.1
    decreases |s|
  {
    if |s| > 0 && IsSpace(s[0]) {
      assert MatchAfter(op, s) == MatchAfter(op, s[1..]);
      var m := MatchAfterSound(op, s[1..]);
      mid := [s[0]] + m;
      assert AllSpace(mid) by {
        assert forall i :: 1 <= i < |mid| ==> mid[i] == m[i - 1];
      }
      assert s == [s[0]] + s[1..];
    } else {
      mid := "";
    }
  }

  /** Every match has the accepted shape and its groups are the ones captured. */
  lemma MatchSound(s: string, op: char, num: string)
    requires Match(s) == Some((op, num))
    ensures exists pre, mid :: Shape(pre, op, mid, num) && s == pre + [op] + mid + num
  {
    var pre, mid := MatchPieces(s);
  }

  /** The spaces before and after the operator of a matching string. */
  lemma {:induction false} MatchPieces(s: string) returns (pre: string, mid: string)
    requires Match(s).Some?
    ensures Shape(pre, Match(s).value.0, mid, Match(s).value.1)
    ensures s == pre + [Match(s).value.0] + mid + Match(s).value.1
    decreases |s|
  {
    var op := Match(s).value.0;
    var num := Match(s).value.1;
    if IsSpace(s[0]) {
      assert Match(s) == Match(s[1..]);
      var p, m := MatchPieces(s[1..]);
      pre, mid := [s[0]] + p, m;
      assert AllSpace(pre) by {
        assert forall i :: 1 <= i < |pre| ==> pre[i] == p[i - 1];
      }
      assert s == [s[0]] + s[1..];
    } else {
      assert Match(s) == MatchAfter(s[0], s[1..]);
      mid := MatchAfterSound(s[0], s[1..]);
      pre := [];
      assert s == [s[0]] + s[1..];
    }
  }

  /** A string of the accepted shape matches, capturing exactly its operator and number. */
  lemma MatchComplete(pre: string, op: char, mid: string, num: string)
    requires Shape(pre, op, mid, num)
    ensures Match(pre + [op] + mid + num) == Some((op, num))
  {
    var t := [op] + (mid + num);
    assert pre + [op] + mid + num == pre + t;
    SkipSpaces(pre, t);
    assert t[1..] == mid + num;
    SkipSpacesAfter(op, mid, num);
    NumberStartsSolid(num);
  }

  /** Leading spaces do not change the match. */
  lemma {:induction false} SkipSpaces(sp: string, t: string)
    requires AllSpace(sp)
    ensures Match(sp + t) == Match(t)
    decreases |sp|
  {
    if |sp| > 0 {
      assert (sp + t)[0] == sp[0] && IsSpace(sp[0]);
      assert (sp + t)[1..] == sp[1..] + t;
      SkipSpaces(sp[1..], t);
    } else {
      assert sp + t == t;
    }
  }

  /** Spaces after the operator do not change the match. */
  lemma {:induction false} SkipSpacesAfter(op: char, sp: string, t: string)
    requires AllSpace(sp)
    ensures MatchAfter(op, sp + t) == MatchAfter(op, t)
    decreases |sp|
  {
    if |sp| > 0 {
      assert (sp + t)[0] == sp[0] && IsSpace(sp[0]);
      assert (sp + t)[1..] == sp[1..] + t;
      SkipSpacesAfter(op, sp[1..], t);
    } else {
      assert sp + t == t;
    }
  }

  /** A number literal does not start with a space. */
  lemma NumberStartsSolid(num: string)
    requires IsNumberLiteral(num)
    ensures |num| > 0 ==> !IsSpace(num[0])
  {
    if |num| > 0 {
      if DotIndex(num) == 0 {
        assert num[0] == '.';
      } else {
        assert IntPart(num)[0] == num[0];
      }
    }
  }

  // ---------------------------------------------------------------------------
  // Decode
  // ---------------------------------------------------------------------------

  /** What `Decode` returns: the closure and the error (None is nil). */
  datatype Decoded = Decoded(pred: Pred, err: Option<string>)

  function DecodeError(order: string): string {
    "Error decoding rule [" + order + "]"
  }

  /** `Decode`: an order with no syntax match is an error with the always-false
      closure. A match whose number has no digit gives a nil closure and no error.
      Otherwise the single operator character selects the closure: only '>' and '<'
      have a case; '=', '!' and '|' fall through to the error; the `==` and `!=`
      cases compare against a one-character capture and are never taken. */
  function Decode(order: string): (d: Decoded)
    ensures d.err.Some? ==> d.err.value == DecodeError(order) && d.pred == Never
    ensures d.err.None? <==>
      Match(order).Some? && (!HasDigit(Match(order).value.1) || Match(order).value.0 in {'>', '<'})
    ensures d.pred.NilFunc? <==> Match(order).Some? && !HasDigit(Match(order).value.1)
    ensures !d.pred.Eq? && !d.pred.Ne?
  {
    match Match(order)
    case None => Decoded(Never, Some(DecodeError(order)))
    case Some((op, num)) =>
      match ParseDecimal(num)
      case None => Decoded(NilFunc, None)
      case Some(value) =>
        var captured := [op];
        if captured == ">" then Decoded(Gt(value), None)
        else if captured == "<" then Decoded(Lt(value), None)
        else if captured == "==" then Decoded(Eq(value), None)
        else if captured == "!=" then Decoded(Ne(value), None)
        else Decoded(Never, Some(DecodeError(order)))
  }

  /** Spaces, '>', spaces and a number t decode to the strict test `v > t` with no error. */
  lemma DecodeGreater(pre: string, mid: string, num: string)
    requires Shape(pre, '>', mid, num) && HasDigit(num)
    ensures var d := Decode(pre + ">" + mid + num);
      && d.err.None?
      && d.pred == Gt(ParseDecimal(num).value)
      && forall v :: Holds(d.pred, v) <==> v > ParseDecimal(num).value
  {
    MatchComplete(pre, '>', mid, num);
  }

  /** Spaces, '<', spaces and a number t decode to the strict test `v < t` with no error. */
  lemma DecodeLess(pre: string, mid: string, num: string)
    requires Shape(pre, '<', mid, num) && HasDigit(num)
    ensures var d := Decode(pre + "<" + mid + num);
      && d.err.None?
      && d.pred == Lt(ParseDecimal(num).value)
      && forall v :: Holds(d.pred, v) <==> v < ParseDecimal(num).value
  {
    MatchComplete(pre, '<', mid, num);
  }

  /** The test decoded from ">0.75" is strict: false at 0.75 itself, true at 0.76. */
  lemma DecodeStrictBoundary()
    ensures Decode(">0.75") == Decoded(Gt(0.75), None)
    ensures !Holds(Decode(">0.75").pred, 0.75)
    ensures Holds(Decode(">0.75").pred, 0.76)
  {
    ParseDecimalExample();
    assert IsDigit("0.75"[0]);
    assert "" + ">" + "" + "0.75" == ">0.75";
    DecodeGreater("", "", "0.75");
  }

  /** A string the pattern rejects decodes to an error and a closure false everywhere. */
  lemma DecodeRejected(s: string)
    requires Match(s).None?
    ensures Decode(s).err == Some(DecodeError(s))
    ensures forall v :: !Holds(Decode(s).pred, v)
  {
  }

  /** A two-character operator is rejected: only one operator character is allowed. */
  lemma DecodeRejectsDoubleEquals()
    ensures Match("==0.5").None? && Decode("==0.5").err.Some?
  {
    var rest := "=0.5";
    assert "==0.5"[1..] == rest;
    assert IntPart(rest)[0] == '=';
  }

  /** A character outside the operator set is rejected. */
  lemma DecodeRejectsTilde()
    ensures Match("~0.5").None? && Decode("~0.5").err.Some?
  {
  }

  /** Trailing whitespace is rejected: the number must end the string. */
  lemma DecodeRejectsTrailingSpace()
    ensures Match(">0.5 ").None? && Decode(">0.5 ").err.Some?
  {
    var rest := "0.5 ";
    assert ">0.5 "[1..] == rest;
    assert DotIndex(rest) == 1;
    assert FracPart(rest) == "5 ";
    assert FracPart(rest)[1] == ' ';
  }

  /** '=', '!' or '|' with a number passes the syntax check but no switch case:
      the result is the error with the always-false closure. */
  lemma DecodeUnknownOperator(pre: string, op: char, mid: string, num: string)
    requires Shape(pre, op, mid, num) && HasDigit(num)
    requires op == '=' || op == '!' || op == '|'
    ensures var d := Decode(pre + [op] + mid + num);
      && d.err == Some(DecodeError(pre + [op] + mid + num))
      && forall v :: !Holds(d.pred, v)
  {
    MatchComplete(pre, op, mid, num);
  }

  /** An operator followed by an empty or lone-'.' number gives a nil closure and no error. */
  lemma DecodeNoDigits(pre: string, op: char, mid: string, num: string)
    requires Shape(pre, op, mid, num) && (num == "" || num == ".")
    ensures Decode(pre + [op] + mid + num) == Decoded(NilFunc, None)
  {
    MatchComplete(pre, op, mid, num);
    assert DotIndex(".") == 0;
    assert FracPart(".") == "";
  }

  /** The decoder never yields an equality or inequality test. */
  lemma DecodeNeverEquality(s: string)
    ensures !Decode(s).pred.Eq? && !Decode(s).pred.Ne?
  {
  }

  // ---------------------------------------------------------------------------
  // FloatValue
  // ---------------------------------------------------------------------------

  /** The FloatValue rule. Of its probe only whether it is set is kept (a nil
      probe is `hasProbe == false`): each check is given the reading
      `Probe.Value()` returns. */
  datatype FloatValue = FloatValue(serviceName: string, scale: Scaler, hasProbe: bool, refreshRate: int, up: Pred, down: Pred)

  /** Which scaler method a check called. */
  datatype ScalerCall = CallUp | CallDown

  /** How a check ended: returning an error value (None is nil), or a run-time
      panic from reading a nil probe or calling a nil closure. */
  datatype Outcome = Returned(err: Option<string>) | Panicked

  /** One check: the scaler calls in order, the rule afterwards (its scaler may
      have changed state) and the outcome. The probe is read once per check; that
      reading is the check's input v. */
  datatype CheckRun = CheckRun(calls: seq<ScalerCall>, rule: FloatValue, outcome: Outcome)

  /** `FloatValue.Check` on the reading v; `exec` is the result of the scaler's
      command, if one is run. Up and Down both holding is a conflict and nothing
      is done; otherwise the holding side's scaler method is called once; a
      scaler error is logged and swallowed. A nil probe panics at the read, and
      a nil closure panics before any scaler call. */
  function Check(r: FloatValue, v: real, exec: Option<string>): (c: CheckRun)
    ensures c.outcome.Panicked? <==> !r.hasProbe || r.up.NilFunc? || r.down.NilFunc?
    ensures c.outcome.Returned? ==> c.outcome.err.None?
    ensures c.rule == r.(scale := c.rule.scale)
    ensures c.outcome.Panicked? ==> c.calls == [] && c.rule == r
    ensures r.hasProbe && !r.up.NilFunc? && !r.down.NilFunc? ==>
      && (Holds(r.up, v) && Holds(r.down, v) ==> c.calls == [] && c.rule == r)
      && (Holds(r.up, v) && !Holds(r.down, v) ==>
            c.calls == [CallUp] && c.rule.scale == ScalerUp(r.scale, exec).next)
      && (!Holds(r.up, v) && Holds(r.down, v) ==>
            c.calls == [CallDown] && c.rule.scale == ScalerDown(r.scale, exec).next)
      && (!Holds(r.up, v) && !Holds(r.down, v) ==> c.calls == [] && c.rule == r)
  {
    if !r.hasProbe || r.up.NilFunc? || r.down.NilFunc? then CheckRun([], r, Panicked)
    else if Holds(r.up, v) && Holds(r.down, v) then CheckRun([], r, Returned(None))
    else if Holds(r.up, v) then
      var step := ScalerUp(r.scale, exec);
      CheckRun([CallUp], r.(scale := step.next), Returned(None))
    else if Holds(r.down, v) then
      var step := ScalerDown(r.scale, exec);
      CheckRun([CallDown], r.(scale := step.next), Returned(None))
    else CheckRun([], r, Returned(None))
  }

  /** `FloatValue.CheckInterval`: the configured refresh rate. */
  function CheckInterval(r: FloatValue): int {
    r.refreshRate
  }

  /** A check never changes the rule's interval, so along any trace of checks
      `CheckInterval` stays the configured refresh rate. */
  lemma {:induction false} CheckIntervalSteady(r: FloatValue, steps: seq<(real, Option<string>)>)
    ensures forall i :: 0 <= i < |steps| ==> CheckInterval(CheckTrace(r, steps)[i].rule) == r.refreshRate
    decreases |steps|
  {
    if |steps| > 0 {
      var c := Check(r, steps[0].0, steps[0].1);
      var tail := CheckTrace(c.rule, steps[1..]);
      CheckIntervalSteady(c.rule, steps[1..]);
      assert CheckTrace(r, steps) == [c] + tail;
      forall i | 1 <= i < |steps| ensures CheckTrace(r, steps)[i] == tail[i - 1] { }
    }
  }

  /** At most one scaler call per check, and never both directions. */
  lemma CheckCallsAtMostOne(r: FloatValue, v: real, exec: Option<string>)
    ensures |Check(r, v, exec).calls| <= 1
  {
  }

  /** A failing scaler command is swallowed: the check still returns nil. */
  lemma CheckSwallowsScalerError(r: FloatValue, v: real, e: string)
    requires r.hasProbe && !r.up.NilFunc? && !r.down.NilFunc?
    ensures Check(r, v, Some(e)).outcome == Returned(None)
    ensures r.scale.Compose? ==> Check(r, v, Some(e)).rule == r
  {
  }

  /** A rule whose compose scaler has at least one container keeps at least one after a check. */
  lemma CheckKeepsAtLeastOne(r: FloatValue, v: real, exec: Option<string>)
    requires r.scale.Compose? && AtLeastOne(r.scale.compose)
    ensures Check(r, v, exec).rule.scale.Compose?
    ensures AtLeastOne(Check(r, v, exec).rule.scale.compose)
  {
  }

  /** A rule decoded from ">0.75" and "<0.25" with the mock scaler: 0.9 scales
      up once, 0.1 scales down once, 0.5 calls nothing; every check returns nil. */
  lemma QuadrantRule(name: string, rate: int)
    ensures var r := FloatValue(name, Mock, true, rate, Decode(">0.75").pred, Decode("<0.25").pred);
      && Check(r, 0.9, None) == CheckRun([CallUp], r, Returned(None))
      && Check(r, 0.1, None) == CheckRun([CallDown], r, Returned(None))
      && Check(r, 0.5, None) == CheckRun([], r, Returned(None))
  {
    DecodeStrictBoundary();
    DecodeQuarter();
    CheckQuadrant(FloatValue(name, Mock, true, rate, Gt(0.75), Lt(0.25)));
  }

  /** The quadrant decisions for the thresholds themselves. */
  lemma CheckQuadrant(r: FloatValue)
    requires r.scale == Mock && r.hasProbe && r.up == Gt(0.75) && r.down == Lt(0.25)
    ensures Check(r, 0.9, None) == CheckRun([CallUp], r, Returned(None))
    ensures Check(r, 0.1, None) == CheckRun([CallDown], r, Returned(None))
    ensures Check(r, 0.5, None) == CheckRun([], r, Returned(None))
  {
  }

  lemma DecodeQuarter()
    ensures Decode("<0.25") == Decoded(Lt(0.25), None)
  {
    ParseDecimalQuarter();
    assert IsDigit("0.25"[0]);
    assert "" + "<" + "" + "0.25" == "<0.25";
    DecodeLess("", "", "0.25");
  }

  /** Overlapping thresholds: at a reading both accept, the check does nothing. */
  lemma ConflictDoesNothing(r: FloatValue, v: real, exec: Option<string>)
    requires r.hasProbe && r.up == Gt(0.2) && r.down == Lt(0.8) && 0.2 < v < 0.8
    ensures Check(r, v, exec) == CheckRun([], r, Returned(None))
  {
  }

  // ---------------------------------------------------------------------------
  // Watcher
  // ---------------------------------------------------------------------------

  /** What a Watcher did over a finite trace of check outcomes: how many checks
      it ran, the intervals it slept, the errors it sent on the channel, whether
      it ended, and whether it ended by a panic (which, unrecovered in the
      watcher's goroutine, ends the whole process). */
  datatype WatcherRun = WatcherRun(checks: nat, sleeps: seq<int>, sent: seq<string>, stopped: bool, panicked: bool)

  /** An outcome that ends the watcher's loop: a non-nil error or a panic. */
  predicate Ends(o: Outcome) {
    o.Panicked? || o.err.Some?
  }

  predicate HasEnd(outcomes: seq<Outcome>) {
    exists i :: 0 <= i < |outcomes| && Ends(outcomes[i])
  }

  /** Index of the first outcome that ends the loop. */
  function FirstEnd(outcomes: seq<Outcome>): (k: nat)
    requires HasEnd(outcomes)
    ensures k < |outcomes| && Ends(outcomes[k])
    ensures forall j :: 0 <= j < k ==> !Ends(outcomes[j])
  {
    if Ends(outcomes[0]) then 0
    else
      assert HasEnd(outcomes[1..]) by {
        var i :| 0 <= i < |outcomes| && Ends(outcomes[i]);
        assert Ends(outcomes[1..][i - 1]);
      }
      1 + FirstEnd(outcomes[1..])
  }

  /** `Watcher` over the outcomes of its successive checks: it checks up to and
      including the first error or panic. An error is sent once on the channel
      and the watcher returns; a panic sends nothing. After each check returning
      nil it sleeps for the interval. When no check ends the loop, all of the
      trace is checked and the watcher is still running. */
  function Watch(outcomes: seq<Outcome>, interval: int): (w: WatcherRun)
    ensures w.stopped <==> HasEnd(outcomes)
    ensures w.stopped ==>
      var k := FirstEnd(outcomes);
      && w.checks == k + 1 && |w.sleeps| == k
      && (w.panicked <==> outcomes[k].Panicked?)
      && w.sent == (if outcomes[k].Panicked? then [] else [outcomes[k].err.value])
    ensures !w.stopped ==> w.checks == |outcomes| && |w.sleeps| == |outcomes| && w.sent == [] && !w.panicked
    ensures forall i :: 0 <= i < |w.sleeps| ==> w.sleeps[i] == interval
    decreases |outcomes|
  {
    if |outcomes| == 0 then WatcherRun(0, [], [], false, false)
    else if outcomes[0].Panicked? then WatcherRun(1, [], [], true, true)
    else if outcomes[0].err.Some? then WatcherRun(1, [], [outcomes[0].err.value], true, false)
    else
      var w := Watch(outcomes[1..], interval);
      assert HasEnd(outcomes) ==> HasEnd(outcomes[1..]) by {
        if HasEnd(outcomes) {
          var i :| 0 <= i < |outcomes| && Ends(outcomes[i]);
          assert Ends(outcomes[1..][i - 1]);
        }
      }
      assert HasEnd(outcomes[1..]) ==> HasEnd(outcomes) by {
        if HasEnd(outcomes[1..]) {
          var i :| 0 <= i < |outcomes[1..]| && Ends(outcomes[1..][i]);
          assert Ends(outcomes[i + 1]);
        }
      }
      WatcherRun(w.checks + 1, [interval] + w.sleeps, w.sent, w.stopped, w.panicked)
  }

  /** The outcome of each check of a trace. */
  function Outcomes(runs: seq<CheckRun>): (os: seq<Outcome>)
    ensures |os| == |runs|
    ensures forall i :: 0 <= i < |runs| ==> os[i] == runs[i].outcome
  {
    seq(|runs|, i requires 0 <= i < |runs| => runs[i].outcome)
  }

  /** Successive checks of one rule, one per (reading, command result) step; the
      rule carries its scaler's state from one check to the next. */
  function CheckTrace(r: FloatValue, steps: seq<(real, Option<string>)>): (runs: seq<CheckRun>)
    ensures |runs| == |steps|
    decreases |steps|
  {
    if |steps| == 0 then []
    else
      var c := Check(r, steps[0].0, steps[0].1);
      [c] + CheckTrace(c.rule, steps[1..])
  }

  /** Along a trace of checks of a rule with a probe and non-nil closures, every check
      returns nil and the closures and refresh rate never change. */
  lemma {:induction false} CheckTraceReturnsNil(r: FloatValue, steps: seq<(real, Option<string>)>)
    requires r.hasProbe && !r.up.NilFunc? && !r.down.NilFunc?
    ensures forall i :: 0 <= i < |steps| ==> CheckTrace(r, steps)[i].outcome == Returned(None)
    ensures forall i :: 0 <= i < |steps| ==>
      CheckTrace(r, steps)[i].rule.up == r.up && CheckTrace(r, steps)[i].rule.down == r.down
    ensures forall i :: 0 <= i < |steps| ==> CheckTrace(r, steps)[i].rule.refreshRate == r.refreshRate
    decreases |steps|
  {
    if |steps| > 0 {
      var c := Check(r, steps[0].0, steps[0].1);
      var tail := CheckTrace(c.rule, steps[1..]);
      CheckTraceReturnsNil(c.rule, steps[1..]);
      assert CheckTrace(r, steps) == [c] + tail;
      forall i | 1 <= i < |steps| ensures CheckTrace(r, steps)[i] == tail[i - 1] { }
    }
  }

  /** Along any trace of checks, a compose scaler that starts with at least one
      container keeps at least one. */
  lemma {:induction false} CheckTraceKeepsAtLeastOne(r: FloatValue, steps: seq<(real, Option<string>)>)
    requires r.scale.Compose? && AtLeastOne(r.scale.compose)
    ensures forall i :: 0 <= i < |steps| ==>
      CheckTrace(r, steps)[i].rule.scale.Compose? && AtLeastOne(CheckTrace(r, steps)[i].rule.scale.compose)
    decreases |steps|
  {
    if |steps| > 0 {
      var c := Check(r, steps[0].0, steps[0].1);
      var tail := CheckTrace(c.rule, steps[1..]);
      CheckKeepsAtLeastOne(r, steps[0].0, steps[0].1);
      CheckTraceKeepsAtLeastOne(c.rule, steps[1..]);
      assert CheckTrace(r, steps) == [c] + tail;
      forall i | 1 <= i < |steps| ensures CheckTrace(r, steps)[i] == tail[i - 1] { }
    }
  }

  /** A FloatValue rule with a probe and non-nil closures never returns an error, so its
      Watcher runs every check of the trace, sends nothing, and sleeps
      `CheckInterval` (the refresh rate) after each check. */
  lemma WatchFloatValue(r: FloatValue, steps: seq<(real, Option<string>)>)
    requires r.hasProbe && !r.up.NilFunc? && !r.down.NilFunc?
    ensures var w := Watch(Outcomes(CheckTrace(r, steps)), CheckInterval(r));
      && w.checks == |steps| && w.sent == [] && !w.stopped && !w.panicked
      && |w.sleeps| == |steps|
      && forall i :: 0 <= i < |w.sleeps| ==> w.sleeps[i] == r.refreshRate
  {
    CheckTraceReturnsNil(r, steps);
    var os := Outcomes(CheckTrace(r, steps));
    assert !HasEnd(os) by {
      forall i | 0 <= i < |os| ensures !Ends(os[i]) {
        assert os[i] == CheckTrace(r, steps)[i].outcome;
      }
    }
  }

  /** A rule with a nil closure (decoded from an order whose number has no digit,
      such as ">") panics on its first check: the watcher runs one check, sends
      nothing, never sleeps, and the process ends. */
  lemma WatchNilClosure(r: FloatValue, steps: seq<(real, Option<string>)>)
    requires r.up.NilFunc? || r.down.NilFunc?
    requires |steps| > 0
    ensures Watch(Outcomes(CheckTrace(r, steps)), CheckInterval(r)) == WatcherRun(1, [], [], true, true)
  {
    var os := Outcomes(CheckTrace(r, steps));
    assert os[0] == Panicked;
  }

  /** A rule whose probe is nil (the configuration accepts one for an invalid
      `hap` or `prom` reference) panics at the probe read of its first check:
      the watcher runs one check, sends nothing, never sleeps, and the process
      ends. */
  lemma WatchNilProbe(r: FloatValue, steps: seq<(real, Option<string>)>)
    requires !r.hasProbe
    requires |steps| > 0
    ensures Watch(Outcomes(CheckTrace(r, steps)), CheckInterval(r)) == WatcherRun(1, [], [], true, true)
  {
    var os := Outcomes(CheckTrace(r, steps));
    assert os[0] == Panicked;
  }

  /** The order ">" decodes to a nil closure with a nil error, so a rule built
      from it is accepted and then panics on its first check. */
  lemma DecodeBareOperator()
    ensures Decode(">") == Decoded(NilFunc, None)
  {
    assert "" + ['>'] + "" + "" == ">";
    DecodeNoDigits("", '>', "", "");
  }
}
