/** The live correction engine: a fixed table of strategies per defect type,
    a single global cooldown between corrections, and the resolution of
    relative temperature templates (`S+5`, `S-5`) against the printer's
    target temperatures. The engine drives the printer driver of
    PrinterControl, so every temperature query is a real `M105` exchange on
    the same link as the correction it serves. */
module CorrectionEngine {
  import opened Text
  import PrinterControl
  import AiModel

  // ---------------------------------------------------------------------
  // The strategy table

  /** One step of a strategy: a G-code template, the confidence it must
      exceed, and what it does. */
  datatype Rule = Rule(cmd: string, threshold: real, desc: string)

  /** The strategies, in priority order within each defect type. */
  const Corrections: map<string, seq<Rule>> := map[
    "warping" := [Rule("M140 S+5", 0.80, "Raise bed temp"), Rule("M220 S90", 0.90, "Slow to 90%")],
    "stringing" := [Rule("M104 S-5", 0.75, "Lower hotend temp"), Rule("M106 S255", 0.85, "Max fan")],
    "spaghetti" := [Rule("M112", 0.85, "Emergency stop")],
    "layer_skip" := [Rule("M112", 0.80, "Stop print")],
    "overhang_stringing" := [Rule("M220 S80", 0.80, "Slow to 80%")],
    "anomaly" := [Rule("M112", 0.90, "Emergency stop")]
  ]

  // ---------------------------------------------------------------------
  // Templates

  /** A template is relative when it holds `S+` or `S-`. */
  predicate IsDynamic(template: string) {
    Contains(template, "S+") || Contains(template, "S-")
  }

  /** The match of [+-]\d+ at position i, as int() reads it. */
  function SignedIntAt(s: string, i: nat): Option<int>
    requires i < |s|
  {
    if IsSign(s[i]) then
      var run := DigitRun(s, i + 1, 0);
      if run.0 == i + 1 then None else Some(Signed(s[i], run.1))
    else None
  }

  function SignedInts(s: string): (r: seq<Option<int>>)
    ensures |r| == |s|
  {
    seq(|s|, i requires 0 <= i < |s| => SignedIntAt(s, i))
  }

  /** The first element of re.findall(r'[+-]\d+', s), read as an int; None
      when the list is empty (the IndexError the engine turns into None). */
  function FirstSignedInt(s: string): Option<int> {
    FirstSome(SignedInts(s), 0)
  }

  predicate IsSign(c: char) { c == '+' || c == '-' }

  function Signed(sign: char, n: nat): int {
    var v: int := n;
    if sign == '-' then -v else v
  }

  /** A sign at p followed by a digit run, with no sign before p, is the
      first signed integer of s, read in full. */
  lemma FirstSignedIntAt(s: string, p: nat, digits: string)
    requires p < |s| && IsSign(s[p])
    requires forall k :: 0 <= k < p ==> !IsSign(s[k])
    requires |digits| >= 1 && AllDigits(digits) && TextAt(s, p + 1, digits)
    requires p + 1 + |digits| == |s| || !IsDigit(s[p + 1 + |digits|])
    ensures FirstSignedInt(s) == Some(Signed(s[p], DigitsValue(digits)))
  {
    DigitRunOver(s, p + 1, digits, 0);
    var ms := SignedInts(s);
    assert ms[p] == SignedIntAt(s, p) == Some(Signed(s[p], DigitsValue(digits)));
    forall k | 0 <= k < p ensures ms[k].None? {
      assert ms[k] == SignedIntAt(s, k);
    }
    FirstSomeAt(ms, 0, p);
  }

  /** Any text without a sign before its first sign-and-digits reads the
      delta from there. */
  lemma LeadingSignedInt(prefix: string, sign: char, digits: string, rest: string)
    requires forall k :: 0 <= k < |prefix| ==> !IsSign(prefix[k])
    requires IsSign(sign)
    requires |digits| >= 1 && AllDigits(digits)
    requires rest == [] || !IsDigit(rest[0])
    ensures FirstSignedInt(prefix + [sign] + digits + rest) == Some(Signed(sign, DigitsValue(digits)))
  {
    var s := prefix + [sign] + digits + rest;
    var p := |prefix|;
    forall k | 0 <= k < p ensures !IsSign(s[k]) {
      assert s[k] == prefix[k];
    }
    assert TextAt(s, p + 1, digits) by {
      forall k | 0 <= k < |digits| ensures s[p + 1 + k] == digits[k] {
        assert s[p + 1 + k] == (prefix + [sign] + digits)[p + 1 + k];
      }
    }
    if rest != [] {
      assert s[p + 1 + |digits|] == rest[0];
    }
    assert s[p] == sign;
    FirstSignedIntAt(s, p, digits);
  }

  /** The two relative templates of the table read as +5 and -5. */
  lemma TableDeltas()
    ensures FirstSignedInt("M140 S+5") == Some(5)
    ensures FirstSignedInt("M104 S-5") == Some(-5)
  {
    TableDelta("M140 S+5");
    TableDelta("M104 S-5");
  }

  lemma TableDelta(t: string)
    requires t == "M140 S+5" || t == "M104 S-5"
    ensures FirstSignedInt(t) == Some(if t[6] == '-' then -5 else 5)
  {
    assert DigitsValue("5") == 5 by { assert "5"[..0] == ""; }
    assert TextAt(t, 7, "5");
    FirstSignedIntAt(t, 6, "5");
  }

  /** What the table's templates contain. */
  lemma TemplateCodes()
    ensures IsDynamic("M140 S+5") && Contains("M140 S+5", "M140")
    ensures IsDynamic("M104 S-5") && Contains("M104 S-5", "M104") && !Contains("M104 S-5", "M140")
  {
    assert TextAt("M140 S+5", 5, "S+");
    ContainsByText("M140 S+5", "S+", 5);
    assert TextAt("M104 S-5", 5, "S-");
    ContainsByText("M104 S-5", "S-", 5);
    assert TextAt("M140 S+5", 0, "M140");
    ContainsByText("M140 S+5", "M140", 0);
    assert TextAt("M104 S-5", 0, "M104");
    ContainsByText("M104 S-5", "M104", 0);
    NotContainsByPair("M104 S-5", "M140", 2);
  }

  /** parse_dynamic_command after its temperature read: a static template is
      the command itself; a relative one needs the temperatures, a signed
      integer (the delta) and one of the codes M140 (bed) or M104 (hotend),
      and moves that heater's target by the delta. */
  function Resolve(template: string, temps: Option<PrinterControl.Temps>): Option<string> {
    if !IsDynamic(template) then Some(template)
    else if temps.None? then None
    else match FirstSignedInt(template)
      case None => None
      case Some(delta) =>
        if Contains(template, "M140") then Some("M140 S" + FloatText(Plus(temps.value.bedTarget, delta)))
        else if Contains(template, "M104") then Some("M104 S" + FloatText(Plus(temps.value.hotendTarget, delta)))
        else None
  }

  /** The adjusted heater of a relative template, and the target it moves. */
  function Target(template: string, temps: PrinterControl.Temps): Decimal {
    if Contains(template, "M140") then temps.bedTarget else temps.hotendTarget
  }

  /** A resolved relative template is a set-temperature command for the
      heater its code names, whose number reads back as that heater's target
      plus the delta; the measured temperatures play no part. */
  lemma ResolvedSetpoint(template: string, temps: PrinterControl.Temps)
    requires IsDynamic(template) && Resolve(template, Some(temps)).Some?
    ensures FirstSignedInt(template).Some?
    ensures Contains(template, "M140") || Contains(template, "M104")
    ensures var c := Resolve(template, Some(temps)).value;
      && |c| > 6
      && c[..6] == (if Contains(template, "M140") then "M140 S" else "M104 S")
      && var target := Value(Target(template, temps)) + FirstSignedInt(template).value as real;
         (target >= 0.0 ==>
           && NumberAt(c[6..], 0).Some?
           && NumberAt(c[6..], 0).value.1 == |c| - 6
           && Value(NumberAt(c[6..], 0).value.0) == target)
    ensures forall hotend: Decimal, bed: Decimal ::
      Resolve(template, Some(temps.(hotend := hotend, bed := bed))) == Resolve(template, Some(temps))
  {
    var delta := FirstSignedInt(template).value;
    var moved := Plus(Target(template, temps), delta);
    var c := Resolve(template, Some(temps)).value;
    var head := if Contains(template, "M140") then "M140 S" else "M104 S";
    assert c == head + FloatText(moved);
    assert c[6..] == FloatText(moved);
    if Value(moved) >= 0.0 {
      NonNegativeUnits(moved);
      FloatTextReadsBack(moved);
    }
  }

  lemma NonNegativeUnits(d: Decimal)
    requires Value(d) >= 0.0
    ensures d.units >= 0
  {
  }

  /** The relative templates of the table. */
  lemma TableResolutions(temps: PrinterControl.Temps)
    ensures Resolve("M140 S+5", Some(temps)) == Some("M140 S" + FloatText(Plus(temps.bedTarget, 5)))
    ensures Resolve("M104 S-5", Some(temps)) == Some("M104 S" + FloatText(Plus(temps.hotendTarget, -5)))
    ensures Resolve("M140 S+5", None) == None && Resolve("M104 S-5", None) == None
  {
    TableDeltas();
    TemplateCodes();
  }

  /** The templates of the table without `S+`/`S-` are static. */
  lemma StaticTemplate(template: string)
    requires template in {"M220 S90", "M106 S255", "M112", "M220 S80"}
    ensures !IsDynamic(template)
  {
    NotContainsByPair(template, "S+", 1);
    NotContainsByPair(template, "S-", 1);
  }

  // ---------------------------------------------------------------------
  // Walking the strategy of one defect

  /** The printer link after resolving a template, and the command. */
  datatype Resolved = Resolved(link: PrinterControl.Link, cmd: Option<string>)

  /** parse_dynamic_command on a printer link: a relative template first
      queries the temperatures with M105. */
  function Resolution(l: PrinterControl.Link, template: string): Resolved {
    if IsDynamic(template) then
      var q := PrinterControl.Send(l, PrinterControl.GetTemp);
      Resolved(q.link, Resolve(template, PrinterControl.TempsOf(q.reply)))
    else Resolved(l, Some(template))
  }

  /** The queries resolving a template sends. */
  function Queries(template: string): seq<string> {
    if IsDynamic(template) then [PrinterControl.GetTemp] else []
  }

  /** The outcome of a walk over rules: the link afterwards, every command
      written (queries included), and the correction applied. */
  datatype Walked = Walked(link: PrinterControl.Link, sent: seq<string>, applied: Option<string>)

  /** The `for` loop of apply_live_correction: rules whose threshold the
      confidence does not strictly exceed are passed over; the first one
      that resolves is sent and ends the walk; one that does not resolve is
      passed over after its query. */
  function Walk(rules: seq<Rule>, confidence: real, l: PrinterControl.Link): Walked
    decreases |rules|
  {
    if rules == [] then Walked(l, [], None)
    else if confidence > rules[0].threshold then
      var r := Resolution(l, rules[0].cmd);
      if r.cmd.Some? then
        Walked(PrinterControl.Send(r.link, r.cmd.value).link, Queries(rules[0].cmd) + [r.cmd.value], r.cmd)
      else
        var w := Walk(rules[1..], confidence, r.link);
        Walked(w.link, Queries(rules[0].cmd) + w.sent, w.applied)
    else Walk(rules[1..], confidence, l)
  }

  /** The walk changes the link by sending its commands one after another,
      so the written lines are exactly those commands in order. */
  lemma {:induction false} WalkSendsInOrder(rules: seq<Rule>, confidence: real, l: PrinterControl.Link)
    ensures Walk(rules, confidence, l).link == PrinterControl.SendAll(l, Walk(rules, confidence, l).sent)
    ensures PrinterControl.Writes(Walk(rules, confidence, l).link.trace)
         == PrinterControl.Writes(l.trace) + PrinterControl.Framed(Walk(rules, confidence, l).sent)
    decreases |rules|
  {
    var w := Walk(rules, confidence, l);
    if rules != [] {
      var q := Queries(rules[0].cmd);
      var r := Resolution(l, rules[0].cmd);
      assert r.link == PrinterControl.SendAll(l, q) by {
        if IsDynamic(rules[0].cmd) { PrinterControl.SendAllOne(l, PrinterControl.GetTemp); }
      }
      if confidence > rules[0].threshold {
        if r.cmd.Some? {
          PrinterControl.SendAllOne(r.link, r.cmd.value);
          PrinterControl.SendAllAppend(l, q, [r.cmd.value]);
        } else {
          WalkSendsInOrder(rules[1..], confidence, r.link);
          PrinterControl.SendAllAppend(l, q, Walk(rules[1..], confidence, r.link).sent);
        }
      } else {
        WalkSendsInOrder(rules[1..], confidence, l);
      }
    }
    PrinterControl.SendAllWritesInOrder(l, w.sent);
  }

  /** n temperature queries. */
  function Polls(n: nat): (r: seq<string>)
    ensures |r| == n && forall k :: 0 <= k < n ==> r[k] == PrinterControl.GetTemp
  {
    seq(n, _ => PrinterControl.GetTemp)
  }

  /** The correction of a walk, as a list of at most one command. */
  function Correction(applied: Option<string>): seq<string> {
    if applied.Some? then [applied.value] else []
  }

  lemma PollsAppend(q: seq<string>, m: nat, c: seq<string>)
    requires q == [] || q == [PrinterControl.GetTemp]
    ensures q + (Polls(m) + c) == Polls(|q| + m) + c
  {
    assert q + Polls(m) == Polls(|q| + m);
  }

  /** At most one correction per walk: the commands written are n
      temperature queries followed by the correction, if there is one. */
  lemma {:induction false} WalkSendsOneCorrection(rules: seq<Rule>, confidence: real, l: PrinterControl.Link)
    returns (n: nat)
    ensures Walk(rules, confidence, l).sent == Polls(n) + Correction(Walk(rules, confidence, l).applied)
    decreases |rules|
  {
    if rules == [] {
      n := 0;
    } else if confidence > rules[0].threshold {
      var q := Queries(rules[0].cmd);
      var r := Resolution(l, rules[0].cmd);
      if r.cmd.Some? {
        n := |q|;
        PollsAppend(q, 0, [r.cmd.value]);
      } else {
        var m := WalkSendsOneCorrection(rules[1..], confidence, r.link);
        var w := Walk(rules[1..], confidence, r.link);
        PollsAppend(q, m, Correction(w.applied));
        n := |q| + m;
      }
    } else {
      n := WalkSendsOneCorrection(rules[1..], confidence, l);
    }
  }

  /** A rule the confidence takes: the confidence strictly exceeds its
      threshold. */
  predicate Takes(rule: Rule, confidence: real) {
    confidence > rule.threshold
  }

  /** When no rule is taken, the walk does nothing. */
  lemma {:induction false} WalkNoneTaken(rules: seq<Rule>, confidence: real, l: PrinterControl.Link)
    requires forall k :: 0 <= k < |rules| ==> !Takes(rules[k], confidence)
    ensures Walk(rules, confidence, l) == Walked(l, [], None)
    decreases |rules|
  {
    if rules != [] {
      assert !Takes(rules[0], confidence);
      WalkNoneTaken(rules[1..], confidence, l);
    }
  }

  /** The walk starts at the first rule taken, and that rule decides: a
      static template is sent as it is; a relative one is queried for and
      then sent resolved, or, when it does not resolve, the walk goes on
      with the next rule after the query. */
  lemma {:induction false} WalkFirstTaken(rules: seq<Rule>, confidence: real, l: PrinterControl.Link, k: nat)
    requires k < |rules| && Takes(rules[k], confidence)
    requires forall j :: 0 <= j < k ==> !Takes(rules[j], confidence)
    ensures var w := Walk(rules, confidence, l);
      && (!IsDynamic(rules[k].cmd) ==> w.sent == [rules[k].cmd] && w.applied == Some(rules[k].cmd))
      && (IsDynamic(rules[k].cmd) ==>
            var q := PrinterControl.Send(l, PrinterControl.GetTemp);
            var c := Resolve(rules[k].cmd, PrinterControl.TempsOf(q.reply));
            var rest := Walk(rules[k + 1..], confidence, q.link);
            && (c.Some? ==> w.sent == [PrinterControl.GetTemp, c.value] && w.applied == c)
            && (c.None? ==> w.sent == [PrinterControl.GetTemp] + rest.sent && w.applied == rest.applied))
    decreases k
  {
    if k > 0 {
      assert !Takes(rules[0], confidence);
      assert rules[1..][k - 1] == rules[k];
      assert rules[1..][k - 1 + 1..] == rules[k + 1..];
      WalkFirstTaken(rules[1..], confidence, l, k - 1);
    }
  }

  /** The link the walk holds when it reaches rule k: l after the queries
      of the relative rules taken before k. */
  function LinkAt(rules: seq<Rule>, confidence: real, l: PrinterControl.Link, k: nat): PrinterControl.Link
    requires k <= |rules|
    decreases k
  {
    if k == 0 then l
    else
      var r := Resolution(l, rules[0].cmd);
      LinkAt(rules[1..], confidence, if confidence > rules[0].threshold then r.link else l, k - 1)
  }

  /** Every correction applied is the resolution, on the link the walk
      holds there, of a rule the confidence takes, and every rule before it
      was either not taken or did not resolve. */
  lemma {:induction false} WalkAppliesTakenRule(rules: seq<Rule>, confidence: real, l: PrinterControl.Link)
    requires Walk(rules, confidence, l).applied.Some?
    ensures exists k :: (0 <= k < |rules| && Takes(rules[k], confidence)
      && Resolution(LinkAt(rules, confidence, l, k), rules[k].cmd).cmd == Walk(rules, confidence, l).applied
      && forall j :: 0 <= j < k ==>
           !(Takes(rules[j], confidence) && Resolution(LinkAt(rules, confidence, l, j), rules[j].cmd).cmd.Some?))
    decreases |rules|
  {
    var r := Resolution(l, rules[0].cmd);
    if confidence > rules[0].threshold && r.cmd.Some? {
      assert Takes(rules[0], confidence) && Resolution(LinkAt(rules, confidence, l, 0), rules[0].cmd).cmd == Walk(rules, confidence, l).applied;
    } else {
      var l1 := if confidence > rules[0].threshold then r.link else l;
      var tail := rules[1..];
      WalkAppliesTakenRule(tail, confidence, l1);
      var k :| 0 <= k < |tail| && Takes(tail[k], confidence)
        && Resolution(LinkAt(tail, confidence, l1, k), tail[k].cmd).cmd == Walk(tail, confidence, l1).applied
        && forall j :: 0 <= j < k ==>
             !(Takes(tail[j], confidence) && Resolution(LinkAt(tail, confidence, l1, j), tail[j].cmd).cmd.Some?);
      assert tail[k] == rules[k + 1];
      assert LinkAt(rules, confidence, l, k + 1) == LinkAt(tail, confidence, l1, k);
      forall j | 0 <= j < k + 1
        ensures !(Takes(rules[j], confidence) && Resolution(LinkAt(rules, confidence, l, j), rules[j].cmd).cmd.Some?)
      {
        if j > 0 {
          assert tail[j - 1] == rules[j];
          assert LinkAt(rules, confidence, l, j) == LinkAt(tail, confidence, l1, j - 1);
        }
      }
    }
  }

  // ---------------------------------------------------------------------
  // The cooldown and one whole call

  /** Seconds between corrections. */
  const CooldownSeconds: real := 30.0

  /** is_cooldown_over: strictly more than the cooldown since the last
      correction. */
  predicate CooldownOver(last: real, cooldown: real, now: real) {
    now - last > cooldown
  }

  /** Right after a correction the cooldown is active; once over it stays
      over; at start-up (last correction at time 0) it is over exactly
      after the first 30 seconds. */
  lemma CooldownFacts(last: real, now: real, later: real)
    ensures !CooldownOver(now, CooldownSeconds, now)
    ensures CooldownOver(last, CooldownSeconds, now) && now <= later ==> CooldownOver(last, CooldownSeconds, later)
    ensures CooldownOver(0.0, CooldownSeconds, now) <==> now > 30.0
    ensures CooldownOver(last, CooldownSeconds, now) ==> now > last
  {
  }

  /** apply_live_correction, with the time of the cooldown check: a defect
      type without a strategy, or an active cooldown, does nothing; else the
      strategy of the defect's type is walked. */
  function Correct(table: map<string, seq<Rule>>, defect: AiModel.Defect, last: real, cooldown: real,
                   now: real, l: PrinterControl.Link): Walked
  {
    if defect.kind !in table || !CooldownOver(last, cooldown, now) then Walked(l, [], None)
    else Walk(table[defect.kind], defect.confidence, l)
  }

  /** The defect types that have a strategy, and the strategy of each. */
  lemma TableEntries()
    ensures Corrections.Keys == {"warping", "stringing", "spaghetti", "layer_skip", "overhang_stringing", "anomaly"}
    ensures Corrections["warping"] == [Rule("M140 S+5", 0.80, "Raise bed temp"), Rule("M220 S90", 0.90, "Slow to 90%")]
    ensures Corrections["stringing"] == [Rule("M104 S-5", 0.75, "Lower hotend temp"), Rule("M106 S255", 0.85, "Max fan")]
    ensures Corrections["spaghetti"] == [Rule("M112", 0.85, "Emergency stop")]
    ensures Corrections["layer_skip"] == [Rule("M112", 0.80, "Stop print")]
    ensures Corrections["overhang_stringing"] == [Rule("M220 S80", 0.80, "Slow to 80%")]
    ensures Corrections["anomaly"] == [Rule("M112", 0.90, "Emergency stop")]
  {
  }

  /** Whatever the confidence, a type without a strategy or a call within
      the cooldown sends nothing. */
  lemma CorrectNothing(table: map<string, seq<Rule>>, defect: AiModel.Defect, last: real, cooldown: real,
                       now: real, l: PrinterControl.Link)
    requires defect.kind !in table || !CooldownOver(last, cooldown, now)
    ensures Correct(table, defect, last, cooldown, now, l) == Walked(l, [], None)
  {
  }

  /** A strategy of one emergency stop stops the printer when the
      confidence exceeds its threshold, and does nothing otherwise. */
  lemma SingleStop(rules: seq<Rule>, confidence: real, l: PrinterControl.Link)
    requires |rules| == 1 && rules[0].cmd == "M112"
    ensures var w := Walk(rules, confidence, l);
      if confidence > rules[0].threshold then w.sent == ["M112"] && w.applied == Some("M112")
      else w == Walked(l, [], None)
  {
    StaticTemplate("M112");
    LastRule(rules, confidence, l);
  }

  /** spaghetti (0.85), layer_skip (0.80) and anomaly (0.90) stop the
      printer when their threshold is exceeded, and only then. */
  lemma StopTypes(defect: AiModel.Defect, last: real, now: real, l: PrinterControl.Link)
    requires defect.kind in {"spaghetti", "layer_skip", "anomaly"} && CooldownOver(last, CooldownSeconds, now)
    ensures var threshold := if defect.kind == "spaghetti" then 0.85 else if defect.kind == "layer_skip" then 0.80 else 0.90;
      var o := Correct(Corrections, defect, last, CooldownSeconds, now, l);
      if defect.confidence > threshold then o.sent == ["M112"] && o.applied == Some("M112")
      else o == Walked(l, [], None)
  {
    TableEntries();
    SingleStop(Corrections[defect.kind], defect.confidence, l);
  }

  /** Warping at a confidence above 0.90: the bed target is raised by 5
      when the temperature query answers, and only when it does not is the
      second rule (slow to 90%) sent. Between 0.80 and 0.90 a failed query
      leaves nothing but the query itself. */
  lemma WarpingOutcomes(confidence: real, l: PrinterControl.Link)
    requires confidence > 0.80
    ensures var q := PrinterControl.Send(l, PrinterControl.GetTemp);
      var temps := PrinterControl.TempsOf(q.reply);
      var w := Walk(Corrections["warping"], confidence, l);
      && (temps.Some? ==>
            w.sent == [PrinterControl.GetTemp, "M140 S" + FloatText(Plus(temps.value.bedTarget, 5))]
            && w.applied == Some("M140 S" + FloatText(Plus(temps.value.bedTarget, 5))))
      && (temps.None? && confidence > 0.90 ==> w.sent == [PrinterControl.GetTemp, "M220 S90"] && w.applied == Some("M220 S90"))
      && (temps.None? && confidence <= 0.90 ==> w.sent == [PrinterControl.GetTemp] && w.applied.None?)
  {
    TableEntries();
    TemplateCodes();
    StaticTemplate("M220 S90");
    TwoRuleWalk(Corrections["warping"], confidence, l);
    var temps := PrinterControl.TempsOf(PrinterControl.Send(l, PrinterControl.GetTemp).reply);
    if temps.Some? {
      TableResolutions(temps.value);
    } else {
      TableResolutions(PrinterControl.Temps(Decimal(0, 0), Decimal(0, 0), Decimal(0, 0), Decimal(0, 0)));
    }
  }

  /** Stringing at a confidence above 0.75: the hotend target is lowered by
      5 when the temperature query answers; otherwise the fan is set to full
      above 0.85, and nothing but the query is sent at or below it. */
  lemma StringingOutcomes(confidence: real, l: PrinterControl.Link)
    requires confidence > 0.75
    ensures var q := PrinterControl.Send(l, PrinterControl.GetTemp);
      var temps := PrinterControl.TempsOf(q.reply);
      var w := Walk(Corrections["stringing"], confidence, l);
      && (temps.Some? ==>
            w.sent == [PrinterControl.GetTemp, "M104 S" + FloatText(Plus(temps.value.hotendTarget, -5))]
            && w.applied == Some("M104 S" + FloatText(Plus(temps.value.hotendTarget, -5))))
      && (temps.None? && confidence > 0.85 ==> w.sent == [PrinterControl.GetTemp, "M106 S255"] && w.applied == Some("M106 S255"))
      && (temps.None? && confidence <= 0.85 ==> w.sent == [PrinterControl.GetTemp] && w.applied.None?)
  {
    TableEntries();
    TemplateCodes();
    StaticTemplate("M106 S255");
    TwoRuleWalk(Corrections["stringing"], confidence, l);
    var temps := PrinterControl.TempsOf(PrinterControl.Send(l, PrinterControl.GetTemp).reply);
    if temps.Some? {
      TableResolutions(temps.value);
    } else {
      TableResolutions(PrinterControl.Temps(Decimal(0, 0), Decimal(0, 0), Decimal(0, 0), Decimal(0, 0)));
    }
  }

  /** A strategy of a relative rule and then a static one. */
  lemma TwoRuleWalk(rules: seq<Rule>, confidence: real, l: PrinterControl.Link)
    requires |rules| == 2 && IsDynamic(rules[0].cmd) && !IsDynamic(rules[1].cmd)
    requires confidence > rules[0].threshold
    ensures var q := PrinterControl.Send(l, PrinterControl.GetTemp);
      var c := Resolve(rules[0].cmd, PrinterControl.TempsOf(q.reply));
      var w := Walk(rules, confidence, l);
      && (c.Some? ==> w.sent == [PrinterControl.GetTemp, c.value] && w.applied == c)
      && (c.None? && confidence > rules[1].threshold ==>
            w.sent == [PrinterControl.GetTemp, rules[1].cmd] && w.applied == Some(rules[1].cmd))
      && (c.None? && confidence <= rules[1].threshold ==> w.sent == [PrinterControl.GetTemp] && w.applied.None?)
  {
    var q := PrinterControl.Send(l, PrinterControl.GetTemp);
    WalkFirstTaken(rules, confidence, l, 0);
    LastRule(rules[1..], confidence, q.link);
  }

  /** A strategy of one static rule. */
  lemma LastRule(rules: seq<Rule>, confidence: real, l: PrinterControl.Link)
    requires |rules| == 1 && !IsDynamic(rules[0].cmd)
    ensures var w := Walk(rules, confidence, l);
      && (confidence > rules[0].threshold ==> w.sent == [rules[0].cmd] && w.applied == Some(rules[0].cmd))
      && (confidence <= rules[0].threshold ==> w.sent == [] && w.applied.None?)
  {
    if Takes(rules[0], confidence) {
      WalkFirstTaken(rules, confidence, l, 0);
    } else {
      WalkNoneTaken(rules, confidence, l);
    }
  }

  // ---------------------------------------------------------------------
  // The event log

  /** The entries of the event log the engine and the monitor write. */
  datatype LogEntry = DefectLogged(defect: AiModel.Defect) | CorrectionLogged(defect: AiModel.Defect, cmd: string)

  /** The event logger as the list of entries it has written. */
  class EventLog {
    var events: seq<LogEntry>

    constructor ()
      ensures events == []
    {
      events := [];
    }

    method LogDefect(defect: AiModel.Defect)
      modifies this
      ensures events == old(events) + [DefectLogged(defect)]
    {
      events := events + [DefectLogged(defect)];
    }

    method LogCorrection(defect: AiModel.Defect, cmd: string)
      modifies this
      ensures events == old(events) + [CorrectionLogged(defect, cmd)]
    {
      events := events + [CorrectionLogged(defect, cmd)];
    }
  }

  // ---------------------------------------------------------------------
  // The classes

  /** When the last correction was made, and how long to wait after it. */
  class LiveParameterTuner {
    var correctionCooldownSec: real
    var lastCorrectionTime: real

    constructor ()
      ensures correctionCooldownSec == CooldownSeconds && lastCorrectionTime == 0.0
    {
      correctionCooldownSec := CooldownSeconds;
      lastCorrectionTime := 0.0;
    }

    method IsCooldownOver(now: real) returns (over: bool)
      ensures over <==> now - lastCorrectionTime > correctionCooldownSec
    {
      over := now - lastCorrectionTime > correctionCooldownSec;
    }

    /** Starts a new cooldown at `now`. */
    method ResetCooldown(now: real)
      modifies this
      ensures lastCorrectionTime == now && correctionCooldownSec == old(correctionCooldownSec)
      ensures correctionCooldownSec > 0.0 ==> !CooldownOver(lastCorrectionTime, correctionCooldownSec, now)
    {
      lastCorrectionTime := now;
    }
  }

  class LiveCorrectionEngine {
    const printer: PrinterControl.LivePrinterControl
    const logger: EventLog
    const tuner: LiveParameterTuner
    const corrections: map<string, seq<Rule>>

    constructor (printer: PrinterControl.LivePrinterControl, logger: EventLog)
      ensures this.printer == printer && this.logger == logger && corrections == Corrections
      ensures fresh(tuner) && tuner.correctionCooldownSec == CooldownSeconds && tuner.lastCorrectionTime == 0.0
    {
      this.printer := printer;
      this.logger := logger;
      this.tuner := new LiveParameterTuner();
      this.corrections := Corrections;
    }

    /** parse_dynamic_command: a relative template queries the printer
        once for its temperatures. */
    method ParseDynamicCommandLive(template: string) returns (cmd: Option<string>)
      modifies printer
      ensures printer.State() == Resolution(old(printer.State()), template).link
      ensures cmd == Resolution(old(printer.State()), template).cmd
    {
      if IsDynamic(template) {
        var temps := printer.GetLiveTemp();
        if temps.None? {
          return None;
        }
        var delta := FirstSignedInt(template);
        if delta.None? {
          return None;
        }
        if Contains(template, "M140") {
          cmd := Some("M140 S" + FloatText(Plus(temps.value.bedTarget, delta.value)));
        } else if Contains(template, "M104") {
          cmd := Some("M104 S" + FloatText(Plus(temps.value.hotendTarget, delta.value)));
        } else {
          cmd := None;
        }
      } else {
        cmd := Some(template);
      }
    }

    /** apply_live_correction. The clock is read twice: `now` for the
        cooldown check and `later` when the cooldown is reset. The printer's
        reply to the correction is not looked at. */
    method ApplyLiveCorrection(defect: AiModel.Defect, now: real, later: real)
      modifies printer, logger, tuner
      ensures var o := Correct(corrections, defect, old(tuner.lastCorrectionTime), old(tuner.correctionCooldownSec),
                               now, old(printer.State()));
        && printer.State() == o.link
        && logger.events == old(logger.events) + (if o.applied.Some? then [CorrectionLogged(defect, o.applied.value)] else [])
        && tuner.lastCorrectionTime == (if o.applied.Some? then later else old(tuner.lastCorrectionTime))
        && tuner.correctionCooldownSec == old(tuner.correctionCooldownSec)
    {
      if defect.kind !in corrections {
        return;
      }
      var over := tuner.IsCooldownOver(now);
      if !over {
        return;
      }
      var rules := corrections[defect.kind];
      ghost var l0 := printer.State();
      ghost var done: seq<string> := [];
      for i := 0 to |rules|
        invariant var w := Walk(rules[i..], defect.confidence, printer.State());
          Walk(rules, defect.confidence, l0) == Walked(w.link, done + w.sent, w.applied)
        invariant logger.events == old(logger.events)
        invariant tuner.lastCorrectionTime == old(tuner.lastCorrectionTime)
        invariant tuner.correctionCooldownSec == old(tuner.correctionCooldownSec)
      {
        var rule := rules[i];
        assert rules[i..][1..] == rules[i + 1..];
        if defect.confidence > rule.threshold {
          ghost var before := printer.State();
          var cmd := ParseDynamicCommandLive(rule.cmd);
          if cmd.None? {
            done := done + Queries(rule.cmd);
            continue;
          }
          var _ := printer.SendLive(cmd.value);
          logger.LogCorrection(defect, cmd.value);
          tuner.ResetCooldown(later);
          break;
        }
      }
    }
  }
}
