/** The serial G-code driver of the printer (Marlin/RepRap conventions):
    the command templates, the send-and-wait-for-`ok` protocol over a link
    that can fault and is then reopened, and the parser for the reply to
    the temperature query M105. */
module PrinterControl {
  import opened Text

  // ---------------------------------------------------------------------
  // Command templates; `{}` marks where str.format puts the argument.

  const EmergencyStop := "M112"
  const GetTemp := "M105"
  const SetHotendTemp := "M104 S{}"
  const SetBedTemp := "M140 S{}"
  const AdjustSpeed := "M220 S{}"
  const AdjustFlow := "M221 S{}"
  const SetFan := "M106 S{}"
  const PausePrint := "M25"
  const ResumePrint := "M24"
  const HomeAll := "G28"
  const MoveTo := "G1 X{} Y{} Z{} F{}"
  const ShowMessage := "M117 {}"

  /** str.format with one argument: the first `{}` replaced by `arg`. */
  function Format(template: string, arg: string): string
    decreases |template|
  {
    if |template| < 2 then template
    else if template[0] == '{' && template[1] == '}' then arg + template[2..]
    else [template[0]] + Format(template[1..], arg)
  }

  lemma {:induction false} FormatAfterPrefix(prefix: string, arg: string)
    requires forall i :: 0 <= i < |prefix| ==> prefix[i] != '{'
    ensures Format(prefix + "{}", arg) == prefix + arg
    decreases |prefix|
  {
    var t := prefix + "{}";
    if prefix == [] {
      assert t == "{}" && t[2..] == [];
    } else {
      assert t[0] == prefix[0] != '{';
      assert t[1..] == prefix[1..] + "{}";
      FormatAfterPrefix(prefix[1..], arg);
      assert Format(t, arg) == [t[0]] + Format(t[1..], arg);
      assert [prefix[0]] + (prefix[1..] + arg) == prefix + arg;
    }
  }

  // ---------------------------------------------------------------------
  // The link

  /** What one readline() on the link yields: a line of device output, or
      a transport fault (SerialException). */
  datatype Rx = Line(text: string) | Fault

  /** What happened on the link, in order. */
  datatype Event = Opened | Wrote(data: string) | Read(line: string)

  /** The driver's state: whether the port is open, the input the device
      will still deliver, and everything that happened so far. */
  datatype Link = Link(connected: bool, device: seq<Rx>, trace: seq<Event>)

  /** How the wait for a reply ends. NoTerminal: the input ran out before a
      terminal line; the driver would keep reading empty lines forever. */
  datatype Verdict = Success | DeviceError | LinkFault | NoTerminal

  /** The verdict, the response buffer and the number of input items read. */
  datatype Scan = Scan(verdict: Verdict, buffer: string, used: nat)

  /** The success marker is case-sensitive. */
  predicate IsOkLine(line: string) { Contains(line, "ok") }

  /** The failure markers are compared in lower case. */
  predicate IsErrorLine(line: string) {
    Contains(Lower(line), "error") || Contains(Lower(line), "unknown command")
  }

  /** A scan result seen from `n` items earlier. */
  function Shifted(s: Scan, n: nat): Scan { s.(used := s.used + n) }

  /** What reading one item means to send_live: whether the reading stops
      there and with what verdict, and what it adds to the response
      buffer. */
  datatype Reading = Reading(stop: Option<Verdict>, piece: string)

  /** A fault stops the reading. A line is stripped; a blank one is
      skipped; any other is added to the buffer with a newline and stops
      the reading when it holds `ok` (whatever else it holds) or an error
      marker, `ok` taking precedence. */
  function ReadingOf(rx: Rx): Reading {
    match rx
    case Fault => Reading(Some(LinkFault), "")
    case Line(raw) =>
      var line := Strip(raw);
      if line == "" then Reading(None, "")
      else if IsOkLine(line) then Reading(Some(Success), line + "\n")
      else if IsErrorLine(line) then Reading(Some(DeviceError), line + "\n")
      else Reading(None, line + "\n")
  }

  /** A line is skipped, adding nothing, exactly when it is all whitespace;
      an `ok` line succeeds even when it also holds an error marker; an
      error line without `ok` fails; every other line is kept, stripped. */
  lemma ReadingCases(raw: string)
    ensures var r := ReadingOf(Line(raw));
      && (r.stop.None? && r.piece == "" <==> forall j :: 0 <= j < |raw| ==> IsSpace(raw[j]))
      && (IsOkLine(Strip(raw)) ==> r == Reading(Some(Success), Strip(raw) + "\n"))
      && (!IsOkLine(Strip(raw)) && IsErrorLine(Strip(raw)) && Strip(raw) != "" ==>
            r == Reading(Some(DeviceError), Strip(raw) + "\n"))
      && (r.stop.None? && r.piece != "" ==> r.piece == Strip(raw) + "\n")
  {
    StripEmpty(raw);
    if Strip(raw) == "" {
      assert !IsOkLine(Strip(raw));
    }
  }

  function Readings(items: seq<Rx>): (r: seq<Reading>)
    ensures |r| == |items|
  {
    seq(|items|, i requires 0 <= i < |items| => ReadingOf(items[i]))
  }

  /** The reading loop of send_live over the remaining input, given the
      response buffer so far: each item adds its piece to the buffer, and
      the first item that stops the reading decides the verdict. */
  function ScanFrom(rs: seq<Reading>, buffer: string): (s: Scan)
    ensures s.used <= |rs|
    ensures rs != [] ==> s.used >= 1
    ensures 1 <= s.used < |rs| ==> rs[s.used - 1].stop.Some?
    decreases |rs|
  {
    if rs == [] then Scan(NoTerminal, buffer, 0)
    else
      var b := buffer + rs[0].piece;
      match rs[0].stop
      case Some(v) => Scan(v, b, 1)
      case None => Shifted(ScanFrom(rs[1..], b), 1)
  }

  /** One step of the reading loop, at position n. */
  lemma ScanStep(rs: seq<Reading>, n: nat, buffer: string)
    requires n < |rs|
    ensures ScanFrom(rs[n..], buffer)
        == if rs[n].stop.Some? then Scan(rs[n].stop.value, buffer + rs[n].piece, 1)
           else Shifted(ScanFrom(rs[n + 1..], buffer + rs[n].piece), 1)
  {
    assert rs[n..][0] == rs[n];
    assert rs[n..][1..] == rs[n + 1..];
  }

  /** The loop meets a terminal reading at position n: the scan of the
      whole input ends there. */
  lemma ScanEnds(rs: seq<Reading>, n: nat, buffer: string)
    requires n < |rs| && rs[n].stop.Some?
    requires ScanFrom(rs, "") == Shifted(ScanFrom(rs[n..], buffer), n)
    ensures ScanFrom(rs, "") == Scan(rs[n].stop.value, buffer + rs[n].piece, n + 1)
  {
    ScanStep(rs, n, buffer);
  }

  /** The loop passes a reading that is not terminal at position n. */
  lemma ScanGoesOn(rs: seq<Reading>, n: nat, buffer: string)
    requires n < |rs| && rs[n].stop.None?
    requires ScanFrom(rs, "") == Shifted(ScanFrom(rs[n..], buffer), n)
    ensures ScanFrom(rs, "") == Shifted(ScanFrom(rs[n + 1..], buffer + rs[n].piece), n + 1)
  {
    ScanStep(rs, n, buffer);
  }

  /** The buffer text of the readings, in order. */
  function Shown(rs: seq<Reading>): string
    decreases |rs|
  {
    if rs == [] then "" else rs[0].piece + Shown(rs[1..])
  }

  /** Reading stops at the first item that is a fault or a terminal line;
      the buffer then holds every non-blank line up to and including it. */
  lemma {:induction false} ScanStopsAtFirstTerminal(rs: seq<Reading>, buffer: string, k: nat)
    requires k < |rs| && rs[k].stop.Some?
    requires forall j :: 0 <= j < k ==> rs[j].stop.None?
    ensures ScanFrom(rs, buffer) == Scan(rs[k].stop.value, buffer + Shown(rs[..k + 1]), k + 1)
    decreases k
  {
    var b := buffer + rs[0].piece;
    if k == 0 {
      assert Shown(rs[..1]) == rs[0].piece + Shown([]);
    } else {
      assert rs[0].stop.None?;
      ScanStopsAtFirstTerminal(rs[1..], b, k - 1);
      assert rs[..k + 1][1..] == rs[1..][..k];
    }
  }

  /** Without a terminal item all input is read and the verdict is
      NoTerminal. */
  lemma {:induction false} ScanWithoutTerminal(rs: seq<Reading>, buffer: string)
    requires forall j :: 0 <= j < |rs| ==> rs[j].stop.None?
    ensures ScanFrom(rs, buffer) == Scan(NoTerminal, buffer + Shown(rs), |rs|)
    decreases |rs|
  {
    if rs != [] {
      assert rs[0].stop.None?;
      ScanWithoutTerminal(rs[1..], buffer + rs[0].piece);
    }
  }

  /** The Read events for the lines among the items (a fault reads nothing). */
  function Received(items: seq<Rx>): seq<Event>
    decreases |items|
  {
    if items == [] then []
    else (match items[0] case Line(t) => [Read(t)] case Fault => []) + Received(items[1..])
  }

  lemma {:induction false} ReceivedAppend(a: seq<Rx>, b: seq<Rx>)
    ensures Received(a + b) == Received(a) + Received(b)
    decreases |a|
  {
    if a == [] {
      assert a + b == b;
    } else {
      assert (a + b)[0] == a[0];
      assert (a + b)[1..] == a[1..] + b;
      ReceivedAppend(a[1..], b);
    }
  }

  /** The data written, in order. */
  function Writes(trace: seq<Event>): seq<string>
    decreases |trace|
  {
    if trace == [] then []
    else (if trace[0].Wrote? then [trace[0].data] else []) + Writes(trace[1..])
  }

  lemma {:induction false} WritesAppend(a: seq<Event>, b: seq<Event>)
    ensures Writes(a + b) == Writes(a) + Writes(b)
    decreases |a|
  {
    if a == [] {
      assert a + b == b;
    } else {
      assert (a + b)[0] == a[0];
      assert (a + b)[1..] == a[1..] + b;
      WritesAppend(a[1..], b);
    }
  }

  lemma {:induction false} ReceivedWritesNothing(items: seq<Rx>)
    ensures Writes(Received(items)) == []
    decreases |items|
  {
    if items != [] {
      var head := match items[0] case Line(t) => [Read(t)] case Fault => [];
      WritesAppend(head, Received(items[1..]));
      ReceivedWritesNothing(items[1..]);
    }
  }

  /** The reading loop of send_live over the input the device delivers:
      skips blank lines, collects the others, and stops at the first `ok`
      line, error line or fault. `used` counts the items read. */
  method AwaitReply(input: seq<Rx>) returns (verdict: Verdict, buffer: string, used: nat)
    ensures Scan(verdict, buffer, used) == ScanFrom(Readings(input), "")
  {
    ghost var rs := Readings(input);
    buffer := "";
    used := 0;
    while used < |input|
      invariant used <= |input|
      invariant ScanFrom(rs, "") == Shifted(ScanFrom(rs[used..], buffer), used)
      decreases |input| - used
    {
      assert rs[used] == ReadingOf(input[used]);
      match input[used] {
        case Fault =>
          ScanEnds(rs, used, buffer);
          assert buffer + "" == buffer;
          return LinkFault, buffer, used + 1;
        case Line(raw) =>
          var line := Strip(raw);
          if line == "" {
            ScanGoesOn(rs, used, buffer);
            assert buffer + "" == buffer;
            used := used + 1;
            continue;
          }
          if IsOkLine(line) {
            ScanEnds(rs, used, buffer);
            return Success, buffer + (line + "\n"), used + 1;
          }
          if IsErrorLine(line) {
            ScanEnds(rs, used, buffer);
            return DeviceError, buffer + (line + "\n"), used + 1;
          }
          ScanGoesOn(rs, used, buffer);
          buffer := buffer + (line + "\n");
          used := used + 1;
      }
    }
    assert rs[used..] == [];
    return NoTerminal, buffer, used;
  }

  // ---------------------------------------------------------------------
  // connect_live and send_live as functions of the link state

  /** connect_live once the port is opened: readline() for the greeting. A
      line is the greeting and is consumed. A fault is a failed attempt,
      and the loop opens the port again. With no input left the read times
      out and the greeting is empty. */
  function Greet(l: Link): Link
    decreases |l.device|
  {
    if l.device == [] then l
    else match l.device[0]
      case Line(t) => Link(l.connected, l.device[1..], l.trace + [Read(t)])
      case Fault => Greet(Link(l.connected, l.device[1..], l.trace + [Opened]))
  }

  /** connect_live: open the port, then read the greeting. */
  function Connect(l: Link): Link {
    Greet(Link(true, l.device, l.trace + [Opened]))
  }

  /** The link send_live writes on: a closed port is reconnected first. */
  function Ready(l: Link): Link {
    if l.connected then l else Connect(l)
  }

  /** n openings of the port. */
  function Openings(n: nat): (r: seq<Event>)
    ensures |r| == n && forall i :: 0 <= i < n ==> r[i] == Opened
  {
    seq(n, i => Opened)
  }

  lemma {:induction false} GreetSkipsFaults(l: Link, k: nat)
    requires k <= |l.device|
    requires forall j :: 0 <= j < k ==> l.device[j].Fault?
    requires k < |l.device| ==> l.device[k].Line?
    ensures Greet(l) == if k < |l.device|
      then Link(l.connected, l.device[k + 1..], l.trace + Openings(k) + [Read(l.device[k].text)])
      else Link(l.connected, [], l.trace + Openings(k))
    decreases k
  {
    if k == 0 {
      assert l.trace + Openings(0) == l.trace;
    } else {
      var next := Link(l.connected, l.device[1..], l.trace + [Opened]);
      assert l.device[0].Fault?;
      assert Greet(l) == Greet(next);
      GreetSkipsFaults(next, k - 1);
      assert next.trace + Openings(k - 1) == l.trace + Openings(k);
      if k < |l.device| {
        assert next.device[k - 1] == l.device[k];
        assert next.device[k..] == l.device[k + 1..];
      }
    }
  }

  /** connect_live opens the port once, and once more for every fault it
      meets while waiting for the greeting. The first line after those
      faults is the greeting: it is read and consumed. Input made only of
      faults is consumed whole, with an empty greeting. Nothing is written. */
  lemma ConnectSkipsFaults(l: Link, k: nat)
    requires k <= |l.device|
    requires forall j :: 0 <= j < k ==> l.device[j].Fault?
    requires k < |l.device| ==> l.device[k].Line?
    ensures Connect(l) == if k < |l.device|
      then Link(true, l.device[k + 1..], l.trace + Openings(k + 1) + [Read(l.device[k].text)])
      else Link(true, [], l.trace + Openings(k + 1))
    ensures Writes(Connect(l).trace) == Writes(l.trace)
  {
    GreetSkipsFaults(Link(true, l.device, l.trace + [Opened]), k);
    assert l.trace + [Opened] + Openings(k) == l.trace + Openings(k + 1);
    ConnectExtends(l);
  }

  /** Greeting reads only append to the trace, write nothing, consume a
      prefix of the input, and leave the port as it was. */
  lemma {:induction false} GreetExtends(l: Link)
    ensures var g := Greet(l);
      && g.connected == l.connected
      && |l.trace| <= |g.trace| && g.trace[..|l.trace|] == l.trace
      && Writes(g.trace) == Writes(l.trace)
      && |g.device| <= |l.device| && g.device == l.device[|l.device| - |g.device|..]
    decreases |l.device|
  {
    if l.device != [] {
      var e: Event := if l.device[0].Line? then Read(l.device[0].text) else Opened;
      var next := Link(l.connected, l.device[1..], l.trace + [e]);
      WritesAppend(l.trace, [e]);
      assert Writes([e]) == [] + Writes([]);
      if l.device[0].Fault? {
        GreetExtends(next);
        var g := Greet(next);
        assert g.trace[..|l.trace|] == g.trace[..|next.trace|][..|l.trace|];
      }
    }
  }

  lemma ConnectExtends(l: Link)
    ensures var c := Connect(l);
      && c.connected
      && |l.trace| < |c.trace| && c.trace[..|l.trace|] == l.trace && c.trace[|l.trace|] == Opened
      && Writes(c.trace) == Writes(l.trace)
      && |c.device| <= |l.device| && c.device == l.device[|l.device| - |c.device|..]
  {
    var o := Link(true, l.device, l.trace + [Opened]);
    GreetExtends(o);
    var c := Connect(l);
    assert c.trace[..|l.trace|] == c.trace[..|o.trace|][..|l.trace|];
    assert c.trace[|l.trace|] == c.trace[..|o.trace|][|l.trace|];
    WritesAppend(l.trace, [Opened]);
    assert Writes([Opened]) == [] + Writes([]);
  }

  datatype Sent = Sent(link: Link, reply: Option<string>)

  /** One send_live call: reconnect a closed port, write the command and a
      newline once, read until a terminal item, reconnect after a fault.
      The reply is the response buffer on success, else None. */
  function Send(l: Link, gcode: string): Sent {
    var r := Ready(l);
    Complete(r, gcode, ScanFrom(Readings(r.device), ""))
  }

  /** The effect of a send on the ready link r whose reading ended as s
      says. */
  function Complete(r: Link, gcode: string, s: Scan): Sent
    requires s.used <= |r.device|
  {
    var after := Link(true, r.device[s.used..], r.trace + [Wrote(gcode + "\n")] + Received(r.device[..s.used]));
    Sent(if s.verdict == LinkFault then Connect(after) else after,
         if s.verdict == Success then Some(s.buffer) else None)
  }

  /** Each send writes exactly one line, `gcode` and a newline. Before it
      there is only the reconnection of a closed port with its greeting,
      which writes nothing; an open port gets the write at once. */
  lemma SendWritesOnce(l: Link, gcode: string)
    ensures var t := Send(l, gcode).link.trace;
      var w := |Ready(l).trace|;
      && |l.trace| <= w < |t| && t[..|l.trace|] == l.trace
      && t[..w] == Ready(l).trace && t[w] == Wrote(gcode + "\n")
      && Writes(Ready(l).trace) == Writes(l.trace)
      && (l.connected ==> w == |l.trace|)
      && (!l.connected ==> t[|l.trace|] == Opened)
      && Writes(t) == Writes(l.trace) + [gcode + "\n"]
  {
    var r := Ready(l);
    if !l.connected {
      ConnectExtends(l);
    }
    CompleteWritesOnce(r, gcode, ScanFrom(Readings(r.device), ""));
    var t := Send(l, gcode).link.trace;
    assert t[..|l.trace|] == t[..|r.trace|][..|l.trace|];
    if !l.connected {
      assert t[|l.trace|] == t[..|r.trace|][|l.trace|];
    }
  }

  lemma CompleteWritesOnce(r: Link, gcode: string, s: Scan)
    requires s.used <= |r.device|
    ensures var t := Complete(r, gcode, s).link.trace;
      && |r.trace| < |t| && t[..|r.trace|] == r.trace && t[|r.trace|] == Wrote(gcode + "\n")
      && Writes(t) == Writes(r.trace) + [gcode + "\n"]
  {
    var after := Link(true, r.device[s.used..], r.trace + [Wrote(gcode + "\n")] + Received(r.device[..s.used]));
    CompleteWritesCount(r.trace, gcode, r.device[..s.used]);
    var t := Complete(r, gcode, s).link.trace;
    if s.verdict == LinkFault {
      ConnectExtends(after);
      assert t[..|r.trace|] == t[..|after.trace|][..|r.trace|];
      assert t[|r.trace|] == t[..|after.trace|][|r.trace|];
    }
  }

  lemma CompleteWritesCount(before: seq<Event>, gcode: string, items: seq<Rx>)
    ensures Writes(before + [Wrote(gcode + "\n")] + Received(items)) == Writes(before) + [gcode + "\n"]
  {
    WritesAppend(before + [Wrote(gcode + "\n")], Received(items));
    WritesAppend(before, [Wrote(gcode + "\n")]);
    ReceivedWritesNothing(items);
    assert Writes([Wrote(gcode + "\n")]) == [gcode + "\n"] + Writes([]);
  }

  /** The reply of a send is decided by the first terminal item of the
      input left once the port is ready: a success line gives every
      non-blank line up to it, each with a newline; an error line or a
      fault gives None. Reading stops right after that item. After a fault
      the port is reconnected, and that reconnection reads its own greeting
      from the input that follows. */
  lemma SendAnswer(l: Link, gcode: string, k: nat)
    requires k < |Ready(l).device| && ReadingOf(Ready(l).device[k]).stop.Some?
    requires forall j :: 0 <= j < k ==> ReadingOf(Ready(l).device[j]).stop.None?
    ensures var r := Ready(l);
      var v := ReadingOf(r.device[k]).stop.value;
      var after := Link(true, r.device[k + 1..], r.trace + [Wrote(gcode + "\n")] + Received(r.device[..k + 1]));
      && Send(l, gcode).reply == (if v == Success then Some(Shown(Readings(r.device[..k + 1]))) else None)
      && Send(l, gcode).link == (if v == LinkFault then Connect(after) else after)
  {
    var r := Ready(l);
    var rs := Readings(r.device);
    ScanStopsAtFirstTerminal(rs, "", k);
    assert rs[..k + 1] == Readings(r.device[..k + 1]);
    assert "" + Shown(rs[..k + 1]) == Shown(rs[..k + 1]);
  }

  /** When the input left once the port is ready holds no terminal item,
      the send has no reply and all of that input is consumed (the driver
      itself would wait forever). */
  lemma SendWithoutAnswer(l: Link, gcode: string)
    requires forall j :: 0 <= j < |Ready(l).device| ==> ReadingOf(Ready(l).device[j]).stop.None?
    ensures Send(l, gcode).reply == None
    ensures Send(l, gcode).link.device == []
  {
    ScanWithoutTerminal(Readings(Ready(l).device), "");
  }

  /** A reconnection after a fault takes the next line as its greeting,
      whatever it holds: with a fault, any line and then an error line to
      come, the first send faults and the line after the fault is consumed
      by the reconnection, so the second send meets the error line and has
      no reply. */
  lemma ReconnectConsumesGreeting(l: Link, g: string, e: string, c1: string, c2: string)
    requires l.connected && l.device == [Fault, Line(g), Line(e)]
    requires IsErrorLine(Strip(e)) && !IsOkLine(Strip(e)) && Strip(e) != ""
    ensures Send(l, c1).reply == None
    ensures Send(l, c1).link.device == [Line(e)]
    ensures Send(l, c1).link.trace == l.trace + [Wrote(c1 + "\n"), Opened, Read(g)]
    ensures Send(Send(l, c1).link, c2).reply == None
    ensures Send(Send(l, c1).link, c2).link.device == []
  {
    SendAnswer(l, c1, 0);
    var after := Link(true, l.device[1..], l.trace + [Wrote(c1 + "\n")] + Received(l.device[..1]));
    assert l.device[..1] == [Fault];
    assert Received([Fault]) == [] + Received([]);
    assert after.device == [Line(g), Line(e)];
    ConnectSkipsFaults(after, 0);
    assert after.trace + Openings(1) + [Read(g)] == l.trace + [Wrote(c1 + "\n"), Opened, Read(g)];
    var l1 := Send(l, c1).link;
    assert l1.device == [Line(e)];
    assert ReadingOf(l1.device[0]) == Reading(Some(DeviceError), Strip(e) + "\n");
    SendAnswer(l1, c2, 0);
  }

  /** Sends commands one after another. */
  function SendAll(l: Link, cmds: seq<string>): Link
    decreases |cmds|
  {
    if cmds == [] then l else SendAll(Send(l, cmds[0]).link, cmds[1..])
  }

  lemma SendAllOne(l: Link, c: string)
    ensures SendAll(l, [c]) == Send(l, c).link
  {
    assert [c][1..] == [];
  }

  lemma SendAllTwo(l: Link, c1: string, c2: string)
    ensures SendAll(l, [c1, c2]) == Send(Send(l, c1).link, c2).link
  {
    assert [c1, c2][1..] == [c2];
    SendAllOne(Send(l, c1).link, c2);
  }

  /** Sending a + b is sending a, then b. */
  lemma {:induction false} SendAllAppend(l: Link, a: seq<string>, b: seq<string>)
    ensures SendAll(l, a + b) == SendAll(SendAll(l, a), b)
    decreases |a|
  {
    if a == [] {
      assert a + b == b;
    } else {
      assert (a + b)[0] == a[0];
      assert (a + b)[1..] == a[1..] + b;
      SendAllAppend(Send(l, a[0]).link, a[1..], b);
    }
  }

  /** Each command with its newline: what the port receives. */
  function Framed(cmds: seq<string>): (r: seq<string>)
    ensures |r| == |cmds| && forall i :: 0 <= i < |cmds| ==> r[i] == cmds[i] + "\n"
  {
    seq(|cmds|, i requires 0 <= i < |cmds| => cmds[i] + "\n")
  }

  /** A run of sends writes the commands in the given order, each once. */
  lemma {:induction false} SendAllWritesInOrder(l: Link, cmds: seq<string>)
    ensures Writes(SendAll(l, cmds).trace) == Writes(l.trace) + Framed(cmds)
    decreases |cmds|
  {
    if cmds != [] {
      var next := Send(l, cmds[0]).link;
      SendWrites(l, cmds[0]);
      SendAllWritesInOrder(next, cmds[1..]);
      FramedCons(cmds);
      FramedStep(Writes(l.trace), Writes(next.trace), Writes(SendAll(next, cmds[1..]).trace),
                 cmds[0] + "\n", Framed(cmds[1..]), Framed(cmds));
    }
  }

  lemma SendWrites(l: Link, gcode: string)
    ensures Writes(Send(l, gcode).link.trace) == Writes(l.trace) + [gcode + "\n"]
  {
    SendWritesOnce(l, gcode);
  }

  lemma FramedStep(w0: seq<string>, w1: seq<string>, w2: seq<string>, x: string, f: seq<string>, g: seq<string>)
    requires w1 == w0 + [x]
    requires w2 == w1 + f
    requires g == [x] + f
    ensures w2 == w0 + g
  {
    assert w0 + [x] + f == w0 + ([x] + f);
  }

  /** The framing of a non-empty run: its first command, then the rest. */
  lemma FramedCons(cmds: seq<string>)
    requires cmds != []
    ensures Framed(cmds) == [cmds[0] + "\n"] + Framed(cmds[1..])
  {
    var f := Framed(cmds[1..]);
    forall i | 0 <= i < |cmds| ensures Framed(cmds)[i] == ([cmds[0] + "\n"] + f)[i] {
      if i > 0 {
        assert f[i - 1] == cmds[1..][i - 1] + "\n";
      }
    }
  }

  /** The templates with an argument put in. */
  lemma HotendTempFilled(arg: string)
    ensures Format(SetHotendTemp, arg) == "M104 S" + arg
  {
    assert SetHotendTemp == "M104 S" + "{}";
    FormatAfterPrefix("M104 S", arg);
  }

  lemma BedTempFilled(arg: string)
    ensures Format(SetBedTemp, arg) == "M140 S" + arg
  {
    assert SetBedTemp == "M140 S" + "{}";
    FormatAfterPrefix("M140 S", arg);
  }

  lemma SpeedFilled(arg: string)
    ensures Format(AdjustSpeed, arg) == "M220 S" + arg
  {
    assert AdjustSpeed == "M220 S" + "{}";
    FormatAfterPrefix("M220 S", arg);
  }

  lemma MessageFilled(arg: string)
    ensures Format(ShowMessage, arg) == "M117 " + arg
  {
    assert ShowMessage == "M117 " + "{}";
    FormatAfterPrefix("M117 ", arg);
  }

  /** The commands of set_temp_live: hotend first, then bed, each only when
      given, and each argument printed as str() prints an int or a float. */
  function TempCommands(hotend: Option<Number>, bed: Option<Number>): (r: seq<string>)
    ensures r == (if hotend.Some? then ["M104 S" + NumberText(hotend.value)] else [])
              + (if bed.Some? then ["M140 S" + NumberText(bed.value)] else [])
  {
    (if hotend.Some? then HotendTempFilled(NumberText(hotend.value)); [Format(SetHotendTemp, NumberText(hotend.value))] else [])
    + (if bed.Some? then BedTempFilled(NumberText(bed.value)); [Format(SetBedTemp, NumberText(bed.value))] else [])
  }

  /** An int argument prints without a point: set_temp_live(hotend=200)
      sends `M104 S200`, while the float 200.0 sends `M104 S200.0`. */
  lemma TempCommandsIntOrFloat()
    ensures TempCommands(Some(IntNum(200)), None) == ["M104 S200"]
    ensures TempCommands(Some(FloatNum(Decimal(2000, 1))), None) == ["M104 S200.0"]
  {
    HotendIntCommand();
    HotendFloatCommand();
  }

  lemma HotendIntCommand()
    ensures TempCommands(Some(IntNum(200)), None) == ["M104 S200"]
  {
    HotendOnly(IntNum(200));
    IntText200();
    Joined("M104 S", "200", "M104 S200");
  }

  lemma HotendFloatCommand()
    ensures TempCommands(Some(FloatNum(Decimal(2000, 1))), None) == ["M104 S200.0"]
  {
    HotendOnly(FloatNum(Decimal(2000, 1)));
    FloatText2000();
    Joined("M104 S", "200.0", "M104 S200.0");
  }

  lemma HotendOnly(n: Number)
    ensures TempCommands(Some(n), None) == ["M104 S" + NumberText(n)]
  {
  }

  lemma Joined(a: string, b: string, c: string)
    requires |a| + |b| == |c|
    requires forall i :: 0 <= i < |a| ==> a[i] == c[i]
    requires forall i :: 0 <= i < |b| ==> b[i] == c[|a| + i]
    ensures a + b == c
  {
  }

  lemma IntText200()
    ensures IntText(200) == "200"
  {
    assert NatText(200) == NatText(20) + ['0'] == "200";
    assert IntText(200) == "" + NatText(200);
  }

  lemma FloatText2000()
    ensures FloatText(Decimal(2000, 1)) == "200.0"
  {
    assert Shortest(Decimal(2000, 1)) == Decimal(200, 0);
    assert NatText(200) == NatText(20) + ['0'] == "200";
    assert ZeroPad("200", 1) == "200";
  }

  /** The commands of pause_live: the reason on the display, spaces turned
      into underscores, then the pause itself. */
  function PauseCommands(reason: string): (r: seq<string>)
    ensures r == ["M117 " + ReplaceChar(reason, ' ', '_'), "M25"]
  {
    MessageFilled(ReplaceChar(reason, ' ', '_'));
    [Format(ShowMessage, ReplaceChar(reason, ' ', '_')), PausePrint]
  }

  /** The commands of pause_live() with its default reason. */
  lemma DefaultPauseCommands()
    ensures PauseCommands("AI PAUSED") == ["M117 AI_PAUSED", "M25"]
  {
    var m := "M117 " + ReplaceChar("AI PAUSED", ' ', '_');
    assert |m| == 14 && forall i :: 0 <= i < 14 ==> m[i] == "M117 AI_PAUSED"[i];
    assert m == "M117 AI_PAUSED";
  }

  /** The commands of resume_live. */
  function ResumeCommands(): (r: seq<string>)
    ensures r == ["M117 AI RESUMED", "M24"]
  {
    MessageFilled("AI RESUMED");
    var m := "M117 " + "AI RESUMED";
    assert |m| == 15 && forall i :: 0 <= i < 15 ==> m[i] == "M117 AI RESUMED"[i];
    assert m == "M117 AI RESUMED";
    [Format(ShowMessage, "AI RESUMED"), ResumePrint]
  }

  /** The command of adjust_speed_live. */
  function SpeedCommand(percentage: int): (r: string)
    ensures r == "M220 S" + IntText(percentage)
  {
    SpeedFilled(IntText(percentage));
    Format(AdjustSpeed, IntText(percentage))
  }

  // ---------------------------------------------------------------------
  // The temperature reply

  /** Actual and target temperatures of the hotend and the bed. */
  datatype Temps = Temps(hotend: Decimal, hotendTarget: Decimal, bed: Decimal, bedTarget: Decimal)

  /** \s? */
  function OptionalSpace(s: string, j: nat): (k: nat)
    requires j <= |s|
    ensures j <= k <= |s|
  {
    if j < |s| && IsSpace(s[j]) then j + 1 else j
  }

  /** The longest run of whitespace starting at j. */
  function SpaceRunEnd(s: string, j: nat): (k: nat)
    requires j <= |s|
    ensures j <= k <= |s|
    decreases |s| - j
  {
    if j < |s| && IsSpace(s[j]) then SpaceRunEnd(s, j + 1) else j
  }

  /** The pattern T:(\d+\.?\d*)\s?/(\d+\.?\d*)\s+B:(\d+\.?\d*)\s?/(\d+\.?\d*)
      matched at position i. Each group and each \s+ is greedy, and no
      shorter choice could let the rest of the pattern match, so the match
      at a position is unique. */
  function TempMatchAt(s: string, i: nat): Option<Temps>
    requires i <= |s|
  {
    if !(i + 2 <= |s| && s[i] == 'T' && s[i + 1] == ':') then None
    else match NumberAt(s, i + 2)
      case None => None
      case Some((hotend, j)) =>
        var j1 := OptionalSpace(s, j);
        if !(j1 < |s| && s[j1] == '/') then None
        else match NumberAt(s, j1 + 1)
          case None => None
          case Some((hotendTarget, k)) =>
            var k1 := SpaceRunEnd(s, k);
            if !(k < k1 && k1 + 2 <= |s| && s[k1] == 'B' && s[k1 + 1] == ':') then None
            else match NumberAt(s, k1 + 2)
              case None => None
              case Some((bed, m)) =>
                var m1 := OptionalSpace(s, m);
                if !(m1 < |s| && s[m1] == '/') then None
                else match NumberAt(s, m1 + 1)
                  case None => None
                  case Some((bedTarget, _)) => Some(Temps(hotend, hotendTarget, bed, bedTarget))
  }

  /** The match of the pattern at each position of s. */
  function MatchesIn(s: string): (r: seq<Option<Temps>>)
    ensures |r| == |s|
  {
    seq(|s|, i requires 0 <= i < |s| => TempMatchAt(s, i))
  }

  /** re.search: the match at the leftmost position where the pattern
      matches. */
  function ParseTemps(s: string): Option<Temps> {
    FirstSome(MatchesIn(s), 0)
  }

  /** ParseTemps finds nothing exactly when the pattern matches nowhere,
      and otherwise returns the match at the leftmost matching position. */
  lemma ParseTempsLeftmost(s: string)
    ensures ParseTemps(s).None? <==> forall i :: 0 <= i < |s| ==> TempMatchAt(s, i).None?
    ensures ParseTemps(s).Some? ==>
      exists i :: 0 <= i < |s| && TempMatchAt(s, i) == ParseTemps(s)
               && forall j :: 0 <= j < i ==> TempMatchAt(s, j).None?
  {
    var ms := MatchesIn(s);
    assert forall i :: 0 <= i < |s| ==> ms[i] == TempMatchAt(s, i);
  }

  /** get_live_temp's reading of a reply: None for no (or an empty) reply
      and for a reply the pattern does not match. */
  function TempsOf(reply: Option<string>): Option<Temps> {
    if reply.Some? && reply.value != "" then ParseTemps(reply.value) else None
  }

  /** A report of four number texts, in the layout Marlin prints in its
      reply to M105. */
  function ReportOf(r1: string, r2: string, r3: string, r4: string): string {
    "T:" + r1 + " /" + r2 + " B:" + r3 + " /" + r4
  }

  /** Four temperatures as Marlin prints them. */
  function TempReport(t: Temps): string {
    ReportOf(Render(t.hotend), Render(t.hotendTarget), Render(t.bed), Render(t.bedTarget))
  }

  /** A decimal as the firmware prints a temperature: not negative, with at
      least one fractional digit. */
  predicate Printable(d: Decimal) {
    d.units >= 0 && d.scale >= 1
  }

  predicate Readable(t: Temps) {
    Printable(t.hotend) && Printable(t.hotendTarget) && Printable(t.bed) && Printable(t.bedTarget)
  }

  /** Where each piece of a report sits. */
  lemma ReportPieces(s: string, i: nat, r1: string, r2: string, r3: string, r4: string)
    requires TextAt(s, i, ReportOf(r1, r2, r3, r4))
    ensures var q1 := i + 2 + |r1|;
      var q2 := q1 + 2 + |r2|;
      var q3 := q2 + 3 + |r3|;
      q3 + 2 + |r4| <= |s|
      && s[i] == 'T' && s[i + 1] == ':' && TextAt(s, i + 2, r1)
      && s[q1] == ' ' && s[q1 + 1] == '/' && TextAt(s, q1 + 2, r2)
      && s[q2] == ' ' && s[q2 + 1] == 'B' && s[q2 + 2] == ':' && TextAt(s, q2 + 3, r3)
      && s[q3] == ' ' && s[q3 + 1] == '/' && TextAt(s, q3 + 2, r4)
  {
    var q1 := i + 2 + |r1|;
    var q2 := q1 + 2 + |r2|;
    var q3 := q2 + 3 + |r3|;
    var a6 := "T:" + r1 + " /" + r2 + " B:" + r3 + " /";
    TextAtSplit(s, i, a6, r4);
    var a5 := "T:" + r1 + " /" + r2 + " B:" + r3;
    TextAtSplit(s, i, a5, " /");
    assert s[q3 + 0] == " /"[0] && s[q3 + 1] == " /"[1];
    var a4 := "T:" + r1 + " /" + r2 + " B:";
    TextAtSplit(s, i, a4, r3);
    var a3 := "T:" + r1 + " /" + r2;
    TextAtSplit(s, i, a3, " B:");
    assert s[q2 + 0] == " B:"[0] && s[q2 + 1] == " B:"[1] && s[q2 + 2] == " B:"[2];
    var a2 := "T:" + r1 + " /";
    TextAtSplit(s, i, a2, r2);
    var a1 := "T:" + r1;
    TextAtSplit(s, i, a1, " /");
    assert s[q1 + 0] == " /"[0] && s[q1 + 1] == " /"[1];
    TextAtSplit(s, i, "T:", r1);
    assert s[i + 0] == "T:"[0] && s[i + 1] == "T:"[1];
  }

  /** The pattern matched piece by piece: "T:", a number, " /", a number,
      " B:", a number, " /", a number. */
  lemma MatchPieces(s: string, i: nat, d1: Decimal, q1: nat, d2: Decimal, q2: nat,
                    d3: Decimal, q3: nat, d4: Decimal, q4: nat)
    requires i + 2 <= |s| && s[i] == 'T' && s[i + 1] == ':'
    requires NumberAt(s, i + 2) == Some((d1, q1))
    requires q1 + 2 <= |s| && s[q1] == ' ' && s[q1 + 1] == '/'
    requires NumberAt(s, q1 + 2) == Some((d2, q2))
    requires q2 + 3 <= |s| && s[q2] == ' ' && s[q2 + 1] == 'B' && s[q2 + 2] == ':'
    requires NumberAt(s, q2 + 3) == Some((d3, q3))
    requires q3 + 2 <= |s| && s[q3] == ' ' && s[q3 + 1] == '/'
    requires NumberAt(s, q3 + 2) == Some((d4, q4))
    ensures TempMatchAt(s, i) == Some(Temps(d1, d2, d3, d4))
  {
    assert OptionalSpace(s, q1) == q1 + 1;
    assert SpaceRunEnd(s, q2) == q2 + 1 by {
      assert SpaceRunEnd(s, q2 + 1) == q2 + 1;
    }
    assert OptionalSpace(s, q3) == q3 + 1;
  }

  /** A number text that reads as d, held at p and not followed by a
      digit, is read there as d. */
  lemma ReadAt(s: string, p: nat, r: string, d: Decimal)
    requires ReadsAs(r, d) && TextAt(s, p, r)
    requires p + |r| == |s| || s[p + |r|] == ' ' || !IsDigit(s[p + |r|])
    ensures NumberAt(s, p) == Some((d, p + |r|))
  {
  }

  /** The pattern matches the pieces of a report at the report's position
      and reads its four numbers in the order hotend, hotend target, bed, bed target. */
  lemma MatchReport(s: string, i: nat, r1: string, r2: string, r3: string, r4: string, t: Temps)
    requires ReadsAs(r1, t.hotend) && ReadsAs(r2, t.hotendTarget)
    requires ReadsAs(r3, t.bed) && ReadsAs(r4, t.bedTarget)
    requires ReportAt(s, i, r1, r2, r3, r4)
    ensures TempMatchAt(s, i) == Some(t)
  {
    var q1 := i + 2 + |r1|;
    var q2 := q1 + 2 + |r2|;
    var q3 := q2 + 3 + |r3|;
    var q4 := q3 + 2 + |r4|;
    ReportNumbers(s, i, r1, r2, r3, r4, t);
    MatchPieces(s, i, t.hotend, q1, t.hotendTarget, q2, t.bed, q3, t.bedTarget, q4);
  }

  /** s holds, at i, the pieces of a report of the four number texts, and
      no digit follows them. */
  predicate ReportAt(s: string, i: nat, r1: string, r2: string, r3: string, r4: string) {
    var q1 := i + 2 + |r1|;
    var q2 := q1 + 2 + |r2|;
    var q3 := q2 + 3 + |r3|;
    var q4 := q3 + 2 + |r4|;
    q4 <= |s|
    && s[i] == 'T' && s[i + 1] == ':' && TextAt(s, i + 2, r1)
    && s[q1] == ' ' && s[q1 + 1] == '/' && TextAt(s, q1 + 2, r2)
    && s[q2] == ' ' && s[q2 + 1] == 'B' && s[q2 + 2] == ':' && TextAt(s, q2 + 3, r3)
    && s[q3] == ' ' && s[q3 + 1] == '/' && TextAt(s, q3 + 2, r4)
    && (q4 == |s| || !IsDigit(s[q4]))
  }

  /** The four numbers of a report held in s, each read where it stands. */
  lemma ReportNumbers(s: string, i: nat, r1: string, r2: string, r3: string, r4: string, t: Temps)
    requires ReadsAs(r1, t.hotend) && ReadsAs(r2, t.hotendTarget)
    requires ReadsAs(r3, t.bed) && ReadsAs(r4, t.bedTarget)
    requires ReportAt(s, i, r1, r2, r3, r4)
    ensures var q1 := i + 2 + |r1|;
      var q2 := q1 + 2 + |r2|;
      var q3 := q2 + 3 + |r3|;
      && NumberAt(s, i + 2) == Some((t.hotend, q1))
      && NumberAt(s, q1 + 2) == Some((t.hotendTarget, q2))
      && NumberAt(s, q2 + 3) == Some((t.bed, q3))
      && NumberAt(s, q3 + 2) == Some((t.bedTarget, q3 + 2 + |r4|))
  {
    var q1 := i + 2 + |r1|;
    var q2 := q1 + 2 + |r2|;
    var q3 := q2 + 3 + |r3|;
    ReadAt(s, i + 2, r1, t.hotend);
    ReadAt(s, q1 + 2, r2, t.hotendTarget);
    ReadAt(s, q2 + 3, r3, t.bed);
    ReadAt(s, q3 + 2, r4, t.bedTarget);
  }

  /** A report preceded by text with no 'T' is what the parser finds. */
  lemma ParseReport(prefix: string, r1: string, r2: string, r3: string, r4: string, t: Temps, suffix: string)
    requires ReadsAs(r1, t.hotend) && ReadsAs(r2, t.hotendTarget)
    requires ReadsAs(r3, t.bed) && ReadsAs(r4, t.bedTarget)
    requires forall k :: 0 <= k < |prefix| ==> prefix[k] != 'T'
    requires suffix == [] || !IsDigit(suffix[0])
    ensures ParseTemps(prefix + ReportOf(r1, r2, r3, r4) + suffix) == Some(t)
  {
    var report := ReportOf(r1, r2, r3, r4);
    var s := prefix + report + suffix;
    ReportPlaced(prefix, report, suffix, s);
    ReportAtFrom(s, |prefix|, r1, r2, r3, r4);
    MatchReport(s, |prefix|, r1, r2, r3, r4, t);
    ParseFirst(s, |prefix|, t);
  }

  /** Where the report sits in prefix + report + suffix. */
  lemma ReportPlaced(prefix: string, report: string, suffix: string, s: string)
    requires s == prefix + report + suffix
    requires forall k :: 0 <= k < |prefix| ==> prefix[k] != 'T'
    requires suffix == [] || !IsDigit(suffix[0])
    ensures TextAt(s, |prefix|, report)
    ensures |prefix| + |report| == |s| || !IsDigit(s[|prefix| + |report|])
    ensures forall k :: 0 <= k < |prefix| ==> s[k] != 'T'
  {
    assert s == prefix + (report + suffix);
    TextAtAppend(prefix, report + suffix);
    TextAtSplit(s, |prefix|, report, suffix);
    var e := |prefix| + |report|;
    assert e < |s| ==> s[e] == suffix[0];
    forall k | 0 <= k < |prefix| ensures s[k] != 'T' {
      assert s[k] == prefix[k];
    }
  }

  /** A report held at i and not followed by a digit is in place. */
  lemma ReportAtFrom(s: string, i: nat, r1: string, r2: string, r3: string, r4: string)
    requires TextAt(s, i, ReportOf(r1, r2, r3, r4))
    requires i + |ReportOf(r1, r2, r3, r4)| == |s| || !IsDigit(s[i + |ReportOf(r1, r2, r3, r4)|])
    ensures ReportAt(s, i, r1, r2, r3, r4)
  {
    ReportPieces(s, i, r1, r2, r3, r4);
  }

  /** A match at p with no 'T' before it is the one the parser returns. */
  lemma ParseFirst(s: string, p: nat, t: Temps)
    requires p < |s| && TempMatchAt(s, p) == Some(t)
    requires forall k :: 0 <= k < p ==> s[k] != 'T'
    ensures ParseTemps(s) == Some(t)
  {
    var ms := MatchesIn(s);
    forall j | 0 <= j < p ensures ms[j].None? {
      assert ms[j] == TempMatchAt(s, j);
    }
    FirstSomeAt(ms, 0, p);
  }

  /** The parser reads back what the firmware printed: a report of four
      printed temperatures, after text with no 'T' and before text that does
      not start with a digit, parses to exactly those temperatures. */
  lemma ParseTempsReadsBack(prefix: string, t: Temps, suffix: string)
    requires Readable(t)
    requires forall k :: 0 <= k < |prefix| ==> prefix[k] != 'T'
    requires suffix == [] || !IsDigit(suffix[0])
    ensures ParseTemps(prefix + TempReport(t) + suffix) == Some(t)
  {
    RenderReadsAs(t.hotend);
    RenderReadsAs(t.hotendTarget);
    RenderReadsAs(t.bed);
    RenderReadsAs(t.bedTarget);
    ParseReport(prefix, Render(t.hotend), Render(t.hotendTarget), Render(t.bed), Render(t.bedTarget), t, suffix);
  }

  /** A written number whose digits have the value u reads as u with as
      many fractional places as it has digits after the point. */
  lemma WrittenReadsAs(r: string, whole: string, frac: string, u: nat)
    requires |whole| >= 1 && AllDigits(whole) && AllDigits(frac) && AllDigits(whole + frac)
    requires r == whole + "." + frac && DigitsValue(whole + frac) == u
    ensures ReadsAs(r, Decimal(u, |frac|))
  {
    PointedReadsAs(whole, frac);
  }

  /** Three digits, a point and one digit, as in "205.1". */
  lemma ThreeOneReadsAs(a: char, b: char, c: char, d: char)
    requires IsDigit(a) && IsDigit(b) && IsDigit(c) && IsDigit(d)
    ensures ReadsAs([a, b, c, '.', d],
                    Decimal(((DigitValue(a) * 10 + DigitValue(b)) * 10 + DigitValue(c)) * 10 + DigitValue(d), 1))
  {
    var ds := [a, b, c, d];
    assert ds[..3] == [a, b, c] && [a, b, c][..2] == [a, b] && [a, b][..1] == [a] && [a][..0] == [];
    assert [a, b, c] + [d] == ds;
    assert DigitsValue([a]) == DigitValue(a);
    assert DigitsValue([a, b]) == DigitValue(a) * 10 + DigitValue(b);
    assert DigitsValue([a, b, c]) == (DigitValue(a) * 10 + DigitValue(b)) * 10 + DigitValue(c);
    assert [a, b, c, '.', d] == [a, b, c] + "." + [d];
    WrittenReadsAs([a, b, c, '.', d], [a, b, c], [d], DigitsValue(ds));
  }

  /** Two digits, a point and one digit, as in "60.2". */
  lemma TwoOneReadsAs(a: char, b: char, d: char)
    requires IsDigit(a) && IsDigit(b) && IsDigit(d)
    ensures ReadsAs([a, b, '.', d], Decimal((DigitValue(a) * 10 + DigitValue(b)) * 10 + DigitValue(d), 1))
  {
    var ds := [a, b, d];
    assert ds[..2] == [a, b] && [a, b][..1] == [a] && [a][..0] == [];
    assert [a, b] + [d] == ds;
    assert DigitsValue([a]) == DigitValue(a);
    assert DigitsValue([a, b]) == DigitValue(a) * 10 + DigitValue(b);
    assert [a, b, '.', d] == [a, b] + "." + [d];
    WrittenReadsAs([a, b, '.', d], [a, b], [d], DigitsValue(ds));
  }

  /** The example reply is a report between "ok " and a newline. */
  lemma ExampleReply()
    ensures "ok " + ReportOf("205.1", "210.0", "60.2", "70.0") + "\n" == "ok T:205.1 /210.0 B:60.2 /70.0\n"
  {
    var s := "ok " + ReportOf("205.1", "210.0", "60.2", "70.0") + "\n";
    var t := "ok T:205.1 /210.0 B:60.2 /70.0\n";
    assert |s| == |t|;
    forall i | 0 <= i < |s| ensures s[i] == t[i] {
    }
  }

  /** A typical reply to M105 parsed into its four temperatures. */
  lemma ParseTempsExample()
    ensures ParseTemps("ok T:205.1 /210.0 B:60.2 /70.0\n")
         == Some(Temps(Decimal(2051, 1), Decimal(2100, 1), Decimal(602, 1), Decimal(700, 1)))
  {
    var t := Temps(Decimal(2051, 1), Decimal(2100, 1), Decimal(602, 1), Decimal(700, 1));
    ThreeOneReadsAs('2', '0', '5', '1');
    ThreeOneReadsAs('2', '1', '0', '0');
    TwoOneReadsAs('6', '0', '2');
    TwoOneReadsAs('7', '0', '0');
    ExampleReply();
    ParseReport("ok ", "205.1", "210.0", "60.2", "70.0", t, "\n");
  }

  // ---------------------------------------------------------------------
  // The driver

  class LivePrinterControl {
    const port: string
    const baud: int
    var connected: bool
    var device: seq<Rx>
    var trace: seq<Event>

    function State(): Link
      reads this
    {
      Link(connected, device, trace)
    }

    /** Connects at once; `device` is everything the link will deliver,
        its first line being the greeting. */
    constructor (port: string, baud: int, device: seq<Rx>)
      ensures this.port == port && this.baud == baud
      ensures State() == Connect(Link(false, device, []))
    {
      this.port := port;
      this.baud := baud;
      this.device := device;
      this.connected := false;
      this.trace := [];
      new;
      ConnectLive();
    }

    /** Opens the port and reads the greeting. A fault while reading it is
        a failed attempt, and the loop opens the port again. */
    method ConnectLive()
      modifies this
      ensures State() == Connect(old(State()))
    {
      connected := true;
      trace := trace + [Opened];
      while device != [] && device[0].Fault?
        invariant connected
        invariant Greet(State()) == Connect(old(State()))
        decreases |device|
      {
        device := device[1..];
        trace := trace + [Opened];
      }
      if device != [] {
        trace := trace + [Read(device[0].text)];
        device := device[1..];
      }
    }

    method Close()
      modifies this
      ensures State() == Link(false, old(device), old(trace))
    {
      if connected {
        connected := false;
      }
    }

    /** Writes the command and reads until a terminal line or a fault. */
    method SendLive(gcode: string) returns (r: Option<string>)
      modifies this
      ensures State() == Send(old(State()), gcode).link
      ensures r == Send(old(State()), gcode).reply
    {
      if !connected {
        ghost var l := State();
        ConnectLive();
        ConnectExtends(l);
      }
      trace := trace + [Wrote(gcode + "\n")];
      r := ReadResponse();
    }

    /** The reading loop of send_live, then the reconnection after a
        fault. */
    method ReadResponse() returns (r: Option<string>)
      requires connected
      modifies this
      ensures var s := ScanFrom(Readings(old(device)), "");
        var after := Link(true, old(device)[s.used..], old(trace) + Received(old(device)[..s.used]));
        && State() == (if s.verdict == LinkFault then Connect(after) else after)
        && r == (if s.verdict == Success then Some(s.buffer) else None)
    {
      var verdict, buffer, used := AwaitReply(device);
      trace := trace + Received(device[..used]);
      device := device[used..];
      if verdict == LinkFault {
        ConnectLive();
      }
      r := if verdict == Success then Some(buffer) else None;
    }

    method GetLiveTemp() returns (t: Option<Temps>)
      modifies this
      ensures State() == Send(old(State()), GetTemp).link
      ensures t == TempsOf(Send(old(State()), GetTemp).reply)
    {
      var resp := SendLive(GetTemp);
      if resp.Some? && resp.value != "" {
        t := ParseTemps(resp.value);
      } else {
        t := None;
      }
    }

    method EmergencyStopLive()
      modifies this
      ensures State() == SendAll(old(State()), [EmergencyStop])
    {
      ghost var l := State();
      var _ := SendLive(EmergencyStop);
      SendAllOne(l, EmergencyStop);
    }

    method SetTempLive(hotend: Option<Number> := None, bed: Option<Number> := None)
      modifies this
      ensures State() == SendAll(old(State()), TempCommands(hotend, bed))
    {
      ghost var l := State();
      ghost var hs: seq<string> := if hotend.Some? then ["M104 S" + NumberText(hotend.value)] else [];
      ghost var bs: seq<string> := if bed.Some? then ["M140 S" + NumberText(bed.value)] else [];
      if hotend.Some? {
        HotendTempFilled(NumberText(hotend.value));
        var _ := SendLive(Format(SetHotendTemp, NumberText(hotend.value)));
        SendAllOne(l, "M104 S" + NumberText(hotend.value));
      }
      ghost var mid := State();
      assert mid == SendAll(l, hs);
      if bed.Some? {
        BedTempFilled(NumberText(bed.value));
        var _ := SendLive(Format(SetBedTemp, NumberText(bed.value)));
        SendAllOne(mid, "M140 S" + NumberText(bed.value));
      }
      assert State() == SendAll(mid, bs);
      SendAllAppend(l, hs, bs);
    }

    method AdjustSpeedLive(percentage: int)
      modifies this
      ensures State() == SendAll(old(State()), [SpeedCommand(percentage)])
    {
      ghost var l := State();
      var _ := SendLive(Format(AdjustSpeed, IntText(percentage)));
      SendAllOne(l, SpeedCommand(percentage));
    }

    method PauseLive(reason: string := "AI PAUSED")
      modifies this
      ensures State() == SendAll(old(State()), PauseCommands(reason))
    {
      ghost var l := State();
      var _ := SendLive(Format(ShowMessage, ReplaceChar(reason, ' ', '_')));
      var _ := SendLive(PausePrint);
      SendAllTwo(l, Format(ShowMessage, ReplaceChar(reason, ' ', '_')), PausePrint);
    }

    method ResumeLive()
      modifies this
      ensures State() == SendAll(old(State()), ResumeCommands())
    {
      ghost var l := State();
      var _ := SendLive(Format(ShowMessage, "AI RESUMED"));
      var _ := SendLive(ResumePrint);
      SendAllTwo(l, Format(ShowMessage, "AI RESUMED"), ResumePrint);
    }
  }
}
