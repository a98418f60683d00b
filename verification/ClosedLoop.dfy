/** The whole loop: packets raise reports, the client answers reports with commands, commands set the
    operator flag, and the flag decides the next verdict. The client is the only commander. */
module ClosedLoop {
  import opened CText
  import opened Extraction
  import opened ConfRoundTrip
  import opened Wrappers
  import opened Packets
  import opened Frames
  import opened Requests
  import opened PyClient
  import opened NetLink
  import Printer

  /** The kernel's session state and static buffers, and the frames under way in both directions. */
  datatype Loop = Loop(kernel: Kernel, statics: Statics, toClient: seq<seq<char>>, toKernel: seq<seq<char>>)

  /** What can happen next. junk stands for the bytes of a frame that nobody writes. */
  datatype Event =
    | Arrive(p: Packet, junk: seq<char>)
    | ClientReceives
    | ClientMisses
    | KernelReceives(junk: seq<char>)

  /** A system: the configured addresses and the client's process id. */
  datatype System = System(policy: Policy, pid: nat)

  predicate SystemOk(sys: System) {
    0 < sys.pid < 0x1_0000_0000
  }

  /** The frame of a text: header, text, terminator, padding. */
  function Frame(message: string, junk: seq<char>): (frame: seq<char>)
    ensures frame != []
  {
    var k := Align(ReplyLen(message)) - ReplyLen(message);
    PackHeader(ReplyHeader(message)) + (message + [NUL] + (if k <= |junk| then junk[..k] else seq(k, _ => NUL)))
  }

  lemma FrameIsReply(message: string, junk: seq<char>)
    ensures IsReply(Frame(message, junk), message)
  {
    var frame := Frame(message, junk);
    assert frame[..HEADER_SIZE] == PackHeader(ReplyHeader(message));
    assert frame[HEADER_SIZE..ReplyLen(message)] == message + [NUL];
  }

  /** sendMsgNetlink: nothing is sent while no client is connected. */
  function Notify(toClient: seq<seq<char>>, target: nat, message: string, junk: seq<char>): seq<seq<char>> {
    if target == 0 then toClient else toClient + [Frame(message, junk)]
  }

  predicate EventOk(sys: System, e: Event) {
    e.Arrive? ==> WellFormed(sys.policy, e.p)
  }

  predicate LoopOk(s: Loop) {
    Sized(s.statics) && forall i :: 0 <= i < |s.toClient| ==> s.toClient[i] != []
  }

  /** A packet passes the hook: the buffers change, and its report goes to the client. */
  function Arrived(sys: System, s: Loop, p: Packet, junk: seq<char>): (s': Loop)
    requires LoopOk(s) && WellFormed(sys.policy, p)
    ensures LoopOk(s')
  {
    var report := Report(sys.policy, p);
    Loop(s.kernel, Step(s.statics, sys.policy, p),
         if report.None? then s.toClient else Notify(s.toClient, s.kernel.pid, report.value, junk), s.toKernel)
  }

  /** The client takes the next frame, and answers it or not. */
  function ClientTook(sys: System, s: Loop): (s': Loop)
    requires LoopOk(s) && s.toClient != []
    ensures LoopOk(s')
  {
    var reply := Answer(s.toClient[0], sys.pid);
    Loop(s.kernel, s.statics, s.toClient[1..], s.toKernel + if reply.None? then [] else [reply.value])
  }

  /** The answer of the kernel to a request: a connect is answered to the new pid, a disconnect to
      the old one. */
  function Greet(toClient: seq<seq<char>>, k: Kernel, r: Request, junk: seq<char>): seq<seq<char>> {
    if r.Connect? then Notify(toClient, r.pid, CONNECTED, junk)
    else if r.Disconnect? then Notify(toClient, k.pid, DISCONNECTED, junk)
    else toClient
  }

  /** The kernel takes the next frame. */
  function KernelTook(s: Loop, junk: seq<char>): (s': Loop)
    requires LoopOk(s) && s.toKernel != []
    ensures LoopOk(s')
  {
    var r := Decode(s.toKernel[0]);
    Loop(Receive(s.kernel, r), s.statics, Greet(s.toClient, s.kernel, r, junk), s.toKernel[1..])
  }

  function Next(sys: System, s: Loop, e: Event): (s': Loop)
    requires LoopOk(s) && EventOk(sys, e)
    ensures LoopOk(s')
  {
    match e
    case Arrive(p, junk) => Arrived(sys, s, p, junk)
    case ClientReceives => if s.toClient == [] then s else ClientTook(sys, s)
    case ClientMisses => if s.toClient == [] then s else s.(toClient := s.toClient[1..])
    case KernelReceives(junk) => if s.toKernel == [] then s else KernelTook(s, junk)
  }

  /** The client has sent its connection request; the static buffers hold anything. */
  function Start(sys: System, statics: Statics): (s: Loop)
    requires Sized(statics)
    ensures LoopOk(s)
  {
    Loop(INITIAL, statics, [], [ConnectFrame(sys.pid)])
  }

  /** One step of the loop. */
  predicate StepOk(sys: System, s: Loop, e: Event, s': Loop) {
    LoopOk(s) && EventOk(sys, e) && s' == Next(sys, s, e)
  }

  /** The events of a run, and the states before, between and after them. */
  datatype Trace = Trace(states: seq<Loop>, events: seq<Event>)

  predicate IsRun(sys: System, t: Trace) {
    && SystemOk(sys)
    && |t.states| == |t.events| + 1
    && (forall i :: 0 <= i < |t.states| ==> LoopOk(t.states[i]))
    && t.states[0] == Start(sys, t.states[0].statics)
    && forall i :: 0 <= i < |t.events| ==> StepOk(sys, t.states[i], t.events[i], t.states[i + 1])
  }

  /** Every sequence of events, from every contents of the buffers, is a run. */
  lemma {:induction false} RunExists(sys: System, statics: Statics, es: seq<Event>) returns (t: Trace)
    requires SystemOk(sys) && Sized(statics) && forall i :: 0 <= i < |es| ==> EventOk(sys, es[i])
    ensures IsRun(sys, t) && t.events == es && t.states[0].statics == statics
  {
    hide Next, LoopOk, EventOk, ConnectFrame;
    if es == [] {
      t := Trace([Start(sys, statics)], es);
    } else {
      var n := |es| - 1;
      var u := RunExists(sys, statics, es[..n]);
      var last := Next(sys, u.states[n], es[n]);
      t := Trace(u.states + [last], es);
      assert forall i :: 0 <= i < n ==> StepOk(sys, u.states[i], u.events[i], u.states[i + 1]);
      assert StepOk(sys, t.states[n], t.events[n], t.states[n + 1]);
    }
  }

  /** The packets that arrived before step k. */
  function ArrivalsOf(es: seq<Event>, k: nat): seq<Packet>
    requires k <= |es|
  {
    if k == 0 then [] else ArrivalsOf(es, k - 1) + if es[k - 1].Arrive? then [es[k - 1].p] else []
  }

  /** The requests that the kernel received before step k. */
  function RequestsOf(t: Trace, k: nat): seq<Request>
    requires k <= |t.events| < |t.states|
  {
    if k == 0 then []
    else
      var s := t.states[k - 1];
      RequestsOf(t, k - 1) + if t.events[k - 1].KernelReceives? && s.toKernel != [] then [Decode(s.toKernel[0])] else []
  }

  /** In every state of every run the kernel's session state is what replaying the received requests
      yields, and the static buffers are what the packets that arrived leave: the two halves of the
      kernel do not disturb each other. */
  lemma {:induction false} KernelOfRun(sys: System, t: Trace, k: nat)
    requires IsRun(sys, t) && k < |t.states|
    ensures t.states[k].kernel == Replay(INITIAL, RequestsOf(t, k))
    ensures AllWellFormed(sys.policy, ArrivalsOf(t.events, k))
    ensures t.states[k].statics == After(t.states[0].statics, sys.policy, ArrivalsOf(t.events, k))
  {
    hide Decode, Packets.Step, WellFormed, Report, Answer, Receive, ConnectFrame, Greet;
    if k > 0 {
      var s, e, s' := t.states[k - 1], t.events[k - 1], t.states[k];
      KernelOfRun(sys, t, k - 1);
      assert StepOk(sys, s, e, s');
      var ps, rs := ArrivalsOf(t.events, k - 1), RequestsOf(t, k - 1);
      assert ps + [] == ps && rs + [] == rs;
      if e.Arrive? {
        AfterOneMore(t.states[0].statics, sys.policy, ps, e.p);
      } else if e.KernelReceives? && s.toKernel != [] {
        var r := Decode(s.toKernel[0]);
        assert (rs + [r])[..|rs + [r]| - 1] == rs;
      }
    }
  }

  /** The text that the kernel sends to the client in a step. */
  function Told(sys: System, s: Loop, e: Event): Option<string>
    requires EventOk(sys, e)
  {
    if e.Arrive? && s.kernel.pid != 0 then Report(sys.policy, e.p)
    else if e.KernelReceives? && s.toKernel != [] then
      var r := Decode(s.toKernel[0]);
      if r.Connect? && r.pid != 0 then Some("you have connected to the kernel!")
      else if r.Disconnect? && s.kernel.pid != 0 then Some("you have disconnected to the kernel!")
      else None
    else None
  }

  /** What every step does to the two queues: who takes takes the first frame, who sends appends one. */
  lemma QueuesOfStep(sys: System, s: Loop, e: Event, s': Loop)
    requires StepOk(sys, s, e, s')
    ensures var taken := if (e.ClientReceives? || e.ClientMisses?) && s.toClient != [] then s.toClient[1..] else s.toClient;
            var told := Told(sys, s, e);
            if told.None? then s'.toClient == taken
            else s'.toClient != [] && s'.toClient[..|s'.toClient| - 1] == taken && IsReply(s'.toClient[|s'.toClient| - 1], told.value)
    ensures var taken := if e.KernelReceives? && s.toKernel != [] then s.toKernel[1..] else s.toKernel;
            s'.toKernel == taken + if e.ClientReceives? && s.toClient != [] && Answer(s.toClient[0], sys.pid).Some? then [DropFrame(sys.pid)] else []
  {
    hide Report, Decode, IsReply, HandleData, DropFrame, Received, Packets.Step, Frame;
    match e
    case Arrive(p, junk) =>
      if Told(sys, s, e).Some? {
        FrameIsReply(Told(sys, s, e).value, junk);
      }
    case KernelReceives(junk) =>
      if Told(sys, s, e).Some? {
        FrameIsReply(Told(sys, s, e).value, junk);
      }
    case ClientReceives =>
    case ClientMisses =>
  }

  /** What the hook answers for a packet in a state of the loop. */
  function VerdictIn(sys: System, s: Loop, p: Packet): Verdict
    requires LoopOk(s) && WellFormed(sys.policy, p)
  {
    HookVerdict(s.statics, sys.policy, p, s.kernel.operatorflag)
  }

  /** The source reads the flag after it has sent the report. A verdict with a flag read in a later state
      is the verdict on the same packet in that state. */
  lemma LateFlag(sys: System, s: Loop, later: Loop, p: Packet)
    requires LoopOk(s) && LoopOk(later) && WellFormed(sys.policy, p)
    ensures HookVerdict(s.statics, sys.policy, p, later.kernel.operatorflag) == VerdictIn(sys, later, p)
  {
    VerdictExact(s.statics, sys.policy, p, later.kernel.operatorflag);
    VerdictExact(later.statics, sys.policy, p, later.kernel.operatorflag);
  }

  /** Only the client's two frames are under way to the kernel, only its pid is stored, and no
      command but "drop" was ever given. */
  predicate OnlyDropCommands(sys: System, s: Loop) {
    && (forall i :: 0 <= i < |s.toKernel| ==> s.toKernel[i] == ConnectFrame(sys.pid) || s.toKernel[i] == DropFrame(sys.pid))
    && s.kernel.operatorflag in {0, 2}
    && s.kernel.pid in {0, sys.pid}
  }

  lemma NextKeepsDropCommands(sys: System, s: Loop, e: Event)
    requires SystemOk(sys) && LoopOk(s) && EventOk(sys, e) && OnlyDropCommands(sys, s)
    ensures OnlyDropCommands(sys, Next(sys, s, e))
    ensures s.kernel.operatorflag == 2 ==> Next(sys, s, e).kernel.operatorflag == 2
    ensures e.KernelReceives? && s.toKernel != [] && s.toKernel[0] == DropFrame(sys.pid) ==>
              Next(sys, s, e).kernel.operatorflag == 2
  {
    hide KernelTook, Decode;
    if e.KernelReceives? && s.toKernel != [] {
      KernelStepKeepsDropCommands(sys, s, e.junk);
    }
  }

  lemma KernelStepKeepsDropCommands(sys: System, s: Loop, junk: seq<char>)
    requires SystemOk(sys) && LoopOk(s) && OnlyDropCommands(sys, s) && s.toKernel != []
    ensures var s' := KernelTook(s, junk);
            && OnlyDropCommands(sys, s')
            && (s.kernel.operatorflag == 2 || s.toKernel[0] == DropFrame(sys.pid) ==> s'.kernel.operatorflag == 2)
  {
    hide Decode, ConnectFrame, DropFrame, Frame;
    ClientFramesDecode(sys.pid);
    var r := Decode(s.toKernel[0]);
    assert s.toKernel[0] == ConnectFrame(sys.pid) || s.toKernel[0] == DropFrame(sys.pid);
    assert r == Connect(sys.pid) || r == Command("drop");
    assert s.toKernel[0] == DropFrame(sys.pid) ==> r == Command("drop");
  }

  /** In every state of every run. */
  lemma {:induction false} OnlyDropCommandsAlways(sys: System, t: Trace, i: nat)
    requires IsRun(sys, t) && i < |t.states|
    ensures OnlyDropCommands(sys, t.states[i])
  {
    if i > 0 {
      hide Next, Start, LoopOk, EventOk, OnlyDropCommands;
      OnlyDropCommandsAlways(sys, t, i - 1);
      assert StepOk(sys, t.states[i - 1], t.events[i - 1], t.states[i]);
      NextKeepsDropCommands(sys, t.states[i - 1], t.events[i - 1]);
    }
  }

  /** Once set to drop, the flag stays. */
  lemma {:induction false} FlagStays(sys: System, t: Trace, i: nat, j: nat)
    requires IsRun(sys, t) && i <= j < |t.states| && t.states[i].kernel.operatorflag == 2
    ensures t.states[j].kernel.operatorflag == 2
    decreases j
  {
    hide Next, Start, LoopOk, EventOk, OnlyDropCommands;
    if i < j {
      FlagStays(sys, t, i, j - 1);
      OnlyDropCommandsAlways(sys, t, j - 1);
      assert StepOk(sys, t.states[j - 1], t.events[j - 1], t.states[j]);
      NextKeepsDropCommands(sys, t.states[j - 1], t.events[j - 1]);
    }
  }

  /** The verdicts on packets that carry B are accepts first and drops from then on: once anything
      is dropped, every later packet that carries B is, in every run. */
  lemma AcceptsThenDrops(sys: System, t: Trace, i: nat, j: nat, q: Packet, p: Packet)
    requires IsRun(sys, t) && i <= j < |t.states| && WellFormed(sys.policy, q) && WellFormed(sys.policy, p)
    requires VerdictIn(sys, t.states[i], q) == Drop && CarriesB(sys.policy, p)
    ensures VerdictIn(sys, t.states[j], p) == Drop
  {
    hide StepOk, Start;
    VerdictExact(t.states[i].statics, sys.policy, q, t.states[i].kernel.operatorflag);
    FlagStays(sys, t, i, j);
    VerdictExact(t.states[j].statics, sys.policy, p, t.states[j].kernel.operatorflag);
  }

  /** How many of the events i to j are receipts by the kernel. */
  function KernelSteps(es: seq<Event>, i: nat, j: nat): nat
    requires j <= |es|
    decreases j - i
  {
    if i >= j then 0 else (if es[i].KernelReceives? then 1 else 0) + KernelSteps(es, i + 1, j)
  }

  /** A command under way is carried out once the kernel has received everything up to it. */
  lemma {:induction false} CommandArrives(sys: System, t: Trace, i: nat, j: nat, n: nat)
    requires IsRun(sys, t) && i <= j < |t.states| && n < |t.states[i].toKernel|
    requires t.states[i].toKernel[n] == DropFrame(sys.pid) && n < KernelSteps(t.events, i, j)
    ensures t.states[j].kernel.operatorflag == 2
    decreases j - i
  {
    hide Start, LoopOk, EventOk, OnlyDropCommands, DropFrame, Decode, Greet, Report, Step;
    OnlyDropCommandsAlways(sys, t, i);
    assert StepOk(sys, t.states[i], t.events[i], t.states[i + 1]);
    NextKeepsDropCommands(sys, t.states[i], t.events[i]);
    if t.events[i].KernelReceives? {
      if n == 0 {
        FlagStays(sys, t, i + 1, j);
      } else {
        CommandArrives(sys, t, i + 1, j, n - 1);
      }
    } else {
      CommandArrives(sys, t, i + 1, j, n);
    }
  }

  /** The packet's report makes the client answer, if the client sees all of it. */
  predicate Provokes(policy: Policy, p: Packet)
    requires WellFormed(policy, p)
  {
    var report := Report(policy, p);
    report.Some? && HandleData(report.value) == Some("B")
  }

  /** Exactly the examined UDP and TCP packets whose text encloses B and has no close tag in front of
      its open tag: what the report prints in front of the text adds no tag, and the reports of other
      protocols have none. (The kernel drops no TCP packet, but its report sets the client off.) */
  lemma ProvokesExact(policy: Policy, p: Packet)
    requires WellFormed(policy, p)
    ensures Provokes(policy, p) <==>
            && Examined(policy, p) && CarriesText(p)
            && Encloses(Body(policy, p), "message", 0, "B")
            && Find(Body(policy, p), OPEN, 0) < Find(Body(policy, p), CLOSE, 0)
  {
    hide Find, Encloses, HandleData, Content, Body;
    if Examined(policy, p) && CarriesText(p) {
      var body := Body(policy, p);
      EndpointsHarmless(p);
      PrefixHarmless("DEBUG:UDP:" + Endpoints(p), body);
      PrefixHarmless("DEBUG:TCP:" + Endpoints(p), body);
      ExtractorsAgree(body, "B");
      ContentIsEnclosed(body, "message", 0, "B");
    } else if Examined(policy, p) {
      ProtocolNameHarmless(Protocol(p));
      AddressesHarmless(p);
      PlainTextIsNotHandled("DEBUG:" + ProtocolName(Protocol(p)) + Addresses(p));
    }
  }

  /** A text that the kernel reads as B and the client as empty. */
  lemma ShieldedText()
    ensures var text := CLOSE + (Tagged("message", "B") + "");
            Content(text, "message", 0) == "B" && HandleData(text) == Some("")
  {
    var rest := Tagged("message", "B") + "";
    var text := CLOSE + rest;
    assert NameOk("message");
    assert CLOSE == Close("message") && OPEN == Open("message");
    CloseTagIsNoOpenTag("message", rest, "message");
    assert Close("message")[1..] == "/message>";
    SkipTag(CLOSE, rest, "message");
    assert !Contains("B", Close("message"));
    ReadItem("B", "", "message");
    assert OccursAt(text, CLOSE, 0);
    FindIs(text, CLOSE, 0, 0);
    assert Find(text, OPEN, 0) >= 0;
    CloseTagInFront(text);
  }

  /** The two ends, with the cut that the kernel makes: on every text in which the kernel sees something,
      the client sees the same exactly when the open tag comes before any close tag and the content is
      shorter than 100 characters. */
  lemma ReadersAgree(text: string)
    requires Seen(text) != ""
    ensures HandleData(text) == Some(Seen(text)) <==>
            Find(text, OPEN, 0) < Find(text, CLOSE, 0) && |Content(text, "message", 0)| < MESSAGE_MAXLEN
  {
    hide Find, HandleData, Content;
    ExtractorsAgree(text, Content(text, "message", 0));
    ExtractorsAgree(text, Seen(text));
  }

  /** A text in order of which the client sees 120 characters and the kernel 99. */
  lemma LongText()
    ensures var c := seq(120, _ => 'x');
            && HandleData(Tagged("message", c)) == Some(c)
            && Seen(Tagged("message", c)) == c[..99]
            && Find(Tagged("message", c), OPEN, 0) < Find(Tagged("message", c), CLOSE, 0)
  {
    var c := seq(120, _ => 'x');
    Leading(c, "");
    assert Tagged("message", c) + "" == Tagged("message", c);
  }

  /** A text without '<' that stands tagged at the start is read at both ends. */
  lemma Leading(c: string, rest: string)
    requires c != "" && Printer.Plain(c)
    ensures Content(Tagged("message", c) + rest, "message", 0) == c
    ensures HandleData(Tagged("message", c) + rest) == Some(c)
    ensures 0 <= Find(Tagged("message", c) + rest, OPEN, 0) < Find(Tagged("message", c) + rest, CLOSE, 0)
  {
    var text := Tagged("message", c) + rest;
    assert CLOSE == Close("message") && OPEN == Open("message");
    Printer.PlainContainsNoTag(c, Close("message"));
    hide Find;
    ReadItem(c, rest, "message");
    assert text == OPEN + c + CLOSE + rest;
    assert OccursAt(text, OPEN, 0) && OccursAt(text, CLOSE, 9 + |c|);
    assert text[0..10][1] == 'm';
    assert !OccursAt(text, CLOSE, 0);
    FindIs(text, OPEN, 0, 0);
    FindAtMost(text, CLOSE, 0, 9 + |c|);
    FindFacts(text, CLOSE, 0);
    ExtractorsAgree(text, c);
  }

  /** A packet that carries B and provokes. */
  lemma LeadingBPacket(policy: Policy, rest: string)
    requires IsBytes(rest) && |rest| <= 1000 && NUL !in rest
    ensures IsBytes(Tagged("message", "B") + rest) && |Tagged("message", "B")| == 20
    ensures var p := UdpPacket(policy, Tagged("message", "B") + rest);
            WellFormed(policy, p) && CarriesB(policy, p) && Provokes(policy, p)
            && Report(policy, p) == Some("DEBUG:UDP:" + Endpoints(p) + (Tagged("message", "B") + rest))
  {
    hide Find, UdpPacket, Encloses, Tagged, Content, HandleData, Provokes, Endpoints;
    var text := Tagged("message", "B") + rest;
    TaggedB();
    Leading("B", rest);
    UdpPacketFound(policy, text);
    UdpPacketEndpoints(policy, text);
    ContentIsEnclosed(text, "message", 0, "B");
    ProvokesExact(policy, UdpPacket(policy, text));
  }

  lemma TaggedB()
    ensures var b := Tagged("message", "B"); IsBytes(b) && NUL !in b && |b| == 20
  {
    assert Tagged("message", "B") == "<message>B</message>";
  }

  /** The client, too, reads back what the sender printed. */
  lemma PrintedIsHandled(id: string, title: string, event: string)
    requires Printer.Plain(id) && Printer.Plain(title) && Printer.Plain(event) && event != ""
    ensures HandleData(Printer.Printed(id, title, event)) == Some(event)
  {
    var text := Printer.Printed(id, title, event);
    Printer.PrintedIsExtracted(id, title, event);
    Printer.MessageTagsInOrder(id, title, event);
    ExtractorsAgree(text, event);
  }

  /** For an examined UDP packet whose text a sender printed: it carries B, and its report would make
      the client answer, exactly when the event is B; and the client sees the close tag of the report
      exactly when the size field fits one byte, that is, when the printed addresses, the id, the title
      and the event have at most 135 characters together. */
  lemma PrintedPacket(policy: Policy, p: Packet, id: string, title: string, event: string)
    requires WellFormed(policy, p) && Examined(policy, p) && Protocol(p) == IPPROTO_UDP
    requires Printer.Plain(id) && Printer.Plain(title) && Printer.Plain(event)
    requires Body(policy, p) == Printer.Printed(id, title, event)
    ensures CarriesB(policy, p) <==> event == "B"
    ensures Provokes(policy, p) <==> event == "B"
    ensures Report(policy, p).Some? ==>
              (Visible(Report(policy, p).value) <==> |Endpoints(p)| + |id| + |title| + |event| <= 135)
  {
    hide Find, Content, Encloses, HandleData, Endpoints;
    var text := Body(policy, p);
    Printer.PrintedIsExtracted(id, title, event);
    ContentIsEnclosed(text, "message", 0, "B");
    Printer.MessageTagsInOrder(id, title, event);
    ProvokesExact(policy, p);
    PrintedReportVisible(p, id, title, event);
  }

  lemma PrintedReportVisible(p: Packet, id: string, title: string, event: string)
    requires HasIpHeader(p) && HasTransportHeader(p)
    requires Printer.Plain(id) && Printer.Plain(title) && Printer.Plain(event)
    ensures Visible("DEBUG:UDP:" + Endpoints(p) + Printer.Printed(id, title, event))
            <==> |Endpoints(p)| + |id| + |title| + |event| <= 135
  {
    hide Find, Printer.Printed, Endpoints;
    var prefix, text := "DEBUG:UDP:" + Endpoints(p), Printer.Printed(id, title, event);
    Printer.PrintedLength(id, title, event);
    Printer.CloseTagAt(id, title, event);
    EndpointsHarmless(p);
    NoTagIn(prefix, text, CLOSE);
    FindSkip(prefix, text, CLOSE);
  }

  /** For every configuration there is a packet that carries B and whose report encloses B, and to
      whose reply the client does not answer: the size field's low byte is zero. */
  lemma LostToClipping(policy: Policy) returns (p: Packet)
    ensures WellFormed(policy, p) && CarriesB(policy, p) && Provokes(policy, p)
    ensures forall frame, pid :: IsReply(frame, Report(policy, p).value) ==> Answer(frame, pid) == None
  {
    hide Find, UdpPacket, Endpoints, ZeroPortEndpoints, Answer, HandleData, Provokes, CarriesB, IsReply, Tagged;
    var tagged := Tagged("message", "B");
    TaggedB();
    var short := "DEBUG:UDP:" + ZeroPortEndpoints(policy) + tagged;
    var n := FillUp(ReplyLen(short));
    var rest := seq(n, _ => 'x');
    p := UdpPacket(policy, tagged + rest);
    LeadingBPacket(policy, rest);
    UdpPacketEndpoints(policy, tagged + rest);
    assert |Report(policy, p).value| == |short| + n;
    NotAnswered(Report(policy, p).value);
  }

  lemma FillUp(len: nat) returns (n: nat)
    ensures n < 256 && (len + n) % 256 == 0
  {
    n := 255 - (len + 255) % 256;
  }

  lemma NotAnswered(report: string)
    requires ReplyLen(report) % 256 == 0
    ensures forall frame, pid :: IsReply(frame, report) ==> Answer(frame, pid) == None
  {
    hide Find, Answer, HandleData;
    forall frame, pid | IsReply(frame, report)
      ensures Answer(frame, pid) == None
    {
      AnswerExact(frame, report, pid);
    }
  }

  /** The loop closes: once the client has received the report of a packet that provokes it, and seen
      its close tag, and the kernel has received everything that was under way and the answer, every
      packet that carries B is dropped, in every run. */
  lemma LoopCloses(sys: System, t: Trace, i: nat, j: nat, q: Packet, p: Packet)
    requires IsRun(sys, t) && i < j < |t.states| && WellFormed(sys.policy, q) && WellFormed(sys.policy, p)
    requires Provokes(sys.policy, q) && CarriesB(sys.policy, p)
    requires t.events[i].ClientReceives? && t.states[i].toClient != []
    requires IsReply(t.states[i].toClient[0], Report(sys.policy, q).value)
    requires Visible(Report(sys.policy, q).value)
    requires |t.states[i].toKernel| < KernelSteps(t.events, i + 1, j)
    ensures VerdictIn(sys, t.states[j], p) == Drop
  {
    hide Start, Report, DropFrame;
    var s := t.states[i];
    AnswerExact(s.toClient[0], Report(sys.policy, q).value, sys.pid);
    assert StepOk(sys, s, t.events[i], t.states[i + 1]);
    assert t.states[i + 1].toKernel == s.toKernel + [DropFrame(sys.pid)];
    CommandArrives(sys, t, i + 1, j, |s.toKernel|);
    VerdictExact(t.states[j].statics, sys.policy, p, t.states[j].kernel.operatorflag);
  }

  /** How many of the events i to j take a frame from the client's queue. */
  function ClientSteps(es: seq<Event>, i: nat, j: nat): nat
    requires j <= |es|
    decreases j
  {
    if i >= j then 0
    else ClientSteps(es, i, j - 1) + if es[j - 1].ClientReceives? || es[j - 1].ClientMisses? then 1 else 0
  }

  /** The queue to the client is first in, first out: what is not yet taken is still there, in order. */
  lemma {:induction false} QueueMoves(sys: System, t: Trace, i: nat, j: nat)
    requires IsRun(sys, t) && i <= j < |t.states|
    requires ClientSteps(t.events, i, j) <= |t.states[i].toClient|
    ensures t.states[i].toClient[ClientSteps(t.events, i, j)..] <= t.states[j].toClient
    decreases j
  {
    hide Start, LoopOk, EventOk, Report, Packets.Step, Decode, Answer, Frame;
    if i < j {
      QueueMoves(sys, t, i, j - 1);
      assert StepOk(sys, t.states[j - 1], t.events[j - 1], t.states[j]);
    }
  }

  /** From the arrival to the verdict: a packet that provokes the client arrives while the client is
      connected; everything in front of its report is taken from the queue; the client then receives
      the report, the kernel receives the answer, and every packet that carries B is dropped. */
  lemma ArrivalClosesLoop(sys: System, t: Trace, i: nat, m: nat, j: nat, q: Packet, p: Packet)
    requires IsRun(sys, t) && i < m < j < |t.states| && WellFormed(sys.policy, p) && CarriesB(sys.policy, p)
    requires t.events[i].Arrive? && t.events[i].p == q && t.states[i].kernel.pid != 0
    requires WellFormed(sys.policy, q) && Provokes(sys.policy, q) && Visible(Report(sys.policy, q).value)
    requires t.events[m].ClientReceives? && ClientSteps(t.events, i + 1, m) == |t.states[i].toClient|
    requires |t.states[m].toKernel| < KernelSteps(t.events, m + 1, j)
    ensures VerdictIn(sys, t.states[j], p) == Drop
  {
    hide Start, Report, Provokes, Visible, CarriesB, Frame, Packets.Step, VerdictIn;
    ProvokesHasReport(sys.policy, q);
    var report, junk := Report(sys.policy, q).value, t.events[i].junk;
    assert StepOk(sys, t.states[i], t.events[i], t.states[i + 1]);
    assert t.states[i + 1].toClient == t.states[i].toClient + [Frame(report, junk)];
    QueueMoves(sys, t, i + 1, m);
    assert t.states[m].toClient[0] == Frame(report, junk);
    FrameIsReply(report, junk);
    LoopCloses(sys, t, m, j, q, p);
  }

  lemma ProvokesHasReport(policy: Policy, p: Packet)
    requires WellFormed(policy, p) && Provokes(policy, p)
    ensures Report(policy, p).Some?
  {
  }

  predicate Quiet(sys: System, s: Loop)
    requires LoopOk(s)
  {
    && (forall i :: 0 <= i < |s.toClient| ==> Answer(s.toClient[i], sys.pid) == None)
    && (forall i :: 0 <= i < |s.toKernel| ==> s.toKernel[i] == ConnectFrame(sys.pid))
    && s.kernel.operatorflag == 0
  }

  /** A packet arrives that provokes the client, while a client is connected, and the client will see the
      report as far as its close tag. */
  predicate Causes(sys: System, s: Loop, e: Event) {
    && s.kernel.pid != 0 && e.Arrive? && WellFormed(sys.policy, e.p)
    && Provokes(sys.policy, e.p) && Visible(Report(sys.policy, e.p).value)
  }

  lemma ReportIsQuiet(sys: System, message: string, junk: seq<char>)
    requires HandleData(message) != Some("B") || !Visible(message)
    ensures Answer(Frame(message, junk), sys.pid) == None
  {
    FrameIsReply(message, junk);
    AnswerExact(Frame(message, junk), message, sys.pid);
  }

  lemma GreetingIsQuiet(sys: System, junk: seq<char>)
    ensures Answer(Frame(CONNECTED, junk), sys.pid) == None
  {
    assert '<' !in CONNECTED;
    PlainTextIsNotHandled(CONNECTED);
    ReportIsQuiet(sys, CONNECTED, junk);
  }

  lemma ArriveKeepsQuiet(sys: System, s: Loop, p: Packet, junk: seq<char>)
    requires LoopOk(s) && WellFormed(sys.policy, p) && Quiet(sys, s) && !Causes(sys, s, Arrive(p, junk))
    ensures Quiet(sys, Arrived(sys, s, p, junk))
  {
    hide Find, Answer, HandleData, Frame, Step, Report, Visible;
    var report := Report(sys.policy, p);
    if report.Some? && s.kernel.pid != 0 {
      ReportIsQuiet(sys, report.value, junk);
    }
  }

  lemma KernelKeepsQuiet(sys: System, s: Loop, junk: seq<char>)
    requires SystemOk(sys) && LoopOk(s) && Quiet(sys, s) && s.toKernel != []
    ensures Quiet(sys, KernelTook(s, junk))
  {
    hide Answer, ConnectFrame, DropFrame, Decode, Frame;
    assert s.toKernel[0] == ConnectFrame(sys.pid);
    ClientFramesDecode(sys.pid);
    GreetingIsQuiet(sys, junk);
  }

  lemma NextKeepsQuiet(sys: System, s: Loop, e: Event)
    requires SystemOk(sys) && LoopOk(s) && EventOk(sys, e) && Quiet(sys, s) && !Causes(sys, s, e)
    ensures Quiet(sys, Next(sys, s, e))
  {
    match e
    case Arrive(p, junk) => ArriveKeepsQuiet(sys, s, p, junk);
    case KernelReceives(junk) =>
      if s.toKernel != [] {
        KernelKeepsQuiet(sys, s, junk);
      }
    case ClientReceives =>
    case ClientMisses =>
  }

  lemma {:induction false} QuietUntilProvoked(sys: System, t: Trace, j: nat)
    requires IsRun(sys, t) && j < |t.states| && forall i :: 0 <= i < j ==> !Causes(sys, t.states[i], t.events[i])
    ensures Quiet(sys, t.states[j])
  {
    if j > 0 {
      hide Next, Start, EventOk, Quiet, Causes;
      QuietUntilProvoked(sys, t, j - 1);
      assert StepOk(sys, t.states[j - 1], t.events[j - 1], t.states[j]);
      NextKeepsQuiet(sys, t.states[j - 1], t.events[j - 1]);
    }
  }

  /** Nothing is ever dropped without cause: a drop in any run is preceded by a packet that provokes the
      client, arrives while a client is connected, and whose report the client sees up to its close tag. */
  lemma DropHasCause(sys: System, t: Trace, j: nat, p: Packet)
    requires IsRun(sys, t) && j < |t.states| && WellFormed(sys.policy, p)
    requires VerdictIn(sys, t.states[j], p) == Drop
    ensures exists i :: 0 <= i < j && Causes(sys, t.states[i], t.events[i])
  {
    if forall i :: 0 <= i < j ==> !Causes(sys, t.states[i], t.events[i]) {
      QuietUntilProvoked(sys, t, j);
      VerdictExact(t.states[j].statics, sys.policy, p, t.states[j].kernel.operatorflag);
    }
  }

  /** The events of a run that closes the loop: the client is connected, the packet arrives, the client
      receives the greeting and the report, and the kernel receives the answer. */
  function ClosingEvents(p: Packet): seq<Event> {
    [KernelReceives([]), Arrive(p, []), ClientReceives, ClientReceives, KernelReceives([])]
  }

  /** The first events of such a run: the connection is stored and greeted. */
  lemma Connected(sys: System, t: Trace)
    requires IsRun(sys, t) && |t.events| >= 1 && t.events[0] == KernelReceives([])
    ensures t.states[1].kernel == Kernel(sys.pid, 0) && t.states[1].toKernel == []
    ensures t.states[1].toClient == [Frame(CONNECTED, [])]
  {
    hide Decode, Frame, ConnectFrame;
    ClientFramesDecode(sys.pid);
    assert StepOk(sys, t.states[0], t.events[0], t.states[1]);
  }

  /** For every configuration and every contents of the buffers there is a run in which the same packet
      is accepted when it arrives and dropped later on. */
  lemma LoopCanClose(sys: System, statics: Statics) returns (t: Trace, p: Packet)
    requires SystemOk(sys) && Sized(statics)
    ensures IsRun(sys, t) && t.states[0].statics == statics && |t.states| == 6
    ensures WellFormed(sys.policy, p) && t.events[1] == Arrive(p, [])
    ensures VerdictIn(sys, t.states[1], p) == Accept && VerdictIn(sys, t.states[5], p) == Drop
  {
    hide Start, LoopOk, Report, Provokes, CarriesB, Frame, VerdictIn, Visible, UdpPacket, ConnectFrame, Packets.Step;
    p := VisibleB(sys.policy);
    t := RunExists(sys, statics, ClosingEvents(p));
    Connected(sys, t);
    VerdictBefore(sys, t.states[1], p);
    GreetingPasses(sys, t, p);
    assert ClientSteps(t.events, 2, 3) == 1;
    assert KernelSteps(t.events, 4, 5) == 1;
    ArrivalClosesLoop(sys, t, 1, 3, 5, p, p);
  }

  lemma VerdictBefore(sys: System, s: Loop, p: Packet)
    requires LoopOk(s) && WellFormed(sys.policy, p) && s.kernel.operatorflag == 0
    ensures VerdictIn(sys, s, p) == Accept
  {
    VerdictExact(s.statics, sys.policy, p, s.kernel.operatorflag);
  }

  /** The client does not answer the greeting. */
  lemma GreetingPasses(sys: System, t: Trace, p: Packet)
    requires IsRun(sys, t) && |t.events| >= 3 && t.events[..3] == ClosingEvents(p)[..3]
    requires t.states[1].toClient == [Frame(CONNECTED, [])] && t.states[1].toKernel == []
    ensures t.states[3].toKernel == []
  {
    hide Start, Report, Frame, Packets.Step, Answer;
    assert t.events[1] == t.events[..3][1] && t.events[2] == t.events[..3][2];
    assert StepOk(sys, t.states[1], t.events[1], t.states[2]);
    assert StepOk(sys, t.states[2], t.events[2], t.states[3]);
    assert t.states[2].toClient[0] == Frame(CONNECTED, []);
    GreetingIsQuiet(sys, []);
  }

  /** A packet that carries B and whose report reaches the client as far as its close tag. */
  lemma VisibleB(policy: Policy) returns (p: Packet)
    ensures WellFormed(policy, p) && CarriesB(policy, p) && Provokes(policy, p)
    ensures Visible(Report(policy, p).value)
  {
    hide Find, UdpPacket, Endpoints, HandleData;
    p := UdpPacket(policy, Tagged("message", "B") + "");
    LeadingBPacket(policy, "");
    EndpointsHarmless(p);
  }
}
