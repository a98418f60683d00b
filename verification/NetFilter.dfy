/** The hook: one packet, the static buffers it overwrites in place, and its verdict. */
module NetFilter {
  import opened CText
  import opened CLib
  import opened Extraction
  import opened Ntoa
  import opened Wrappers
  import opened Packets
  import DealConf
  import ConfRoundTrip

  class SkBuff {
    const broadcast: bool
    const data: array<char>

    constructor (broadcast: bool, data: array<char>)
      ensures this.broadcast == broadcast && this.data == data
    {
      this.broadcast, this.data := broadcast, data;
    }

    function Value(): Packet
      reads data
    {
      Packet(broadcast, data[..])
    }
  }

  class NetFilter {
    const conf: DealConf.DealConf
    const tcpUdpBody: array<char>
    const xmldest: array<char>
    const mymessagebuf: array<char>
    /** The kernel's address parser, about which nothing is assumed. */
    const inAton: string -> Addr

    ghost predicate Valid()
      reads conf.sourceip, conf.targetip
    {
      && conf.Valid()
      && tcpUdpBody.Length == xmldest.Length == mymessagebuf.Length == BUFFER_SIZE
      && xmldest != tcpUdpBody && mymessagebuf !in {tcpUdpBody, xmldest}
      && {tcpUdpBody, xmldest, mymessagebuf} !! conf.Buffers()
      && Terminated(conf.sourceip[..]) && Terminated(conf.targetip[..])
    }

    constructor (conf: DealConf.DealConf, inAton: string -> Addr)
      requires conf.Valid() && Terminated(conf.sourceip[..]) && Terminated(conf.targetip[..])
      ensures Valid() && this.conf == conf && this.inAton == inAton && StaticsNow() == Zeroed()
      ensures tcpUdpBody.Length == xmldest.Length == mymessagebuf.Length == 100000
      ensures fresh(tcpUdpBody) && fresh(xmldest) && fresh(mymessagebuf)
    {
      this.conf, this.inAton := conf, inAton;
      tcpUdpBody := new char[BUFFER_SIZE](_ => NUL);
      xmldest := new char[BUFFER_SIZE](_ => NUL);
      mymessagebuf := new char[BUFFER_SIZE](_ => NUL);
    }

    function PolicyNow(): Policy
      reads conf.sourceip, conf.targetip
    {
      Policy(inAton(CStr(conf.sourceip[..])), inAton(CStr(conf.targetip[..])))
    }

    function StaticsNow(): Statics
      reads tcpUdpBody, xmldest
    {
      Statics(tcpUdpBody[..], xmldest[..])
    }

    /** The string that a configuration buffer holds, converted by in_aton. */
    method Resolve(buf: array<char>) returns (addr: Addr)
      requires Terminated(buf[..])
      ensures addr == inAton(CStr(buf[..]))
    {
      assert buf[0..] == buf[..];
      var n := Strlen(buf, 0);
      addr := inAton(buf[..n]);
    }

    /** in_ntoa into a local buffer, read back for the %s of a report. */
    method Printed(addr: Addr) returns (s: string)
      ensures s == NtoaText(addr)
    {
      var sip := new char[100](_ => NUL);
      InNtoa(sip, addr);
      assert sip[0..] == sip[..];
      var n := Strlen(sip, 0);
      s := sip[..n];
    }

    method PrintedEndpoints(p: Packet) returns (s: string)
      requires HasIpHeader(p) && HasTransportHeader(p)
      ensures s == Endpoints(p)
    {
      var source := Printed(AddrAt(p.data, 12));
      var target := Printed(AddrAt(p.data, 16));
      var at := IpHeadLen(p);
      s := source + ":" + Decimal(U16At(p.data, at)) + " ---> " + target + ":" + Decimal(U16At(p.data, at + 2)) + "::";
    }

    /** The DEBUG macro: formats into mymessagebuf; the text goes on to sendMsgNetlink. */
    method Debug(text: string)
      requires |text| < mymessagebuf.Length && NUL !in text
      modifies mymessagebuf
      ensures CStr(mymessagebuf[..]) == text && Terminated(mymessagebuf[..])
    {
      Strcpy(mymessagebuf, text);
    }

    /** Copies the application data and terminates it. */
    method CopyBody(data: array<char>, at: nat, n: nat)
      requires data != tcpUdpBody && at + n <= data.Length && n < tcpUdpBody.Length
      modifies tcpUdpBody
      ensures tcpUdpBody[..] == Padded(data[at..], n) + [NUL] + old(tcpUdpBody[n + 1..])
    {
      Strncpy(tcpUdpBody, data, at, n);
      tcpUdpBody[n] := NUL;
    }

    /** The text in tcp_udp_body for the %s of a report. */
    method BodyText() returns (s: string)
      requires Terminated(tcpUdpBody[..])
      ensures s == CStr(tcpUdpBody[..])
    {
      assert tcpUdpBody[0..] == tcpUdpBody[..];
      var n := Strlen(tcpUdpBody, 0);
      s := tcpUdpBody[..n];
    }

    /** The buffers that a packet's bytes must not share. */
    ghost predicate Separate(skb: SkBuff)
    {
      skb.data !in {tcpUdpBody, xmldest, mymessagebuf} + conf.Buffers()
    }

    /** The common start of the TCP and UDP arms. */
    method StoreBody(data: array<char>, p: Packet, ghost policy: Policy)
      requires Valid() && data !in {tcpUdpBody} && p.data == data[..] && WellFormed(policy, p)
      requires Examined(policy, p) && CarriesText(p)
      modifies tcpUdpBody
      ensures tcpUdpBody[..] == BodyStored(old(tcpUdpBody[..]), policy, p)
      ensures Terminated(tcpUdpBody[..]) && CStr(tcpUdpBody[..]) == Body(policy, p)
      ensures NUL !in Body(policy, p) && |Body(policy, p)| <= 65535
    {
      hide Padded, Len, CStr, Find;
      ghost var was := tcpUdpBody[..];
      BodyReadsBack(was, policy, p);
      BodyLenBound(p);
      var at, bodyLen := Cursor(p);
      CopyBody(data, at, bodyLen);
      assert was[bodyLen + 1..] == old(tcpUdpBody[bodyLen + 1..]);
      assert data[at..] == p.data[at..];
    }

    /** The cursor arithmetic: behind the IP header, then behind the transport header. */
    method Cursor(p: Packet) returns (at: nat, bodyLen: int)
      requires HasIpHeader(p) && HasTransportHeader(p)
      ensures at == BodyAt(p) && bodyLen == BodyLen(p)
    {
      at := IpHeadLen(p);
      if Protocol(p) == IPPROTO_UDP {
        bodyLen := U16At(p.data, at + 4) - 8;
        at := at + 8;
      } else {
        var ipBodyLen := U16At(p.data, 2) - at;
        var headLen := p.data[at + 12] as int / 16 * 4;
        bodyLen := ipBodyLen - headLen;
        at := at + headLen;
      }
    }

    method HandleTcp(data: array<char>, p: Packet, ghost policy: Policy) returns (report: string)
      requires Valid() && data !in {tcpUdpBody} && p.data == data[..] && WellFormed(policy, p)
      requires Examined(policy, p) && Protocol(p) == IPPROTO_TCP
      modifies tcpUdpBody, mymessagebuf
      ensures StaticsNow() == Step(old(StaticsNow()), policy, p)
      ensures Report(policy, p) == Some(report) && CStr(mymessagebuf[..]) == report
    {
      hide Find, Padded, Len, CStr, BodyStored, Endpoints;
      StoreBody(data, p, policy);
      var endpoints := PrintedEndpoints(p);
      var text := BodyText();
      ReportFits("DEBUG:TCP:", p, text);
      report := "DEBUG:TCP:" + endpoints + text;
      Debug(report);
    }

    method HandleUdp(data: array<char>, p: Packet, ghost policy: Policy, operatorflag: int)
      returns (verdict: Verdict, report: Option<string>)
      requires Valid() && data !in {tcpUdpBody} && p.data == data[..] && WellFormed(policy, p)
      requires Examined(policy, p) && Protocol(p) == IPPROTO_UDP
      modifies tcpUdpBody, xmldest, mymessagebuf, conf.newcontent
      ensures StaticsNow() == Step(old(StaticsNow()), policy, p)
      ensures verdict == HookVerdict(old(StaticsNow()), policy, p, operatorflag)
      ensures Report(policy, p) == report
      ensures if report.Some? then CStr(mymessagebuf[..]) == report.value else mymessagebuf[..] == old(mymessagebuf[..])
    {
      hide Find, Padded, Len, CStr, BodyStored, Stored, Content, Encloses, Endpoints;
      DestReadsBack(StaticsNow(), policy, p);
      StoreBody(data, p, policy);
      ExtractMessage();
      assert StaticsNow() == Step(old(StaticsNow()), policy, p);
      assert xmldest[0..] == xmldest[..];
      var isB := StrEq(xmldest, 0, "B");
      if !isB {
        return Accept, None;
      }
      report := ReportUdp(p, policy);
      verdict := if operatorflag == 2 then Drop else Accept;
    }

    /** extract(xmldest, "message", tcp_udp_body, 0, 100) */
    method ExtractMessage()
      requires Valid() && Terminated(tcpUdpBody[..])
      modifies xmldest, conf.newcontent
      ensures xmldest[..] == Stored(old(xmldest[..]), Extracted(CStr(tcpUdpBody[..]), "message", 0), MESSAGE_MAXLEN)
    {
      TerminatedLen(tcpUdpBody[..]);
      conf.Extract(xmldest, "message", tcpUdpBody, 0, MESSAGE_MAXLEN);
    }

    method HandleOther(p: Packet, ghost policy: Policy) returns (report: string)
      requires Valid() && WellFormed(policy, p)
      requires Examined(policy, p) && !CarriesText(p)
      modifies mymessagebuf
      ensures StaticsNow() == old(StaticsNow())
      ensures Report(policy, p) == Some(report) && CStr(mymessagebuf[..]) == report
    {
      AddressesHarmless(p);
      ProtocolNameHarmless(Protocol(p));
      var source := Printed(AddrAt(p.data, 12));
      var target := Printed(AddrAt(p.data, 16));
      report := "DEBUG:" + ProtocolName(Protocol(p)) + (source + " ---> " + target);
      Debug(report);
    }

    method ReportUdp(p: Packet, ghost policy: Policy) returns (report: Option<string>)
      requires Valid() && WellFormed(policy, p) && Examined(policy, p) && Protocol(p) == IPPROTO_UDP
      requires Terminated(tcpUdpBody[..]) && CStr(tcpUdpBody[..]) == Body(policy, p)
      requires |Body(policy, p)| <= 65535 && Content(Body(policy, p), "message", 0) == "B"
      modifies mymessagebuf
      ensures Report(policy, p) == report && report.Some? && CStr(mymessagebuf[..]) == report.value
    {
      var endpoints := PrintedEndpoints(p);
      var text := BodyText();
      ReportFits("DEBUG:UDP:", p, text);
      var line := "DEBUG:UDP:" + endpoints + text;
      Debug(line);
      report := Some(line);
    }

    /** What loading the module does between reading the file and registering the hook: afterwards the hook
        filters from the first source address to the first target address of the configuration. */
    method LoadConf(data: array<char>)
      requires Valid() && Terminated(data[..]) && data !in conf.Buffers() + {tcpUdpBody, xmldest, mymessagebuf}
      requires DealConf.AllShort(DealConf.ParsedFields(CStr(data[..])))
      modifies conf.Buffers()
      ensures Valid() && StaticsNow() == old(StaticsNow())
      ensures PolicyNow() == Policy(inAton(Content(CStr(data[..]), "sourceip", 0)), inAton(Content(CStr(data[..]), "targetip", 0)))
      ensures forall items, tail ::
                ConfRoundTrip.Readable(items, tail, "sourceip") && ConfRoundTrip.Readable(items, tail, "targetip")
                && CStr(data[..]) == ConfRoundTrip.Render(items, tail) ==>
                  PolicyNow() == Policy(inAton(ConfRoundTrip.FirstValue(items, "sourceip")), inAton(ConfRoundTrip.FirstValue(items, "targetip")))
    {
      hide Content, Len, CStr, Terminated;
      var ret := conf.ParseConf(data);
      forall items, tail |
        ConfRoundTrip.Readable(items, tail, "sourceip") && ConfRoundTrip.Readable(items, tail, "targetip")
        && CStr(data[..]) == ConfRoundTrip.Render(items, tail)
        ensures PolicyNow() == Policy(inAton(ConfRoundTrip.FirstValue(items, "sourceip")), inAton(ConfRoundTrip.FirstValue(items, "targetip")))
      {
        ConfRoundTrip.RoundTrip(items, tail, "sourceip");
        ConfRoundTrip.RoundTrip(items, tail, "targetip");
      }
    }

    /** The tests in front of the switch: broadcasts pass, and so does everything that is not sent from
        the configured source to the configured target. */
    method Matches(p: Packet) returns (examined: bool)
      requires Valid() && HasIpHeader(p)
      ensures examined <==> Examined(PolicyNow(), p)
    {
      if p.broadcast {
        return false;
      }
      var source := Resolve(conf.sourceip);
      var target := Resolve(conf.targetip);
      examined := AddrAt(p.data, 12) == source && AddrAt(p.data, 16) == target;
    }

    /** Everything behind the null test. */
    method Filter(skb: SkBuff, operatorflag: int) returns (verdict: Verdict, report: Option<string>)
      requires Valid() && Separate(skb) && WellFormed(PolicyNow(), skb.Value())
      modifies tcpUdpBody, xmldest, mymessagebuf, conf.newcontent
      ensures StaticsNow() == Step(old(StaticsNow()), PolicyNow(), skb.Value())
      ensures verdict == HookVerdict(old(StaticsNow()), PolicyNow(), skb.Value(), operatorflag)
      ensures report == Report(PolicyNow(), skb.Value())
      ensures if report.Some? then CStr(mymessagebuf[..]) == report.value else mymessagebuf[..] == old(mymessagebuf[..])
    {
      hide Find, Body, Content, Encloses, BodyStored, Stored, Endpoints, Addresses, ProtocolName;
      var p := skb.Value();
      ghost var policy := PolicyNow();
      var examined := Matches(p);
      if !examined {
        return Accept, None;
      }
      if Protocol(p) == IPPROTO_UDP {
        verdict, report := HandleUdp(skb.data, p, policy, operatorflag);
      } else if Protocol(p) == IPPROTO_TCP {
        var text := HandleTcp(skb.data, p, policy);
        verdict, report := Accept, Some(text);
      } else {
        var text := HandleOther(p, policy);
        verdict, report := Accept, Some(text);
      }
    }

    /** hook_func, as one serialised step. The report is what the DEBUG macro hands to
        sendMsgNetlink. */
    method HookFunc(skb: SkBuff?, operatorflag: int) returns (verdict: Verdict, report: Option<string>)
      requires Valid()
      requires skb != null ==> Separate(skb) && WellFormed(PolicyNow(), skb.Value())
      modifies tcpUdpBody, xmldest, mymessagebuf, conf.newcontent
      ensures Valid() && PolicyNow() == old(PolicyNow())
      ensures skb == null ==> verdict == Accept && report == None && StaticsNow() == old(StaticsNow())
      ensures skb != null ==> StaticsNow() == Step(old(StaticsNow()), PolicyNow(), skb.Value())
      ensures skb != null ==>
                var d, h := skb.data[..], skb.data[0] as int % 16 * 4;
                verdict == Drop <==>
                && !skb.broadcast && d[9] as int == 17 && operatorflag == 2
                && Addr(d[12] as int, d[13] as int, d[14] as int, d[15] as int) == inAton(CStr(conf.sourceip[..]))
                && Addr(d[16] as int, d[17] as int, d[18] as int, d[19] as int) == inAton(CStr(conf.targetip[..]))
                && Encloses(CStr(d[h + 8..h + 256 * d[h + 4] as int + d[h + 5] as int]), "message", 0, "B")
      ensures skb != null ==> report == Report(PolicyNow(), skb.Value())
      ensures if report.Some? then CStr(mymessagebuf[..]) == report.value else mymessagebuf[..] == old(mymessagebuf[..])
    {
      hide Step, HookVerdict, Report, Encloses, Len, CStr;
      if skb == null {
        return Accept, None;
      }
      VerdictBytes(StaticsNow(), PolicyNow(), skb.Value(), operatorflag);
      verdict, report := Filter(skb, operatorflag);
    }
  }
}
