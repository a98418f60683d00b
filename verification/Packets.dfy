/** Packets as the hook reads them, the verdict they deserve, and what one call does to the static
    buffers that survive from packet to packet. */
module Packets {
  import opened CText
  import opened CLib
  import opened Extraction
  import opened Ntoa
  import opened Wrappers

  const BUFFER_SIZE: nat := 100000
  const MESSAGE_MAXLEN: nat := 100

  const IPPROTO_IP := 0
  const IPPROTO_ICMP := 1
  const IPPROTO_IGMP := 2
  const IPPROTO_TCP := 6
  const IPPROTO_PUP := 12
  const IPPROTO_UDP := 17
  const IPPROTO_IDP := 22
  const IPPROTO_GRE := 47
  const IPPROTO_ESP := 50
  const IPPROTO_AH := 51
  const IPPROTO_RAW := 255

  datatype Verdict = Accept | Drop

  /** The two configured addresses, already converted by in_aton. */
  datatype Policy = Policy(source: Addr, target: Addr)

  /** A socket buffer: its kind and its bytes from the IP header on (section 3.1 of RFC 791). */
  datatype Packet = Packet(broadcast: bool, data: seq<char>)

  /** ntohs of two bytes. */
  function U16At(data: seq<char>, i: nat): nat
    requires i + 2 <= |data|
  {
    256 * data[i] as int + data[i + 1] as int
  }

  function AddrAt(data: seq<char>, i: nat): Addr
    requires i + 4 <= |data| && IsBytes(data)
  {
    Addr(data[i] as int, data[i + 1] as int, data[i + 2] as int, data[i + 3] as int)
  }

  predicate HasIpHeader(p: Packet) {
    20 <= |p.data| && IsBytes(p.data)
  }

  function IpHeadLen(p: Packet): nat
    requires HasIpHeader(p)
  {
    p.data[0] as int % 16 * 4
  }

  function Protocol(p: Packet): nat
    requires HasIpHeader(p)
  {
    p.data[9] as int
  }

  function Source(p: Packet): Addr
    requires HasIpHeader(p)
  {
    AddrAt(p.data, 12)
  }

  function Target(p: Packet): Addr
    requires HasIpHeader(p)
  {
    AddrAt(p.data, 16)
  }

  /** Not a broadcast, and both addresses are the configured ones. */
  predicate Examined(policy: Policy, p: Packet)
    requires HasIpHeader(p)
  {
    !p.broadcast && Source(p) == policy.source && Target(p) == policy.target
  }

  predicate HasTransportHeader(p: Packet)
    requires HasIpHeader(p)
  {
    IpHeadLen(p) + (if Protocol(p) == IPPROTO_UDP then 8 else 20) <= |p.data|
  }

  /** Where the application data starts: behind the 8 bytes of a UDP header (RFC 768), or behind
      the data offset of a TCP header (section 3.1 of RFC 793). */
  function BodyAt(p: Packet): nat
    requires HasIpHeader(p) && HasTransportHeader(p)
  {
    if Protocol(p) == IPPROTO_UDP then IpHeadLen(p) + 8
    else IpHeadLen(p) + p.data[IpHeadLen(p) + 12] as int / 16 * 4
  }

  function BodyLen(p: Packet): int
    requires HasIpHeader(p) && HasTransportHeader(p)
  {
    if Protocol(p) == IPPROTO_UDP then U16At(p.data, IpHeadLen(p) + 4) - 8
    else U16At(p.data, 2) - BodyAt(p)
  }

  predicate CarriesText(p: Packet)
    requires HasIpHeader(p)
  {
    Protocol(p) == IPPROTO_UDP || Protocol(p) == IPPROTO_TCP
  }

  /** The bytes that the hook reads are there. */
  predicate WellFormed(policy: Policy, p: Packet) {
    && HasIpHeader(p)
    && (Examined(policy, p) && CarriesText(p) ==>
          HasTransportHeader(p) && 0 <= BodyLen(p) && BodyAt(p) + BodyLen(p) <= |p.data|)
  }

  /** Of every other packet the hook reads no more than the IP header. */
  lemma OthersWellFormed(policy: Policy, p: Packet)
    requires 20 <= |p.data| && IsBytes(p.data) && !(Examined(policy, p) && CarriesText(p))
    ensures WellFormed(policy, p)
  {
  }

  /** The application data up to its first NUL. */
  function Body(policy: Policy, p: Packet): string
    requires WellFormed(policy, p) && Examined(policy, p) && CarriesText(p)
  {
    CStr(p.data[BodyAt(p)..BodyAt(p) + BodyLen(p)])
  }

  /** The bytes of a datagram: an IP header whose first byte gives its length in words, the transport
      header, the application data, and whatever the link layer added (section 3.1 of RFC 791). */
  predicate IsDatagram(data: seq<char>, protocol: nat, ip: seq<char>, head: seq<char>, payload: seq<char>, trailer: seq<char>) {
    && data == ip + head + payload + trailer && IsBytes(data)
    && |ip| >= 20 && ip[0] as int % 16 * 4 == |ip| && ip[9] as int == protocol
  }

  /** RFC 768: eight bytes of header, and a length field that counts them and the data. */
  predicate IsUdp(data: seq<char>, ip: seq<char>, udp: seq<char>, payload: seq<char>, trailer: seq<char>) {
    && IsDatagram(data, 17, ip, udp, payload, trailer)
    && |udp| == 8 && 256 * udp[4] as int + udp[5] as int == |udp| + |payload|
  }

  /** Section 3.1 of RFC 793: the data offset gives the header's length in words; the length of the
      data follows from the total length in the IP header. */
  predicate IsTcp(data: seq<char>, ip: seq<char>, tcp: seq<char>, payload: seq<char>, trailer: seq<char>) {
    && IsDatagram(data, 6, ip, tcp, payload, trailer)
    && |tcp| >= 20 && tcp[12] as int / 16 * 4 == |tcp|
    && 256 * ip[2] as int + ip[3] as int == |ip| + |tcp| + |payload|
  }

  lemma DatagramFields(data: seq<char>, protocol: nat, ip: seq<char>, head: seq<char>, payload: seq<char>, trailer: seq<char>)
    requires IsDatagram(data, protocol, ip, head, payload, trailer)
    ensures data[..|ip|] == ip && data[|ip|..|ip| + |head|] == head
    ensures data[|ip| + |head|..|ip| + |head| + |payload|] == payload
  {
  }

  /** The hook finds the application data of every UDP datagram. */
  lemma UdpBodyFound(policy: Policy, p: Packet, ip: seq<char>, udp: seq<char>, payload: seq<char>, trailer: seq<char>)
    requires IsUdp(p.data, ip, udp, payload, trailer)
    ensures WellFormed(policy, p) && Protocol(p) == IPPROTO_UDP
    ensures Examined(policy, p) ==> Body(policy, p) == CStr(payload)
  {
    DatagramFields(p.data, IPPROTO_UDP, ip, udp, payload, trailer);
    assert p.data[0] == ip[0] && p.data[9] == ip[9];
    assert p.data[|ip| + 4] == udp[4] && p.data[|ip| + 5] == udp[5];
    assert BodyAt(p) == |ip| + 8 && BodyLen(p) == |payload|;
  }

  /** And that of every TCP segment. */
  lemma TcpBodyFound(policy: Policy, p: Packet, ip: seq<char>, tcp: seq<char>, payload: seq<char>, trailer: seq<char>)
    requires IsTcp(p.data, ip, tcp, payload, trailer)
    ensures WellFormed(policy, p) && Protocol(p) == IPPROTO_TCP
    ensures Examined(policy, p) ==> Body(policy, p) == CStr(payload)
  {
    DatagramFields(p.data, IPPROTO_TCP, ip, tcp, payload, trailer);
    assert p.data[0] == ip[0] && p.data[9] == ip[9] && p.data[2] == ip[2] && p.data[3] == ip[3];
    assert p.data[|ip| + 12] == tcp[12];
    assert BodyAt(p) == |ip| + |tcp| && BodyLen(p) == |payload|;
  }

  ghost predicate HasUdpPayload(data: seq<char>, payload: seq<char>) {
    exists ip, udp, trailer :: IsUdp(data, ip, udp, payload, trailer)
  }

  ghost predicate HasTcpPayload(data: seq<char>, payload: seq<char>) {
    exists ip, tcp, trailer :: IsTcp(data, ip, tcp, payload, trailer)
  }

  /** Conversely, what the hook takes for the application data is it: a packet with a complete IP
      header that is well-formed for the hook is laid out in just this way. (The hook tests neither
      the length of the IP header nor that of the TCP header.) */
  lemma BodyIsPayload(policy: Policy, p: Packet)
    requires WellFormed(policy, p) && Examined(policy, p) && CarriesText(p) && IpHeadLen(p) >= 20
    ensures var payload := p.data[BodyAt(p)..BodyAt(p) + BodyLen(p)];
            && (Protocol(p) == IPPROTO_UDP ==> HasUdpPayload(p.data, payload))
            && (Protocol(p) == IPPROTO_TCP && BodyAt(p) >= IpHeadLen(p) + 20 ==> HasTcpPayload(p.data, payload))
  {
    var h, at, n := IpHeadLen(p), BodyAt(p), BodyLen(p);
    if Protocol(p) == IPPROTO_UDP || at >= h + 20 {
      var ip, head, payload, trailer := p.data[..h], p.data[h..at], p.data[at..at + n], p.data[at + n..];
      assert p.data == ip + head + payload + trailer;
      assert IsDatagram(p.data, Protocol(p), ip, head, payload, trailer);
      if Protocol(p) == IPPROTO_UDP {
        assert IsUdp(p.data, ip, head, payload, trailer);
      } else {
        assert IsTcp(p.data, ip, head, payload, trailer);
      }
    }
  }

  /** An IP header of 20 bytes for n bytes of UDP data, between the configured addresses. */
  function IpHeader(policy: Policy, n: nat): (ip: seq<char>)
    requires n <= 65507
    ensures |ip| == 20 && IsBytes(ip) && ip[0] as int == 69 && ip[9] as int == IPPROTO_UDP
    ensures AddrAt(ip, 12) == policy.source && AddrAt(ip, 16) == policy.target
  {
    var (s, t) := (policy.source, policy.target);
    [69 as char, NUL, ((28 + n) / 256) as char, ((28 + n) % 256) as char, NUL, NUL, NUL, NUL,
     64 as char, IPPROTO_UDP as char, NUL, NUL,
     s.a as char, s.b as char, s.c as char, s.d as char, t.a as char, t.b as char, t.c as char, t.d as char]
  }

  function UdpHeader(n: nat): (udp: seq<char>)
    requires n <= 65507
    ensures |udp| == 8 && IsBytes(udp) && U16At(udp, 0) == U16At(udp, 2) == 0 && U16At(udp, 4) == 8 + n
  {
    [NUL, NUL, NUL, NUL, ((8 + n) / 256) as char, ((8 + n) % 256) as char, NUL, NUL]
  }

  /** A UDP packet with a text, from the configured source to the configured target. */
  function UdpPacket(policy: Policy, text: string): (p: Packet)
    requires IsBytes(text) && |text| <= 65507
    ensures HasIpHeader(p)
  {
    Packet(false, IpHeader(policy, |text|) + UdpHeader(|text|) + text + [])
  }

  lemma AddrInside(ip: seq<char>, rest: seq<char>, i: nat)
    requires i + 4 <= |ip| && IsBytes(ip + rest) && IsBytes(ip)
    ensures AddrAt(ip + rest, i) == AddrAt(ip, i)
  {
  }

  lemma CStrOfPlain(text: string)
    requires NUL !in text
    ensures CStr(text) == text
  {
    CStrIs(text + [NUL], text);
    LenOfCut(text + [NUL], |text|);
    assert (text + [NUL])[..|text|] == text;
  }

  /** It is examined, and the hook reads its text. */
  lemma UdpPacketFound(policy: Policy, text: string)
    requires IsBytes(text) && |text| <= 65507 && NUL !in text
    ensures var p := UdpPacket(policy, text);
            && WellFormed(policy, p) && Examined(policy, p) && Protocol(p) == IPPROTO_UDP
            && Body(policy, p) == text
  {
    hide IpHeader, UdpHeader;
    var p, ip, udp := UdpPacket(policy, text), IpHeader(policy, |text|), UdpHeader(|text|);
    UdpBodyFound(policy, p, ip, udp, text, []);
    CStrOfPlain(text);
    assert p.data == ip + (udp + text + []);
    AddrInside(ip, udp + text + [], 12);
    AddrInside(ip, udp + text + [], 16);
  }

  function ZeroPortEndpoints(policy: Policy): string {
    NtoaText(policy.source) + ":" + Decimal(0) + " ---> " + NtoaText(policy.target) + ":" + Decimal(0) + "::"
  }

  /** Its ports are zero, so the start of its report depends on the configured addresses only. */
  lemma UdpPacketEndpoints(policy: Policy, text: string)
    requires IsBytes(text) && |text| <= 65507 && NUL !in text
    ensures HasTransportHeader(UdpPacket(policy, text))
    ensures Endpoints(UdpPacket(policy, text)) == ZeroPortEndpoints(policy)
  {
    hide IpHeader, UdpHeader, NtoaText, Decimal;
    var p, ip, udp := UdpPacket(policy, text), IpHeader(policy, |text|), UdpHeader(|text|);
    UdpPacketFound(policy, text);
    DatagramFields(p.data, IPPROTO_UDP, ip, udp, text, []);
    assert forall i :: 0 <= i < 4 ==> p.data[20 + i] == udp[i];
  }

  /** An examined UDP packet whose text encloses exactly B. */
  ghost predicate CarriesB(policy: Policy, p: Packet)
    requires WellFormed(policy, p)
  {
    && Examined(policy, p) && Protocol(p) == IPPROTO_UDP
    && Encloses(Body(policy, p), "message", 0, "B")
  }

  /** The static buffers tcp_udp_body and xmldest. */
  datatype Statics = Statics(body: seq<char>, dest: seq<char>)

  predicate Sized(s: Statics) {
    |s.body| == |s.dest| == BUFFER_SIZE
  }

  lemma BodyLenBound(p: Packet)
    requires HasIpHeader(p) && HasTransportHeader(p)
    ensures BodyLen(p) <= 65535
  {
  }

  /** strncpy of the application data and the terminator behind it; older characters stay. */
  function BodyStored(old_: seq<char>, policy: Policy, p: Packet): (cells: seq<char>)
    requires WellFormed(policy, p) && Examined(policy, p) && CarriesText(p) && |old_| == BUFFER_SIZE
    ensures |cells| == BUFFER_SIZE
  {
    BodyLenBound(p);
    Padded(p.data[BodyAt(p)..], BodyLen(p)) + [NUL] + old_[BodyLen(p) + 1..]
  }

  lemma BodyReadsBack(old_: seq<char>, policy: Policy, p: Packet)
    requires WellFormed(policy, p) && Examined(policy, p) && CarriesText(p) && |old_| == BUFFER_SIZE
    ensures Terminated(BodyStored(old_, policy, p))
    ensures CStr(BodyStored(old_, policy, p)) == Body(policy, p)
    ensures NUL !in Body(policy, p) && |Body(policy, p)| <= 65535
  {
    hide Padded, Len, CStr, Terminated;
    BodyLenBound(p);
    var at, n := BodyAt(p), BodyLen(p);
    var rest, tail := p.data[at..], old_[n + 1..];
    assert BodyStored(old_, policy, p) == Padded(rest, n) + [NUL] + tail;
    assert p.data[at..at + n] == rest[..n];
    CopyReadsBack(rest, n, tail);
  }

  /** A terminated strncpy of n characters reads back as the string that the n characters hold. */
  lemma CopyReadsBack(src: seq<char>, n: nat, tail: seq<char>)
    requires n <= |src|
    ensures var cells := Padded(src, n) + [NUL] + tail;
            Terminated(cells) && CStr(cells) == CStr(src[..n])
    ensures NUL !in CStr(src[..n]) && |CStr(src[..n])| <= n
  {
    var cells, text := Padded(src, n) + [NUL] + tail, CStr(src[..n]);
    LenOfCut(src, n);
    assert cells[n] == NUL;
    assert cells[..|text|] == text;
    CStrIs(cells, text);
  }

  lemma LenOfCut(s: seq<char>, n: nat)
    requires n <= |s|
    ensures Len(s[..n]) == if Len(s) < n then Len(s) else n
  {
    var cut := s[..n];
    var m := if Len(s) < n then Len(s) else n;
    assert forall i :: 0 <= i < Len(cut) ==> cut[i] == s[i];
    assert forall i :: 0 <= i < m ==> cut[i] == s[i] && s[i] != NUL;
    assert m < n ==> cut[m] == s[m];
  }

  /** What one call of the hook leaves in the static buffers. */
  function Step(s: Statics, policy: Policy, p: Packet): (s': Statics)
    requires Sized(s) && WellFormed(policy, p)
    ensures Sized(s')
  {
    if !Examined(policy, p) || !CarriesText(p) then s
    else
      var body := BodyStored(s.body, policy, p);
      if Protocol(p) == IPPROTO_UDP then
        Statics(body, Stored(s.dest, Extracted(CStr(body), "message", 0), MESSAGE_MAXLEN))
      else
        s.(body := body)
  }

  /** The verdict as the hook computes it: it compares what xmldest holds after the extraction. */
  function HookVerdict(s: Statics, policy: Policy, p: Packet, operatorflag: int): Verdict
    requires Sized(s) && WellFormed(policy, p)
  {
    if Examined(policy, p) && Protocol(p) == IPPROTO_UDP && CStr(Step(s, policy, p).dest) == "B" && operatorflag == 2
    then Drop else Accept
  }

  /** Reading xmldest back decides about the text of this packet and nothing else. */
  lemma DestReadsBack(s: Statics, policy: Policy, p: Packet)
    requires Sized(s) && WellFormed(policy, p) && Examined(policy, p) && Protocol(p) == IPPROTO_UDP
    ensures Terminated(Step(s, policy, p).dest)
    ensures CStr(Step(s, policy, p).dest) == "B" <==> Content(Body(policy, p), "message", 0) == "B"
    ensures CStr(Step(s, policy, p).dest) == "B" <==> CarriesB(policy, p)
  {
    hide Find;
    BodyReadsBack(s.body, policy, p);
    var c := Extracted(Body(policy, p), "message", 0);
    ExtractedNulFree(Body(policy, p), "message", 0);
    StoredReadsBack(s.dest, c, MESSAGE_MAXLEN);
    StaleCellsDoNotMatter(s.dest, c, MESSAGE_MAXLEN, "B");
    ContentIsEnclosed(Body(policy, p), "message", 0, "B");
  }

  /** No call of the hook has left a character in xmldest at or behind the cut. */
  predicate CleanTail(dest: seq<char>) {
    forall i :: MESSAGE_MAXLEN - 1 <= i < |dest| ==> dest[i] == NUL
  }

  /** The static buffers when the module has been loaded: C clears them. */
  function Zeroed(): (s: Statics)
    ensures Sized(s) && CleanTail(s.dest)
  {
    Statics(seq(BUFFER_SIZE, _ => NUL), seq(BUFFER_SIZE, _ => NUL))
  }

  lemma StoredKeepsTail(dest: seq<char>, c: string)
    requires |c| < |dest| && CleanTail(dest)
    ensures CleanTail(Stored(dest, c, MESSAGE_MAXLEN))
  {
  }

  lemma StepKeepsTail(s: Statics, policy: Policy, p: Packet)
    requires Sized(s) && WellFormed(policy, p) && CleanTail(s.dest)
    ensures CleanTail(Step(s, policy, p).dest)
  {
    hide Stored, CleanTail, Extracted, BodyStored;
    if Examined(policy, p) && Protocol(p) == IPPROTO_UDP {
      BodyReadsBack(s.body, policy, p);
      StoredKeepsTail(s.dest, Extracted(Body(policy, p), "message", 0));
    }
  }

  /** The verdict, exactly, whatever the static buffers held. */
  lemma VerdictExact(s: Statics, policy: Policy, p: Packet, operatorflag: int)
    requires Sized(s) && WellFormed(policy, p)
    ensures HookVerdict(s, policy, p, operatorflag) == Drop <==> CarriesB(policy, p) && operatorflag == 2
  {
    if Examined(policy, p) && Protocol(p) == IPPROTO_UDP {
      DestReadsBack(s, policy, p);
    }
  }

  /** The same on the bytes of the packet, with nothing of this file in between: no broadcast, protocol 17,
      flag 2, both addresses as configured, and UDP data, as long as the UDP header says, that encloses
      B up to its first NUL. */
  lemma VerdictBytes(s: Statics, policy: Policy, p: Packet, operatorflag: int)
    requires Sized(s) && WellFormed(policy, p)
    ensures var d, h := p.data, p.data[0] as int % 16 * 4;
            HookVerdict(s, policy, p, operatorflag) == Drop <==>
            && !p.broadcast && d[9] as int == 17 && operatorflag == 2
            && Addr(d[12] as int, d[13] as int, d[14] as int, d[15] as int) == policy.source
            && Addr(d[16] as int, d[17] as int, d[18] as int, d[19] as int) == policy.target
            && Encloses(CStr(d[h + 8..h + 256 * d[h + 4] as int + d[h + 5] as int]), "message", 0, "B")
  {
    hide Encloses, CStr, HookVerdict;
    VerdictExact(s, policy, p, operatorflag);
  }

  /** What one call leaves in the static buffers, cell by cell: of a TCP or UDP packet from source to target
      the data up to its first NUL, NULs up to its length, and one more; everything behind is kept. Only
      a UDP packet touches xmldest. */
  lemma StepCells(s: Statics, policy: Policy, p: Packet, i: nat)
    requires Sized(s) && WellFormed(policy, p) && i < BUFFER_SIZE
    ensures var s' := Step(s, policy, p);
            if Examined(policy, p) && CarriesText(p) then
              && s'.body[i] == (if i < |Body(policy, p)| then Body(policy, p)[i] else if i <= BodyLen(p) then NUL else s.body[i])
              && (Protocol(p) == IPPROTO_TCP ==> s'.dest == s.dest)
            else s' == s
  {
    hide Stored, Extracted, Body, BodyStored;
    if Examined(policy, p) && CarriesText(p) {
      BodyCells(s.body, policy, p, i);
    }
  }

  lemma BodyCells(old_: seq<char>, policy: Policy, p: Packet, i: nat)
    requires WellFormed(policy, p) && Examined(policy, p) && CarriesText(p) && |old_| == BUFFER_SIZE && i < BUFFER_SIZE
    ensures BodyStored(old_, policy, p)[i] ==
            if i < |Body(policy, p)| then Body(policy, p)[i] else if i <= BodyLen(p) then NUL else old_[i]
  {
    hide Padded, Len;
    BodyLenBound(p);
    var at, n := BodyAt(p), BodyLen(p);
    var rest := p.data[at..];
    assert p.data[at..at + n] == rest[..n];
    LenOfCut(rest, n);
    assert BodyStored(old_, policy, p) == Padded(rest, n) + [NUL] + old_[n + 1..];
  }

  /** "DEBUG:UDP:" and the two endpoints, then the text of the packet. */
  function Endpoints(p: Packet): string
    requires HasIpHeader(p) && HasTransportHeader(p)
  {
    var at := IpHeadLen(p);
    NtoaText(Source(p)) + ":" + Decimal(U16At(p.data, at)) + " ---> "
    + NtoaText(Target(p)) + ":" + Decimal(U16At(p.data, at + 2)) + "::"
  }

  function Addresses(p: Packet): string
    requires HasIpHeader(p)
  {
    NtoaText(Source(p)) + " ---> " + NtoaText(Target(p))
  }

  /** How the report of a protocol without text starts. */
  function ProtocolName(protocol: nat): string {
    if protocol == IPPROTO_ESP || protocol == IPPROTO_AH then "ESP AND AH:"
    else if protocol == IPPROTO_ICMP then "ICMP:"
    else if protocol == IPPROTO_IGMP then "IGMP:"
    else if protocol == IPPROTO_PUP then "PUP:"
    else if protocol == IPPROTO_IDP then "IDP:"
    else if protocol == IPPROTO_IP then "IP:"
    else if protocol == IPPROTO_RAW then "RAW:"
    else if protocol == IPPROTO_GRE then "GRE:"
    else "Other Protocol=" + Decimal(protocol) + ", "
  }

  /** The line that one call hands to sendMsgNetlink, if any. */
  function Report(policy: Policy, p: Packet): Option<string>
    requires WellFormed(policy, p)
  {
    if !Examined(policy, p) then None
    else if Protocol(p) == IPPROTO_UDP then
      if Content(Body(policy, p), "message", 0) == "B" then Some("DEBUG:UDP:" + Endpoints(p) + Body(policy, p))
      else None
    else if Protocol(p) == IPPROTO_TCP then Some("DEBUG:TCP:" + Endpoints(p) + Body(policy, p))
    else Some("DEBUG:" + ProtocolName(Protocol(p)) + Addresses(p))
  }

  /** When a packet is reported: always when it is examined, but a UDP packet only when it encloses B. */
  lemma ReportedExact(policy: Policy, p: Packet)
    requires WellFormed(policy, p)
    ensures Report(policy, p).Some? <==>
            Examined(policy, p) && (Protocol(p) == 17 ==> Encloses(Body(policy, p), "message", 0, "B"))
  {
    hide Find, Encloses;
    if Examined(policy, p) && Protocol(p) == IPPROTO_UDP {
      ContentIsEnclosed(Body(policy, p), "message", 0, "B");
    }
  }

  /** The report of a UDP or TCP packet: addresses and ports in the order of the headers, ports in network
      byte order, then the text. */
  lemma TextReport(policy: Policy, p: Packet)
    requires WellFormed(policy, p) && Report(policy, p).Some? && CarriesText(p)
    ensures var d, h := p.data, p.data[0] as int % 16 * 4;
            Report(policy, p).value ==
            (if d[9] as int == 17 then "DEBUG:UDP:" else "DEBUG:TCP:")
            + (NtoaText(policy.source) + ":" + Decimal(256 * d[h] as int + d[h + 1] as int) + " ---> "
               + NtoaText(policy.target) + ":" + Decimal(256 * d[h + 2] as int + d[h + 3] as int) + "::")
            + Body(policy, p)
  {
    hide Content, Body, NtoaText, Decimal;
  }

  /** The report of every other protocol, by its number. */
  lemma ProtocolReport(policy: Policy, p: Packet)
    requires WellFormed(policy, p) && Examined(policy, p) && p.data[9] as int != 17 && p.data[9] as int != 6
    ensures var n := p.data[9] as int;
            var name := if n == 50 || n == 51 then "ESP AND AH:" else if n == 1 then "ICMP:" else if n == 2 then "IGMP:"
                        else if n == 12 then "PUP:" else if n == 22 then "IDP:" else if n == 0 then "IP:"
                        else if n == 255 then "RAW:" else if n == 47 then "GRE:"
                        else "Other Protocol=" + Decimal(n) + ", ";
            Report(policy, p) == Some("DEBUG:" + name + (NtoaText(policy.source) + " ---> " + NtoaText(policy.target)))
  {
    hide NtoaText, Decimal;
  }

  predicate Harmless(s: string) {
    '<' !in s && NUL !in s && |s| < 1000
  }

  lemma NtoaHarmless(addr: Addr)
    ensures '<' !in NtoaText(addr) && NUL !in NtoaText(addr) && |NtoaText(addr)| <= 17
  {
    NtoaShape(addr);
  }

  lemma {:induction false} DecimalLength(n: nat)
    requires n < 100000
    ensures |Decimal(n)| <= 5
  {
    DecimalShape(n / 100);
    if n >= 100 {
      assert n / 100 == n / 10 / 10;
      assert |Decimal(n)| == |Decimal(n / 10)| + 1 == |Decimal(n / 10 / 10)| + 2;
    }
  }

  /** The printed part of a report contains no '<', hence no part of a tag. */
  lemma EndpointsHarmless(p: Packet)
    requires HasIpHeader(p) && HasTransportHeader(p)
    ensures Harmless(Endpoints(p)) && |Endpoints(p)| <= 54
  {
    NtoaHarmless(Source(p));
    NtoaHarmless(Target(p));
    DecimalLength(U16At(p.data, IpHeadLen(p)));
    DecimalLength(U16At(p.data, IpHeadLen(p) + 2));
  }

  /** A report is a NUL-free text that fits the message buffer. */
  lemma ReportFits(kind: string, p: Packet, text: string)
    requires HasIpHeader(p) && HasTransportHeader(p) && NUL !in kind && |kind| <= 10
    requires NUL !in text && |text| <= 65535
    ensures NUL !in kind + Endpoints(p) + text && |kind + Endpoints(p) + text| < BUFFER_SIZE
  {
    EndpointsHarmless(p);
  }

  lemma ProtocolNameHarmless(protocol: nat)
    requires protocol < 256
    ensures '<' !in ProtocolName(protocol) && NUL !in ProtocolName(protocol) && |ProtocolName(protocol)| < 100
  {
    DecimalLength(protocol);
  }

  lemma AddressesHarmless(p: Packet)
    requires HasIpHeader(p)
    ensures Harmless(Addresses(p))
  {
    NtoaHarmless(Source(p));
    NtoaHarmless(Target(p));
  }

  ghost predicate AllWellFormed(policy: Policy, ps: seq<Packet>) {
    forall i :: 0 <= i < |ps| ==> WellFormed(policy, ps[i])
  }

  /** The static buffers after a history of packets. */
  ghost function After(s: Statics, policy: Policy, ps: seq<Packet>): (s': Statics)
    requires Sized(s) && AllWellFormed(policy, ps)
    ensures Sized(s')
    decreases |ps|
  {
    if ps == [] then s else After(Step(s, policy, ps[0]), policy, ps[1..])
  }

  lemma {:induction false} AfterOneMore(s: Statics, policy: Policy, ps: seq<Packet>, p: Packet)
    requires Sized(s) && AllWellFormed(policy, ps) && WellFormed(policy, p)
    ensures AllWellFormed(policy, ps + [p]) && After(s, policy, ps + [p]) == Step(After(s, policy, ps), policy, p)
    decreases |ps|
  {
    hide Step, WellFormed;
    if ps == [] {
      assert ps + [p] == [p] && [p][1..] == [];
    } else {
      assert (ps + [p])[1..] == ps[1..] + [p];
      AfterOneMore(Step(s, policy, ps[0]), policy, ps[1..], p);
    }
  }

  /** What the hook's call of extract leaves to be read: the content, cut to 99 characters. */
  function Seen(text: string): string {
    var c := Content(text, "message", 0);
    if |c| < MESSAGE_MAXLEN then c else c[..MESSAGE_MAXLEN - 1]
  }

  lemma {:induction false} AfterKeepsTail(s: Statics, policy: Policy, ps: seq<Packet>)
    requires Sized(s) && AllWellFormed(policy, ps) && CleanTail(s.dest)
    ensures CleanTail(After(s, policy, ps).dest)
    decreases |ps|
  {
    hide CleanTail, Step;
    if ps != [] {
      StepKeepsTail(s, policy, ps[0]);
      AfterKeepsTail(Step(s, policy, ps[0]), policy, ps[1..]);
    }
  }

  /** After every history of the hook since the buffers were cleared, xmldest holds this packet's text,
      cut to 99 characters: the overlong branch never shows a stale character there. */
  lemma DestExact(s: Statics, policy: Policy, ps: seq<Packet>, p: Packet)
    requires Sized(s) && CleanTail(s.dest) && AllWellFormed(policy, ps)
    requires WellFormed(policy, p) && Examined(policy, p) && Protocol(p) == IPPROTO_UDP
    ensures CStr(Step(After(s, policy, ps), policy, p).dest) == Seen(Body(policy, p))
  {
    hide After, Content;
    AfterKeepsTail(s, policy, ps);
    var before := After(s, policy, ps);
    BodyReadsBack(before.body, policy, p);
    ExtractedNulFree(Body(policy, p), "message", 0);
    CutReadsBack(before.dest, Extracted(Body(policy, p), "message", 0), MESSAGE_MAXLEN);
  }

  /** Two runs with any initial buffers and any histories agree on the next packet. */
  lemma HistoryIndependent(s1: Statics, s2: Statics, h1: seq<Packet>, h2: seq<Packet>,
                           policy: Policy, p: Packet, operatorflag: int)
    requires Sized(s1) && Sized(s2) && AllWellFormed(policy, h1) && AllWellFormed(policy, h2)
    requires WellFormed(policy, p)
    ensures HookVerdict(After(s1, policy, h1), policy, p, operatorflag)
         == HookVerdict(After(s2, policy, h2), policy, p, operatorflag)
  {
    VerdictExact(After(s1, policy, h1), policy, p, operatorflag);
    VerdictExact(After(s2, policy, h2), policy, p, operatorflag);
  }
}
