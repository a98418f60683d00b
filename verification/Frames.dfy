/** The 16-byte netlink message header (section 2.3.2 of RFC 3549) in little-endian byte order,
    and the frames that the two ends exchange. */
module Frames {
  import opened CText

  const HEADER_SIZE: nat := 16
  const CONNECT: nat := 0x10
  const DISCONNECT: nat := 0x11
  const COMMAND: nat := 0x12
  const REPLY: nat := 0x13

  /** A number as n bytes, the lowest first; higher bits are cut off. */
  function Bytes(v: nat, n: nat): (s: seq<char>)
    ensures |s| == n && IsBytes(s)
  {
    if n == 0 then [] else [(v % 256) as char] + Bytes(v / 256, n - 1)
  }

  function Number(s: seq<char>): nat {
    if s == [] then 0 else s[0] as int + 256 * Number(s[1..])
  }

  function Power256(n: nat): nat {
    if n == 0 then 1 else 256 * Power256(n - 1)
  }

  lemma {:induction false} NumberInverse(v: nat, n: nat)
    requires v < Power256(n)
    ensures Number(Bytes(v, n)) == v
  {
    if n > 0 {
      NumberInverse(v / 256, n - 1);
      assert Bytes(v, n)[1..] == Bytes(v / 256, n - 1);
    }
  }

  lemma NumberInverse2(v: nat)
    requires v < 0x1_0000
    ensures Number(Bytes(v, 2)) == v
  {
    assert Power256(2) == 256 * Power256(1);
    NumberInverse(v, 2);
  }

  lemma NumberInverse4(v: nat)
    requires v < 0x1_0000_0000
    ensures Number(Bytes(v, 4)) == v
  {
    assert Power256(4) == 256 * (256 * Power256(2)) && Power256(2) == 256 * Power256(1);
    NumberInverse(v, 4);
  }

  lemma {:induction false} BytesInverse(s: seq<char>)
    requires IsBytes(s)
    ensures Bytes(Number(s), |s|) == s
    ensures Number(s) < Power256(|s|)
  {
    if s != [] {
      assert IsBytes(s[1..]);
      BytesInverse(s[1..]);
      assert Number(s) % 256 == s[0] as int && Number(s) / 256 == Number(s[1..]);
    }
  }

  function Align(n: nat): (m: nat)
    ensures n <= m < n + 4 && m % 4 == 0
  {
    (n + 3) / 4 * 4
  }

  datatype Header = Header(len: nat, kind: nat, flags: nat, seqno: nat, pid: nat)

  /** The fields fit their widths. */
  predicate InRange(h: Header) {
    && h.len < 0x1_0000_0000 && h.kind < 0x1_0000 && h.flags < 0x1_0000
    && h.seqno < 0x1_0000_0000 && h.pid < 0x1_0000_0000
  }

  /** struct.pack('IHHII', ...) and the C structure. */
  function PackHeader(h: Header): (s: seq<char>)
    ensures |s| == HEADER_SIZE && IsBytes(s)
  {
    Bytes(h.len, 4) + Bytes(h.kind, 2) + Bytes(h.flags, 2) + Bytes(h.seqno, 4) + Bytes(h.pid, 4)
  }

  function ReadHeader(s: seq<char>): Header
    requires HEADER_SIZE <= |s|
  {
    Header(Number(s[..4]), Number(s[4..6]), Number(s[6..8]), Number(s[8..12]), Number(s[12..16]))
  }

  function Le16(s: seq<char>, i: nat): nat
    requires i + 2 <= |s|
  {
    s[i] as int + 256 * s[i + 1] as int
  }

  function Le32(s: seq<char>, i: nat): nat
    requires i + 4 <= |s|
  {
    s[i] as int + 256 * s[i + 1] as int + 65536 * s[i + 2] as int + 16777216 * s[i + 3] as int
  }

  lemma NumberOf(s: seq<char>, i: nat)
    ensures i + 2 <= |s| ==> Number(s[i..i + 2]) == Le16(s, i)
    ensures i + 4 <= |s| ==> Number(s[i..i + 4]) == Le32(s, i)
  {
    if i + 2 <= |s| {
      NumberOf2(s[i..i + 2]);
    }
    if i + 4 <= |s| {
      NumberOf4(s[i..i + 4]);
    }
  }

  lemma NumberOf2(t: seq<char>)
    requires |t| == 2
    ensures Number(t) == t[0] as int + 256 * t[1] as int
  {
    assert t[1..][1..] == [];
    assert Number(t[1..]) == t[1] as int + 256 * Number([]);
  }

  lemma NumberOf4(t: seq<char>)
    requires |t| == 4
    ensures Number(t) == t[0] as int + 256 * t[1] as int + 65536 * t[2] as int + 16777216 * t[3] as int
  {
    NumberOf2(t[2..]);
    assert t[1..][1..] == t[2..];
    assert Number(t) == t[0] as int + 256 * Number(t[1..]) && Number(t[1..]) == t[1] as int + 256 * Number(t[2..]);
  }

  /** Where the fields of a header stand: size at 0, kind at 4, flags at 6, sequence number at 8, pid at 12,
      each with its lowest byte first. */
  lemma HeaderFields(s: seq<char>)
    requires 16 <= |s|
    ensures ReadHeader(s) == Header(Le32(s, 0), Le16(s, 4), Le16(s, 6), Le32(s, 8), Le32(s, 12))
  {
    hide Number, Le16, Le32;
    NumberOf(s, 0);
    NumberOf(s, 4);
    NumberOf(s, 6);
    NumberOf(s, 8);
    NumberOf(s, 12);
    assert s[..4] == s[0..4];
  }

  /** And a packed header has them there. */
  lemma PackedFields(h: Header, rest: seq<char>)
    requires InRange(h)
    ensures var s := PackHeader(h) + rest;
            && Le32(s, 0) == h.len && Le16(s, 4) == h.kind && Le16(s, 6) == h.flags
            && Le32(s, 8) == h.seqno && Le32(s, 12) == h.pid && s[16..] == rest
  {
    hide PackHeader, ReadHeader, Le16, Le32;
    HeaderRoundTrip(h, rest);
    HeaderFields(PackHeader(h) + rest);
    assert (PackHeader(h) + rest)[16..] == rest;
  }

  /** A header is read back from any frame that starts with it. */
  lemma HeaderRoundTrip(h: Header, rest: seq<char>)
    requires InRange(h)
    ensures ReadHeader(PackHeader(h) + rest) == h
  {
    var s := PackHeader(h) + rest;
    assert s[..4] == Bytes(h.len, 4) && s[4..6] == Bytes(h.kind, 2) && s[6..8] == Bytes(h.flags, 2);
    assert s[8..12] == Bytes(h.seqno, 4) && s[12..16] == Bytes(h.pid, 4);
    NumberInverse4(h.len);
    NumberInverse2(h.kind);
    NumberInverse2(h.flags);
    NumberInverse4(h.seqno);
    NumberInverse4(h.pid);
  }

  lemma FieldInverse(data: seq<char>, lo: nat, hi: nat)
    requires IsBytes(data) && lo <= hi <= |data|
    ensures Bytes(Number(data[lo..hi]), hi - lo) == data[lo..hi]
    ensures hi - lo == 2 ==> Number(data[lo..hi]) < 0x1_0000
    ensures hi - lo == 4 ==> Number(data[lo..hi]) < 0x1_0000_0000
  {
    BytesInverse(data[lo..hi]);
    assert Power256(2) == 256 * Power256(1) && Power256(4) == 256 * (256 * Power256(2));
  }

  /** And the header that was read is packed to the bytes it was read from. */
  lemma ReadHeaderRoundTrip(data: seq<char>)
    requires IsBytes(data) && HEADER_SIZE <= |data|
    ensures InRange(ReadHeader(data)) && PackHeader(ReadHeader(data)) == data[..HEADER_SIZE]
  {
    hide Bytes, Number, IsBytes;
    FieldInverse(data, 0, 4);
    FieldInverse(data, 4, 6);
    FieldInverse(data, 6, 8);
    FieldInverse(data, 8, 12);
    FieldInverse(data, 12, 16);
    assert data[..16] == data[0..4] + data[4..6] + data[6..8] + data[8..12] + data[12..16];
    assert data[..4] == data[0..4];
  }

  /** The size field of a reply: header, text and terminator, not rounded. */
  function ReplyLen(message: string): nat {
    |message| + 1 + HEADER_SIZE
  }

  function ReplyHeader(message: string): Header {
    Header(ReplyLen(message), REPLY, 0, 0, 0)
  }

  /** A frame from the kernel: the header, the text, its terminator, and up to three bytes that
      nobody wrote. */
  predicate IsReply(frame: seq<char>, message: string) {
    && |frame| == Align(ReplyLen(message))
    && frame[..HEADER_SIZE] == PackHeader(ReplyHeader(message))
    && frame[HEADER_SIZE..ReplyLen(message)] == message + [NUL]
  }

  /** A reply on its bytes: kind 0x13, no flags, no sequence number, the kernel's pid 0, the text from byte 16
      on and its terminator. */
  lemma ReplyBytes(frame: seq<char>, message: string)
    requires IsReply(frame, message) && |message| + 17 < 0x1_0000_0000
    ensures Le32(frame, 0) == |message| + 17 && Le16(frame, 4) == 0x13
    ensures Le16(frame, 6) == 0 && Le32(frame, 8) == 0 && Le32(frame, 12) == 0
    ensures frame[16..16 + |message|] == message && frame[16 + |message|] == NUL
  {
    hide PackHeader, Le16, Le32;
    assert frame == PackHeader(ReplyHeader(message)) + frame[16..];
    PackedFields(ReplyHeader(message), frame[16..]);
    var text := frame[HEADER_SIZE..ReplyLen(message)];
    assert text[..|message|] == message && text[|message|] == NUL;
  }

  /** nlmsg_len <= total_size < nlmsg_len + 4, total_size is a multiple of 4, the text fits, and the
      first byte of the frame is the low byte of nlmsg_len. */
  lemma FrameArithmetic(frame: seq<char>, message: string)
    requires IsReply(frame, message)
    ensures ReplyLen(message) <= |frame| < ReplyLen(message) + 4 && |frame| % 4 == 0
    ensures frame[0] as int == ReplyLen(message) % 256
    ensures ReplyLen(message) < 0x1_0000_0000 ==> ReadHeader(frame) == ReplyHeader(message)
  {
    assert frame[0] == frame[..HEADER_SIZE][0] == PackHeader(ReplyHeader(message))[0];
    assert Bytes(ReplyLen(message), 4)[0] == (ReplyLen(message) % 256) as char;
    if ReplyLen(message) < 0x1_0000_0000 {
      HeaderRoundTrip(ReplyHeader(message), frame[HEADER_SIZE..]);
      assert frame == PackHeader(ReplyHeader(message)) + frame[HEADER_SIZE..];
    }
  }
}
