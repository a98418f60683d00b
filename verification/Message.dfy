/** The client library's codec: aligned, length-prefixed attributes (the three-level layout of
    section 2.2 of RFC 3549) and the message header in front of them. */
module Message {
  import opened CText
  import opened Frames
  import opened Wrappers

  datatype Attr = Attr(kind: nat, payload: seq<char>)

  const RTATTR_SIZE: nat := 4

  /** Both header fields fit 16 bits; struct.pack raises an error otherwise. */
  predicate Packable(a: Attr) {
    a.kind < 0x1_0000 && RTATTR_SIZE + |a.payload| < 0x1_0000 && IsBytes(a.payload)
  }

  function Zeros(n: nat): (s: seq<char>)
    ensures |s| == n && IsBytes(s)
  {
    seq(n, _ => NUL)
  }

  /** What align adds behind n bytes. */
  function PadLen(n: nat): (k: nat)
    ensures k < 4
  {
    Align(n) - n
  }

  function AttrHead(a: Attr): (s: seq<char>)
    ensures |s| == RTATTR_SIZE && IsBytes(s)
  {
    Bytes(RTATTR_SIZE + |a.payload|, 2) + Bytes(a.kind, 2)
  }

  /** Attr.pack */
  function Pack(a: Attr): Result<seq<char>> {
    if !Packable(a) then Error
    else Ok(AttrHead(a) + a.payload + Zeros(PadLen(|a.payload|)))
  }

  /** Attr.unpack: the attribute and the bytes behind its padding. A length below 4 makes a negative
      string format, a length beyond the data a short slice; both raise an error. */
  function Unpack(data: seq<char>): (r: Result<(Attr, seq<char>)>)
    ensures r.Ok? ==> RTATTR_SIZE + |r.value.1| <= |data|
  {
    if |data| < RTATTR_SIZE then Error
    else
      var length := Number(data[..2]);
      if length < RTATTR_SIZE || |data| < length then Error
      else
        Ok((Attr(Number(data[2..4]), data[RTATTR_SIZE..length]),
            if Align(length) <= |data| then data[Align(length)..] else []))
  }

  /** pack_attrs */
  function PackAttrs(attrs: seq<Attr>): Result<seq<char>> {
    if attrs == [] then Ok([])
    else
      match (Pack(attrs[0]), PackAttrs(attrs[1..]))
      case (Ok(first), Ok(rest)) => Ok(first + rest)
      case _ => Error
  }

  /** What unpack_attrs yields, and whether it ends without an error. */
  function Parse(data: seq<char>): (seq<Attr>, bool)
    decreases |data|
  {
    match Unpack(data)
    case Error => ([], false)
    case Ok((a, rest)) =>
      if rest == [] then ([a], true)
      else
        var (attrs, ok) := Parse(rest);
        ([a] + attrs, ok)
  }

  /** unpack_attrs: unpack first, test for more data afterwards. */
  method UnpackAttrs(input: seq<char>) returns (attrs: seq<Attr>, ok: bool)
    ensures (attrs, ok) == Parse(input)
  {
    attrs := [];
    var data := input;
    while true
      invariant Parse(input).0 == attrs + Parse(data).0
      invariant Parse(input).1 == Parse(data).1
      decreases |data|
    {
      var r := Unpack(data);
      if r.Error? {
        assert attrs + [] == attrs;
        return attrs, false;
      }
      ghost var (a, rest) := r.value;
      assert attrs + ([a] + Parse(rest).0) == attrs + [a] + Parse(rest).0;
      attrs := attrs + [r.value.0];
      data := r.value.1;
      if data == [] {
        return attrs, true;
      }
    }
  }

  /** A packed attribute on its bytes: the length without padding, the type, the payload, and zeros up to a
      multiple of 4; packing fails exactly when a 16-bit field overflows. */
  lemma PackBytes(a: Attr)
    requires IsBytes(a.payload)
    ensures Pack(a).Ok? <==> a.kind <= 65535 && |a.payload| <= 65531
    ensures Pack(a).Ok? ==>
              var s, n := Pack(a).value, |a.payload|;
              && |s| == 4 + (n + 3) / 4 * 4
              && Le16(s, 0) == 4 + n && Le16(s, 2) == a.kind && s[4..4 + n] == a.payload
              && forall i :: 4 + n <= i < |s| ==> s[i] == '\0'
  {
    if Pack(a).Ok? {
      var n := |a.payload|;
      var s := Pack(a).value;
      NumberInverse2(4 + n);
      NumberInverse2(a.kind);
      assert s[0..2] == Bytes(4 + n, 2) && s[2..4] == Bytes(a.kind, 2);
      NumberOf(s, 0);
      NumberOf(s, 2);
    }
  }

  /** Unpacking, on the bytes of any string: it fails exactly when the header is incomplete or its length
      is below 4 or beyond the data. */
  lemma UnpackBytes(data: seq<char>)
    ensures Unpack(data).Ok? <==> 4 <= |data| && 4 <= Le16(data, 0) <= |data|
    ensures Unpack(data).Ok? ==>
              var n := Le16(data, 0);
              && Unpack(data).value.0 == Attr(Le16(data, 2), data[4..n])
              && Unpack(data).value.1 == if (n + 3) / 4 * 4 < |data| then data[(n + 3) / 4 * 4..] else []
  {
    hide Number;
    if 4 <= |data| {
      NumberOf(data, 0);
      NumberOf(data, 2);
      assert data[..2] == data[0..2];
    }
  }

  /** The grammar, independently of the parser: each attribute is its head, its payload and a
      padding; only the last padding may be incomplete. Padding bytes are arbitrary. */
  function Layout(attrs: seq<Attr>, pads: seq<seq<char>>): seq<char>
    requires |attrs| == |pads|
  {
    if attrs == [] then []
    else AttrHead(attrs[0]) + attrs[0].payload + pads[0] + Layout(attrs[1..], pads[1..])
  }

  predicate PadsOk(attrs: seq<Attr>, pads: seq<seq<char>>) {
    && |attrs| == |pads|
    && forall i :: 0 <= i < |attrs| ==>
         (if i < |attrs| - 1 then |pads[i]| == PadLen(|attrs[i].payload|) else |pads[i]| <= PadLen(|attrs[i].payload|))
  }

  predicate AllPackable(attrs: seq<Attr>) {
    forall i :: 0 <= i < |attrs| ==> Packable(attrs[i])
  }

  lemma AlignSplit(n: nat)
    ensures Align(RTATTR_SIZE + n) == RTATTR_SIZE + Align(n)
  {
  }

  /** One attribute in front of anything, with its padding complete or at the end of the data. */
  lemma UnpackOne(a: Attr, pad: seq<char>, rest: seq<char>)
    requires Packable(a) && |pad| <= PadLen(|a.payload|)
    requires rest != [] ==> |pad| == PadLen(|a.payload|)
    ensures Unpack(AttrHead(a) + a.payload + pad + rest) == Ok((a, rest))
  {
    var data := AttrHead(a) + a.payload + pad + rest;
    var length := RTATTR_SIZE + |a.payload|;
    AlignSplit(|a.payload|);
    NumberInverse2(length);
    NumberInverse2(a.kind);
    assert data[..2] == Bytes(length, 2) && data[2..4] == Bytes(a.kind, 2);
    assert data[RTATTR_SIZE..length] == a.payload;
    if rest != [] {
      assert data[Align(length)..] == rest;
    }
  }

  lemma TailOk(attrs: seq<Attr>, pads: seq<seq<char>>)
    requires attrs != [] && AllPackable(attrs) && PadsOk(attrs, pads)
    ensures AllPackable(attrs[1..]) && PadsOk(attrs[1..], pads[1..])
    ensures |attrs| > 1 ==> Layout(attrs[1..], pads[1..]) != []
  {
    assert forall i :: 0 <= i < |attrs| - 1 ==> attrs[1..][i] == attrs[i + 1] && pads[1..][i] == pads[i + 1];
    if |attrs| > 1 {
      assert |AttrHead(attrs[1..][0])| == RTATTR_SIZE;
    }
  }

  /** Whatever follows the grammar is parsed back. */
  lemma {:induction false} LayoutParses(attrs: seq<Attr>, pads: seq<seq<char>>)
    requires attrs != [] && AllPackable(attrs) && PadsOk(attrs, pads)
    ensures Parse(Layout(attrs, pads)) == (attrs, true)
    decreases |attrs|
  {
    var rest := Layout(attrs[1..], pads[1..]);
    TailOk(attrs, pads);
    UnpackOne(attrs[0], pads[0], rest);
    if |attrs| == 1 {
      assert rest == [] && attrs == [attrs[0]];
    } else {
      LayoutParses(attrs[1..], pads[1..]);
      assert attrs == [attrs[0]] + attrs[1..];
    }
  }

  /** The unpacked attribute, its padding and the rest are the data. */
  lemma UnpackPieces(data: seq<char>) returns (pad: seq<char>)
    requires IsBytes(data) && Unpack(data).Ok?
    ensures var (a, rest) := Unpack(data).value;
            && Packable(a) && IsBytes(rest)
            && |pad| <= PadLen(|a.payload|)
            && (rest != [] ==> |pad| == PadLen(|a.payload|))
            && data == AttrHead(a) + a.payload + pad + rest
  {
    var length := Number(data[..2]);
    var (a, rest) := Unpack(data).value;
    AlignSplit(|a.payload|);
    var end := if Align(length) <= |data| then Align(length) else |data|;
    pad := data[length..end];
    HeadOfUnpacked(data);
    FourPieces(data, length, end);
    assert rest == data[end..];
  }

  lemma FourPieces(data: seq<char>, length: nat, end: nat)
    requires 4 <= length <= end <= |data|
    ensures data == data[..4] + data[4..length] + data[length..end] + data[end..]
  {
  }

  /** The head that packing writes is the head that was read. */
  lemma HeadOfUnpacked(data: seq<char>)
    requires IsBytes(data) && Unpack(data).Ok?
    ensures Packable(Unpack(data).value.0) && AttrHead(Unpack(data).value.0) == data[..4]
  {
    BytesInverse(data[..2]);
    BytesInverse(data[2..4]);
    assert Power256(2) == 256 * Power256(1);
    assert data[..4] == data[..2] + data[2..4];
  }

  /** Whatever is parsed follows the grammar. */
  lemma {:induction false} ParsedHasLayout(data: seq<char>) returns (pads: seq<seq<char>>)
    requires IsBytes(data) && Parse(data).1
    ensures var attrs := Parse(data).0;
            attrs != [] && AllPackable(attrs) && PadsOk(attrs, pads) && data == Layout(attrs, pads)
    decreases |data|
  {
    var (a, rest) := Unpack(data).value;
    var pad := UnpackPieces(data);
    if rest == [] {
      pads := [pad];
      assert Layout([a][1..], pads[1..]) == [];
    } else {
      var more := ParsedHasLayout(rest);
      pads := [pad] + more;
      var attrs := Parse(rest).0;
      assert ([a] + attrs)[1..] == attrs && pads[1..] == more;
    }
  }

  ghost predicate HasLayout(data: seq<char>, attrs: seq<Attr>) {
    exists pads :: PadsOk(attrs, pads) && data == Layout(attrs, pads)
  }

  /** The parser accepts exactly the grammar, and yields exactly its attributes. */
  lemma ParseExact(data: seq<char>, attrs: seq<Attr>)
    requires IsBytes(data)
    ensures Parse(data) == (attrs, true) <==> attrs != [] && AllPackable(attrs) && HasLayout(data, attrs)
  {
    if Parse(data) == (attrs, true) {
      var pads := ParsedHasLayout(data);
    }
    if attrs != [] && AllPackable(attrs) && HasLayout(data, attrs) {
      var pads :| PadsOk(attrs, pads) && data == Layout(attrs, pads);
      LayoutParses(attrs, pads);
    }
  }

  /** Attributes with complete paddings, and behind them something that is no attribute. */
  ghost predicate BreaksAfter(data: seq<char>, attrs: seq<Attr>, pads: seq<seq<char>>, rest: seq<char>) {
    && AllPackable(attrs) && |pads| == |attrs|
    && (forall i :: 0 <= i < |attrs| ==> |pads[i]| == PadLen(|attrs[i].payload|))
    && data == Layout(attrs, pads) + rest && Unpack(rest) == Error && (rest != [] || attrs == [])
  }

  lemma {:induction false} BrokenLayoutParses(data: seq<char>, attrs: seq<Attr>, pads: seq<seq<char>>, rest: seq<char>)
    requires BreaksAfter(data, attrs, pads, rest)
    ensures Parse(data) == (attrs, false)
    decreases |attrs|
  {
    hide Unpack, PadLen, Packable, AttrHead;
    if attrs == [] {
      assert data == rest;
    } else {
      var more := Layout(attrs[1..], pads[1..]) + rest;
      assert data == AttrHead(attrs[0]) + attrs[0].payload + pads[0] + more;
      UnpackOne(attrs[0], pads[0], more);
      assert forall i :: 0 <= i < |attrs| - 1 ==> attrs[1..][i] == attrs[i + 1] && pads[1..][i] == pads[i + 1];
      assert |attrs| > 1 ==> |AttrHead(attrs[1..][0])| == RTATTR_SIZE;
      BrokenLayoutParses(more, attrs[1..], pads[1..], rest);
      assert attrs == [attrs[0]] + attrs[1..];
    }
  }

  lemma {:induction false} BrokenHasLayout(data: seq<char>) returns (pads: seq<seq<char>>, rest: seq<char>)
    requires IsBytes(data) && !Parse(data).1
    ensures BreaksAfter(data, Parse(data).0, pads, rest)
    decreases |data|
  {
    hide PadLen, Packable, AttrHead, Unpack;
    if Unpack(data).Error? {
      pads, rest := [], data;
    } else {
      var (a, behind) := Unpack(data).value;
      var pad := UnpackPieces(data);
      var more, end := BrokenHasLayout(behind);
      pads, rest := [pad] + more, end;
      var attrs := Parse(behind).0;
      assert ([a] + attrs)[1..] == attrs && pads[1..] == more;
      assert AttrHead(a) + a.payload + pad + (Layout(attrs, more) + rest) == AttrHead(a) + a.payload + pad + Layout(attrs, more) + rest;
    }
  }

  /** What was yielded when the parser fails: exactly the attributes in front of the first broken one. */
  lemma ParseFailsExact(data: seq<char>, attrs: seq<Attr>)
    requires IsBytes(data)
    ensures Parse(data) == (attrs, false) <==> exists pads, rest :: BreaksAfter(data, attrs, pads, rest)
  {
    if Parse(data) == (attrs, false) {
      var pads, rest := BrokenHasLayout(data);
    }
    if pads, rest :| BreaksAfter(data, attrs, pads, rest) {
      BrokenLayoutParses(data, attrs, pads, rest);
    }
  }

  function ZeroPads(attrs: seq<Attr>): (pads: seq<seq<char>>)
    ensures |pads| == |attrs| && PadsOk(attrs, pads)
  {
    seq(|attrs|, i requires 0 <= i < |attrs| => Zeros(PadLen(|attrs[i].payload|)))
  }

  lemma PackOne(a: Attr)
    requires Packable(a)
    ensures var s := AttrHead(a) + a.payload + Zeros(PadLen(|a.payload|));
            Pack(a) == Ok(s) && |s| % 4 == 0 && IsBytes(s)
  {
    hide Bytes;
  }

  lemma {:induction false} PackedLayout(attrs: seq<Attr>)
    requires AllPackable(attrs)
    ensures PackAttrs(attrs) == Ok(Layout(attrs, ZeroPads(attrs)))
    ensures |Layout(attrs, ZeroPads(attrs))| % 4 == 0
    ensures IsBytes(Layout(attrs, ZeroPads(attrs)))
  {
    hide Pack, AttrHead, Zeros, PadLen, Packable;
    if attrs != [] {
      PackOne(attrs[0]);
      PackedLayout(attrs[1..]);
      assert ZeroPads(attrs)[1..] == ZeroPads(attrs[1..]);
    }
  }

  /** Packing fails exactly when some attribute does not fit its header. */
  lemma {:induction false} PackFails(attrs: seq<Attr>)
    ensures PackAttrs(attrs).Ok? <==> AllPackable(attrs)
  {
    if attrs != [] {
      PackFails(attrs[1..]);
      assert AllPackable(attrs) <==> Packable(attrs[0]) && AllPackable(attrs[1..]) by {
        assert forall i :: 0 < i < |attrs| ==> attrs[i] == attrs[1..][i - 1];
        assert forall i :: 0 <= i < |attrs| - 1 ==> attrs[1..][i] == attrs[i + 1];
      }
    }
  }

  /** The round trip returns the same attributes exactly when there is at least one: unpack_attrs
      unpacks before it tests for data. */
  lemma AttrsRoundTrip(attrs: seq<Attr>)
    requires AllPackable(attrs)
    ensures PackAttrs(attrs).Ok?
    ensures Parse(PackAttrs(attrs).value) == (attrs, true) <==> attrs != []
  {
    PackedLayout(attrs);
    if attrs != [] {
      LayoutParses(attrs, ZeroPads(attrs));
    }
  }

  /** Packing what was parsed gives an aligned string with the same attributes, also when the data
      lacked its last padding or padded with other bytes; a second pass changes nothing. */
  lemma Canonicalisation(data: seq<char>)
    requires IsBytes(data) && Parse(data).1
    ensures var packed := PackAttrs(Parse(data).0);
            && packed.Ok? && |packed.value| % 4 == 0
            && Parse(packed.value) == Parse(data)
            && PackAttrs(Parse(packed.value).0) == packed
  {
    var pads := ParsedHasLayout(data);
    var attrs := Parse(data).0;
    PackedLayout(attrs);
    LayoutParses(attrs, ZeroPads(attrs));
  }

  /** A service template class: how it reads the bytes behind the header, and how it packs itself. */
  datatype Template<!T> = Template(unpack: seq<char> -> Result<T>, pack: T -> Result<seq<char>>)

  datatype Message<T> = Message(kind: nat, flags: nat, seqno: int, pid: nat, template: T)

  /** __len__: rounded up, although pack adds no padding. */
  function MessageLen(payload: seq<char>): nat {
    Align(HEADER_SIZE + |payload|)
  }

  /** Message.pack: the payload is whatever the template packs, for the length and for the bytes. */
  function PackMessage<T>(t: Template<T>, m: Message<T>): Result<seq<char>> {
    match t.pack(m.template)
    case Error => Error
    case Ok(payload) =>
      if m.seqno < 0 || !InRange(Header(MessageLen(payload), m.kind, m.flags, m.seqno, m.pid)) then Error
      else Ok(PackHeader(Header(MessageLen(payload), m.kind, m.flags, m.seqno, m.pid)) + payload)
  }

  /** Message.unpack with the template class selected for the type: the pid is read and dropped. */
  function UnpackMessage<T>(t: Template<T>, data: seq<char>): Result<Message<T>> {
    if |data| < HEADER_SIZE then Error
    else
      var h := ReadHeader(data);
      match t.unpack(data[HEADER_SIZE..])
      case Error => Error
      case Ok(template) => Ok(Message(h.kind, h.flags, h.seqno, 0, template))
  }

  /** When a message packs, and to what: the template must pack, the fields must fit, the size field is the
      rounded size, and the pid is packed though it is never read back. */
  lemma PackMessageExact<T>(t: Template<T>, m: Message<T>)
    ensures PackMessage(t, m).Ok? <==>
            && t.pack(m.template).Ok? && 0 <= m.seqno <= 0xFFFF_FFFF
            && m.kind <= 65535 && m.flags <= 65535 && m.pid <= 0xFFFF_FFFF
            && (|t.pack(m.template).value| + 19) / 4 * 4 <= 0xFFFF_FFFF
    ensures PackMessage(t, m).Ok? ==>
              var s, payload := PackMessage(t, m).value, t.pack(m.template).value;
              && 16 <= |s| && s[16..] == payload && Le32(s, 0) == (|payload| + 19) / 4 * 4
              && Le16(s, 4) == m.kind && Le16(s, 6) == m.flags && Le32(s, 8) == m.seqno && Le32(s, 12) == m.pid
  {
    hide PackHeader, Le16, Le32;
    if PackMessage(t, m).Ok? {
      var payload := t.pack(m.template).value;
      PackedFields(Header(MessageLen(payload), m.kind, m.flags, m.seqno, m.pid), payload);
    }
  }

  /** What is read from any bytes: 16 of them at least, and a template behind them that reads. */
  lemma UnpackMessageExact<T>(t: Template<T>, data: seq<char>)
    ensures UnpackMessage(t, data).Ok? <==> 16 <= |data| && t.unpack(data[16..]).Ok?
    ensures UnpackMessage(t, data).Ok? ==>
              UnpackMessage(t, data).value
              == Message(Le16(data, 4), Le16(data, 6), Le32(data, 8), 0, t.unpack(data[16..]).value)
  {
    hide ReadHeader, Le16, Le32;
    if 16 <= |data| {
      HeaderFields(data);
    }
  }

  /** A message comes back exactly when it has no pid and its template comes back; its size field is
      the size of what was packed exactly when the payload was aligned. */
  lemma MessageRoundTrip<T>(t: Template<T>, m: Message<T>)
    requires PackMessage(t, m).Ok?
    ensures UnpackMessage(t, PackMessage(t, m).value) == Ok(m)
            <==> m.pid == 0 && t.unpack(t.pack(m.template).value) == Ok(m.template)
    ensures ReadHeader(PackMessage(t, m).value).len == |PackMessage(t, m).value|
            <==> |t.pack(m.template).value| % 4 == 0
  {
    hide PackHeader, ReadHeader, Align;
    var payload := t.pack(m.template).value;
    var h := Header(MessageLen(payload), m.kind, m.flags, m.seqno, m.pid);
    HeaderRoundTrip(h, payload);
    assert (PackHeader(h) + payload)[HEADER_SIZE..] == payload;
  }

  /** A received message is packed to the bytes that were received exactly when its template packs to
      what it was read from, its pid was zero, and its size field was the rounded size. */
  lemma ReceivedRoundTrip<T>(t: Template<T>, data: seq<char>)
    requires IsBytes(data) && UnpackMessage(t, data).Ok?
    ensures var m := UnpackMessage(t, data).value;
            PackMessage(t, m) == Ok(data)
            <==> t.pack(m.template) == Ok(data[HEADER_SIZE..])
                 && ReadHeader(data).pid == 0 && ReadHeader(data).len == Align(|data|)
  {
    hide PackHeader, ReadHeader;
    var m, h, rest := UnpackMessage(t, data).value, ReadHeader(data), data[HEADER_SIZE..];
    ReadHeaderRoundTrip(data);
    assert data == data[..HEADER_SIZE] + rest;
    if t.pack(m.template).Ok? {
      var payload := t.pack(m.template).value;
      var h' := Header(MessageLen(payload), m.kind, m.flags, m.seqno, 0);
      if PackMessage(t, m) == Ok(data) {
        HeaderRoundTrip(h', payload);
        assert (PackHeader(h') + payload)[HEADER_SIZE..] == payload;
      }
    }
  }

  /** The base class of the templates: a fixed part of some size, then attributes; pack returns the
      empty string. */
  datatype Fixed = Fixed(fields: seq<char>, attrs: seq<Attr>)

  function UnpackFixed(size: nat, data: seq<char>): Result<Fixed> {
    if |data| < size then Error
    else
      var (attrs, ok) := Parse(data[size..]);
      if ok then Ok(Fixed(data[..size], attrs)) else Error
  }

  function Base(size: nat): Template<Fixed> {
    Template(data => UnpackFixed(size, data), _ => Ok([]))
  }

  /** A subclass that packs its fixed part and, by pack_attrs, its attributes. */
  function WithAttrs(size: nat): Template<Fixed> {
    Template(data => UnpackFixed(size, data),
             (x: Fixed) => match PackAttrs(x.attrs) case Ok(packed) => Ok(x.fields + packed) case Error => Error)
  }

  /** ACK: an error code of four bytes (signed) and the old message; pack returns nothing, and the
      length of nothing is an error. */
  datatype Acknowledgement = Acknowledgement(errorCode: int, oldMessage: seq<char>)

  function Signed32(n: nat): int {
    if n < 0x8000_0000 then n else n - 0x1_0000_0000
  }

  function Ack(): Template<Acknowledgement> {
    Template(data => if |data| < 4 then Error else Ok(Acknowledgement(Signed32(Number(data[..4])), data[4..])),
             _ => Error)
  }

  /** Every acknowledgement of at least 20 bytes is read, its error code as a signed number in two's
      complement, and none can be packed. */
  lemma AckIsNeverPacked(data: seq<char>)
    requires IsBytes(data)
    ensures UnpackMessage(Ack(), data).Ok? <==> 20 <= |data|
    ensures UnpackMessage(Ack(), data).Ok? ==>
              var m := UnpackMessage(Ack(), data).value;
              && m.template.errorCode == (if data[19] as int < 128 then Le32(data, 16) else Le32(data, 16) - 0x1_0000_0000)
              && m.template.oldMessage == data[20..]
              && PackMessage(Ack(), m) == Error
  {
    hide Number, Signed32, Le32, ReadHeader, IsBytes;
    if 20 <= |data| {
      SignedOf(data);
      assert data[16..][4..] == data[20..];
    }
  }

  lemma SignedOf(data: seq<char>)
    requires IsBytes(data) && 20 <= |data|
    ensures Signed32(Number(data[16..][..4])) == if data[19] as int < 128 then Le32(data, 16) else Le32(data, 16) - 0x1_0000_0000
  {
    hide Number;
    assert data[16..][..4] == data[16..20];
    NumberOf(data, 16);
  }

  /** Of a message of the base class only a header is packed, which cannot be read back. */
  lemma BaseIsLost(size: nat, data: seq<char>)
    requires IsBytes(data) && UnpackMessage(Base(size), data).Ok?
    ensures var packed := PackMessage(Base(size), UnpackMessage(Base(size), data).value);
            && packed.Ok? && |packed.value| == HEADER_SIZE && packed.value != data
            && UnpackMessage(Base(size), packed.value) == Error
  {
    hide PackHeader, ReadHeader;
    ReadHeaderRoundTrip(data);
    assert Parse([]) == ([], false);
  }

  /** A subclass that packs its attributes returns what was received exactly when every padding was
      complete and zero. */
  lemma WithAttrsReturns(size: nat, data: seq<char>)
    requires IsBytes(data) && UnpackFixed(size, data).Ok?
    ensures var x := UnpackFixed(size, data).value;
            WithAttrs(size).pack(x) == Ok(data) <==> data[size..] == Layout(x.attrs, ZeroPads(x.attrs))
  {
    var pads := ParsedHasLayout(data[size..]);
    var x := UnpackFixed(size, data).value;
    PackedLayout(x.attrs);
    var packed := Layout(x.attrs, ZeroPads(x.attrs));
    assert data == data[..size] + data[size..];
    assert (data[..size] + packed)[size..] == packed;
  }
}
