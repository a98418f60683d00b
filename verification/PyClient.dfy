/** The client at the other end: it cuts the kernel's text out of a frame, extracts the message a
    second time in its own way, and answers with a command. */
module PyClient {
  import opened CText
  import opened Extraction
  import opened Wrappers
  import opened Frames
  import opened Requests

  const OPEN: string := "<message>"
  const CLOSE: string := "</message>"

  /** Python's s[lo:hi] for bounds that are not negative. */
  function Slice(s: seq<char>, lo: nat, hi: nat): (r: seq<char>)
    ensures |r| <= |s|
  {
    var h := if hi < |s| then hi else |s|;
    if h <= lo then [] else s[lo..h]
  }

  /** handledata: both tags are searched for from the start. */
  function HandleData(example: string): Option<string> {
    var left := Find(example, OPEN, 0);
    var right := Find(example, CLOSE, 0);
    if left < 0 || right < 0 then None else Some(Slice(example, left + 9, right))
  }

  ghost predicate FirstAt(text: string, tag: string, i: nat) {
    OccursAt(text, tag, i) && forall k :: 0 <= k < i ==> !OccursAt(text, tag, k)
  }

  /** Nothing exactly when one of the tags is missing everywhere. */
  lemma HandleDataNone(text: string)
    ensures HandleData(text) == None <==>
            (forall i :: !OccursAt(text, "<message>", i)) || (forall i :: !OccursAt(text, "</message>", i))
  {
    hide Find;
    FindFacts(text, OPEN, 0);
    FindFacts(text, CLOSE, 0);
  }

  /** What stands between the first tags; empty when the close tag does not come behind the open tag. */
  lemma HandleDataSome(text: string, o: nat, e: nat)
    requires FirstAt(text, "<message>", o) && FirstAt(text, "</message>", e)
    ensures HandleData(text) == Some(if o + 9 < e then text[o + 9..e] else "")
  {
    hide Find;
    FindIs(text, OPEN, 0, o);
    FindIs(text, CLOSE, 0, e);
  }

  /** An open tag leaves no room for a close tag inside it. */
  lemma NoCloseInsideOpen(text: string, o: nat, i: nat)
    requires OccursAt(text, OPEN, o) && o <= i < o + 9
    ensures !OccursAt(text, CLOSE, i)
  {
    if i + 10 <= |text| {
      assert text[i] == text[o..o + 9][i - o];
      assert text[i + 1] == text[i..i + 10][1];
      assert text[i] == text[i..i + 10][0];
      if i == o {
        assert text[o + 1] == text[o..o + 9][1];
      }
    }
  }

  /** The two extractors agree on every text that is not empty exactly when no close tag stands in
      front of the open tag: for every text, both directions. */
  lemma ExtractorsAgree(text: string, c: string)
    requires c != ""
    ensures HandleData(text) == Some(c) <==>
            Content(text, "message", 0) == c && Find(text, OPEN, 0) < Find(text, CLOSE, 0)
  {
    assert Open("message") == OPEN && Close("message") == CLOSE;
    var o := Find(text, OPEN, 0);
    if o >= 0 {
      var first, second := Find(text, CLOSE, 0), Find(text, CLOSE, o + 9);
      FindFacts(text, OPEN, 0);
      FindFacts(text, CLOSE, 0);
      FindFacts(text, CLOSE, o + 9);
      forall i | o <= i < o + 9
        ensures !OccursAt(text, CLOSE, i)
      {
        NoCloseInsideOpen(text, o, i);
      }
      if first > o {
        FindIs(text, CLOSE, o + 9, first);
      }
    }
  }

  /** With a close tag in front of the open tag the client sees an empty text, whatever the kernel
      extracts. */
  lemma CloseTagInFront(text: string)
    requires 0 <= Find(text, CLOSE, 0) < Find(text, OPEN, 0)
    ensures HandleData(text) == Some("")
  {
  }

  /** A text without '<' in front changes nothing for the client. */
  lemma PrefixHarmless(prefix: string, body: string)
    requires '<' !in prefix
    ensures HandleData(prefix + body) == HandleData(body)
  {
    hide Find;
    NoTagIn(prefix, body, OPEN);
    NoTagIn(prefix, body, CLOSE);
    FindSkip(prefix, body, OPEN);
    FindSkip(prefix, body, CLOSE);
    var left, right := Find(body, OPEN, 0), Find(body, CLOSE, 0);
    if left >= 0 && right >= 0 && left + 9 < right {
      assert (prefix + body)[|prefix| + left + 9..|prefix| + right] == body[left + 9..right];
    }
  }

  lemma NoTagIn(prefix: string, body: string, tag: string)
    requires '<' !in prefix && tag != "" && tag[0] == '<'
    ensures forall i :: 0 <= i < |prefix| ==> !OccursAt(prefix + body, tag, i)
  {
    forall i | 0 <= i < |prefix|
      ensures !OccursAt(prefix + body, tag, i)
    {
      if i + |tag| <= |prefix + body| {
        assert (prefix + body)[i..i + |tag|][0] == prefix[i];
      }
    }
  }

  lemma PlainTextIsNotHandled(text: string)
    requires '<' !in text
    ensures HandleData(text) == None
  {
    NoTagIn(text, "", OPEN);
    FindSkip(text, "", OPEN);
    assert text + "" == text;
  }

  /** What is found in a prefix of a text is found there in the text. */
  lemma FoundInPrefix(a: string, b: string, pat: string)
    requires Find(a, pat, 0) >= 0
    ensures Find(a + b, pat, 0) == Find(a, pat, 0)
  {
    var f := Find(a, pat, 0);
    FindFacts(a, pat, 0);
    forall i | 0 <= i <= f
      ensures OccursAt(a + b, pat, i) <==> OccursAt(a, pat, i)
    {
      assert (a + b)[i..i + |pat|] == a[i..i + |pat|];
    }
    FindIs(a + b, pat, 0, f);
  }

  lemma HandledInPrefix(a: string, b: string)
    requires HandleData(a).Some?
    ensures HandleData(a + b) == HandleData(a)
  {
    FoundInPrefix(a, b, OPEN);
    FoundInPrefix(a, b, CLOSE);
    var left, right := Find(a, OPEN, 0), Find(a, CLOSE, 0);
    if left + 9 < right {
      assert (a + b)[left + 9..right] == a[left + 9..right];
    }
  }

  lemma StillMissing(text: string, tag: string)
    requires NUL !in tag && |tag| >= 2 && Find(text, tag, 0) < 0
    ensures Find(text + [NUL], tag, 0) < 0
  {
    FindPrefix(text, [NUL], tag, 0);
    FindNone(text + [NUL], tag, 0);
  }

  /** The terminator that the slice carries along is invisible to the extractor. */
  lemma TerminatorHarmless(text: string)
    ensures HandleData(text + [NUL]) == HandleData(text)
  {
    if HandleData(text).Some? {
      HandledInPrefix(text, [NUL]);
    } else {
      if Find(text, OPEN, 0) < 0 {
        StillMissing(text, OPEN);
      } else {
        StillMissing(text, CLOSE);
      }
    }
  }

  const RECV_SIZE: nat := 1024

  /** recv(1024) and the slice up to the first byte of the frame. */
  function Received(frame: seq<char>): seq<char>
    requires frame != []
  {
    var data := Slice(frame, 0, RECV_SIZE);
    Slice(data, HEADER_SIZE, data[0] as int)
  }

  lemma SliceFront(s: seq<char>, hi: nat)
    requires 0 < hi
    ensures Slice(s, 0, hi) == s[..if hi < |s| then hi else |s|]
  {
  }

  /** What the client sees of any frame: the bytes from 16 up to the number that its first byte gives. */
  lemma ReceivedBytes(frame: seq<char>)
    requires frame != [] && frame[0] as int < 256
    ensures var low := frame[0] as int;
            Received(frame) == if low <= 16 || |frame| <= 16 then [] else if low < |frame| then frame[16..low] else frame[16..]
  {
    SliceFront(frame, RECV_SIZE);
    var low, n := frame[0] as int, if RECV_SIZE < |frame| then RECV_SIZE else |frame|;
    var data := frame[..n];
    assert Received(frame) == Slice(data, 16, low);
    if 16 < low && 16 < n {
      var h := if low < n then low else n;
      assert data[16..h] == frame[16..h];
    }
  }

  /** What the client sees of a reply, exactly. */
  lemma ReceivedText(frame: seq<char>, message: string)
    requires IsReply(frame, message)
    ensures var low := ReplyLen(message) % 256;
            Received(frame) == if HEADER_SIZE < low then (message + [NUL])[..low - HEADER_SIZE] else []
  {
    hide Received;
    FrameArithmetic(frame, message);
    ReceivedBytes(frame);
    var low, n := ReplyLen(message) % 256, ReplyLen(message);
    if HEADER_SIZE < low {
      SliceOfSlice(frame, HEADER_SIZE, low, n);
    }
  }

  lemma SliceOfSlice(s: seq<char>, lo: nat, mid: nat, hi: nat)
    requires lo <= mid <= hi <= |s|
    ensures s[lo..mid] == s[lo..hi][..mid - lo]
    ensures mid == |s| ==> s[lo..] == s[lo..mid]
  {
  }

  /** Of every reply the client sees a prefix of the terminated text, and all of it exactly when the
      size field fits one byte. */
  lemma ReceivedIsPrefix(frame: seq<char>, message: string)
    requires IsReply(frame, message)
    ensures Received(frame) <= message + [NUL]
    ensures Received(frame) == message + [NUL] <==> ReplyLen(message) <= 255
  {
    ReceivedText(frame, message);
  }

  function ConnectFrame(pid: nat): seq<char> {
    PackHeader(Header(HEADER_SIZE, CONNECT, 0, 0, pid))
  }

  /** The command: the size field still says 16, the text follows the header. */
  function DropFrame(pid: nat): seq<char> {
    PackHeader(Header(HEADER_SIZE, COMMAND, 0, 0, pid)) + ("drop" + [NUL])
  }

  lemma DropText()
    ensures Terminated("drop" + [NUL]) && CStr("drop" + [NUL]) == "drop"
  {
    CStrIs("drop" + [NUL], "drop");
  }

  /** What the kernel reads in the client's two frames. */
  lemma ClientFramesDecode(pid: nat)
    requires pid < 0x1_0000_0000
    ensures Decode(ConnectFrame(pid)) == Connect(pid)
    ensures Decode(DropFrame(pid)) == Command("drop") && CommandTerminated(DropFrame(pid))
  {
    DecodeConnect(Header(HEADER_SIZE, CONNECT, 0, 0, pid), []);
    assert ConnectFrame(pid) + [] == ConnectFrame(pid);
    DecodeConnect(Header(HEADER_SIZE, COMMAND, 0, 0, pid), "drop" + [NUL]);
    DropText();
    assert DropFrame(pid)[HEADER_SIZE..] == "drop" + [NUL];
  }

  /** The same two frames as bytes: 16 as the size of both, no flags, no sequence number, the kinds, the
      client's pid, and the text with its terminator behind the header of the command. */
  lemma ClientFrameBytes(pid: nat)
    requires pid < 0x1_0000_0000
    ensures var c, d := ConnectFrame(pid), DropFrame(pid);
            && |c| == 16 && Le32(c, 0) == 16 && Le16(c, 4) == 0x10 && Le16(c, 6) == 0 && Le32(c, 8) == 0 && Le32(c, 12) == pid
            && |d| == 21 && Le32(d, 0) == 16 && Le16(d, 4) == 0x12 && Le16(d, 6) == 0 && Le32(d, 8) == 0 && Le32(d, 12) == pid
            && d[16..] == "drop" + ['\0']
  {
    hide PackHeader, Le16, Le32;
    PackedFields(Header(HEADER_SIZE, CONNECT, 0, 0, pid), []);
    PackedFields(Header(HEADER_SIZE, COMMAND, 0, 0, pid), "drop" + [NUL]);
    assert ConnectFrame(pid) == PackHeader(Header(HEADER_SIZE, CONNECT, 0, 0, pid)) + [];
  }

  /** One round of the receive loop: the frame that is sent back, if any. */
  function Answer(frame: seq<char>, pid: nat): Option<seq<char>>
    requires frame != []
  {
    if HandleData(Received(frame)) == Some("B") then Some(DropFrame(pid)) else None
  }

  /** The close tag, and everything in front of it, lies inside the slice that the low byte of the size
      field allows. */
  predicate Visible(message: string) {
    Find(message, CLOSE, 0) + |CLOSE| + HEADER_SIZE <= ReplyLen(message) % 256
  }

  /** A prefix of a text is handled as the text is exactly when it reaches behind the close tag. */
  lemma HandledWhenReached(a: string, b: string, c: string)
    requires c != ""
    ensures HandleData(a) == Some(c) <==> HandleData(a + b) == Some(c) && Find(a + b, CLOSE, 0) + |CLOSE| <= |a|
  {
    if HandleData(a) == Some(c) {
      HandledInPrefix(a, b);
      FoundInPrefix(a, b, CLOSE);
    }
    if HandleData(a + b) == Some(c) && Find(a + b, CLOSE, 0) + |CLOSE| <= |a| {
      var left, right := Find(a + b, OPEN, 0), Find(a + b, CLOSE, 0);
      StillFound(a, b, OPEN);
      StillFound(a, b, CLOSE);
      assert (a + b)[left + 9..right] == a[left + 9..right];
    }
  }

  /** What is found in a text, and lies inside a prefix of it, is found in the prefix. */
  lemma StillFound(a: string, b: string, pat: string)
    requires 0 <= Find(a + b, pat, 0) && Find(a + b, pat, 0) + |pat| <= |a|
    ensures Find(a, pat, 0) == Find(a + b, pat, 0)
  {
    hide Find;
    var f := Find(a + b, pat, 0);
    FindFacts(a + b, pat, 0);
    forall i | 0 <= i <= f
      ensures OccursAt(a + b, pat, i) <==> OccursAt(a, pat, i)
    {
      assert (a + b)[i..i + |pat|] == a[i..i + |pat|];
    }
    FindIs(a, pat, 0, f);
  }

  /** The client answers exactly the texts that enclose B and whose close tag it still sees. */
  lemma AnswerExact(frame: seq<char>, message: string, pid: nat)
    requires IsReply(frame, message)
    ensures Answer(frame, pid).Some? <==> HandleData(message) == Some("B") && Visible(message)
    ensures Answer(frame, pid).Some? ==> Answer(frame, pid) == Some(DropFrame(pid))
  {
    hide Find, Received, DropFrame, HandleData;
    ReceivedText(frame, message);
    var seen, all := Received(frame), message + [NUL];
    assert all == seen + all[|seen|..];
    HandledWhenReached(seen, all[|seen|..], "B");
    TerminatorHarmless(message);
    if HandleData(message).Some? {
      CloseTagStays(message);
    }
  }

  lemma CloseTagStays(message: string)
    requires HandleData(message).Some?
    ensures 0 <= Find(message, CLOSE, 0) == Find(message + [NUL], CLOSE, 0)
  {
    FoundInPrefix(message, [NUL], CLOSE);
  }

  class Client {
    const pid: nat
    var nlmsgType: nat

    /** The first frame that is sent asks for the connection. */
    constructor (pid: nat)
      requires pid < 0x1_0000_0000
      ensures this.pid == pid && nlmsgType == CONNECT
    {
      this.pid, nlmsgType := pid, CONNECT;
    }

    method Receive(frame: seq<char>) returns (reply: Option<seq<char>>)
      requires frame != []
      modifies this
      ensures reply == Answer(frame, pid)
      ensures nlmsgType == COMMAND
    {
      var data := Slice(frame, 0, RECV_SIZE);
      var kdata := Slice(data, HEADER_SIZE, data[0] as int);
      var hdata := HandleData(kdata);
      nlmsgType := COMMAND;
      var answer := PackHeader(Header(HEADER_SIZE, nlmsgType, 0, 0, pid)) + ("drop" + [NUL]);
      reply := if hdata == Some("B") then Some(answer) else None;
    }
  }
}
