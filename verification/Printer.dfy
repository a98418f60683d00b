/** The sender's message printer, and its agreement with the two readers of the same format. */
module Printer {
  import opened CText
  import opened CLib
  import opened Extraction
  import opened ConfRoundTrip
  import opened Legality

  const NOTE_OPEN: string := "<note id='"
  const TITLE_OPEN: string := "'><title>"
  const TITLE_TO_MESSAGE: string := "</title><message>"
  const MESSAGE_CLOSE: string := "</message></note>"

  function Printed(id: string, title: string, event: string): string {
    HEAD + NOTE_OPEN + id + TITLE_OPEN + title + TITLE_TO_MESSAGE + event + MESSAGE_CLOSE
  }

  predicate Plain(s: string) {
    '<' !in s && NUL !in s
  }

  const NOTE: string := "<note id="

  /** All markers, the one of the note first. */
  function AllMarks(): seq<Mark> {
    [FORMAT().note] + Marks()
  }

  /** The note's head as the printer writes it: nothing but its first character is a '<'. */
  function NoteHead(id: string): string {
    NOTE_OPEN + id + "'>"
  }

  lemma TagLiterals()
    ensures TITLE_OPEN == "'>" + Open("title") && TITLE_OPEN == "'><" + "title>"
    ensures TITLE_TO_MESSAGE == Close("title") + Open("message")
    ensures MESSAGE_CLOSE == Close("message") + "</note>"
    ensures NOTE_OPEN == NOTE + "'"
  {
  }

  lemma TailLiterals()
    ensures TITLE_TO_MESSAGE == "</title>" + "<message>"
    ensures MESSAGE_CLOSE == "</message>" + "</note>"
  {
  }

  /** The format of the sender, written out. */
  lemma PrintedText(id: string, title: string, event: string)
    ensures Printed(id, title, event)
         == "<?xml version='1.0' encoding='gb2312' ?>" + "<note id='" + id + "'><title>" + title
            + "</title><message>" + event + "</message></note>"
  {
  }

  /** Concatenation regrouped: head, note head, tagged title, tagged message, end. */
  lemma Regroup(h: string, n: string, i: string, q: string, o: string, t: string, c: string, m: string,
                e: string, d: string, x: string)
    ensures h + n + i + (q + o) + t + (c + m) + e + (d + x)
         == h + ((n + i + q) + ((o + t + c) + ((m + e + d) + x)))
  {
    var message := (m + e + d) + x;
    var front := h + n + i;
    var upToTitle := front + (q + o) + t;
    assert upToTitle + (c + m) + e + (d + x) == upToTitle + c + message;
    assert upToTitle + c + message == front + q + ((o + t + c) + message);
  }

  lemma PrintedPieces(id: string, title: string, event: string)
    ensures Printed(id, title, event)
         == HEAD + (NoteHead(id) + (Tagged("title", title) + (Tagged("message", event) + "</note>")))
  {
    TagLiterals();
    Regroup(HEAD, NOTE_OPEN, id, "'>", Open("title"), title, Close("title"), Open("message"), event,
            Close("message"), "</note>");
  }

  lemma PlainContainsNoTag(s: string, tag: string)
    requires Plain(s) && tag != "" && tag[0] == '<'
    ensures !Contains(s, tag)
  {
    forall i | 0 <= i
      ensures !OccursAt(s, tag, i)
    {
      if i + |tag| <= |s| {
        assert s[i..i + |tag|][0] == s[i];
      }
    }
    FindNone(s, tag, 0);
  }

  lemma HeadShape()
    ensures |HEAD| == 40 && HEAD[1] == '?' && '<' !in HEAD[1..]
  {
    assert forall i :: 1 <= i < 40 ==> HEAD[i] != '<';
  }

  lemma NoteHeadShape(id: string)
    requires Plain(id)
    ensures |NoteHead(id)| >= 2 && NoteHead(id)[1] == 'n' && '<' !in NoteHead(id)[1..]
  {
    var tail := "note id='" + id + "'>";
    assert '<' !in tail;
    assert NoteHead(id) == "<" + tail;
    TagTail(NoteHead(id), tail);
  }

  lemma TagTail(tag: string, tail: string)
    requires tag == "<" + tail && tail != ""
    ensures tag[1..] == tail && tag[1] == tail[0]
  {
  }

  /** Header and note head are skipped whatever the key is, as long as its name starts differently. */
  lemma SkipPreamble(id: string, rest: string, key: string)
    requires Plain(id) && NameOk(key) && key != "" && key[0] != '?' && key[0] != 'n'
    ensures Content(HEAD + (NoteHead(id) + rest), key, 0) == Content(rest, key, 0)
  {
    var head, note := HEAD, NoteHead(id);
    HeadShape();
    NoteHeadShape(id);
    OtherSecondCharacter(head, note + rest, key);
    SkipTag(head, note + rest, key);
    OtherSecondCharacter(note, rest, key);
    SkipTag(note, rest, key);
  }

  lemma OtherSecondCharacter(tag: string, b: string, key: string)
    requires |tag| >= 2 && key != "" && tag[1] != key[0]
    ensures !OccursAt(tag + b, Open(key), 0)
  {
    if |Open(key)| <= |tag + b| {
      assert (tag + b)[0..|Open(key)|][1] == tag[1];
      assert Open(key)[1] == key[0];
    }
  }

  /** The extractor reads back what was printed. */
  lemma PrintedIsExtracted(id: string, title: string, event: string)
    requires Plain(id) && Plain(title) && Plain(event)
    ensures Content(Printed(id, title, event), "title", 0) == title
    ensures Content(Printed(id, title, event), "message", 0) == event
  {
    hide Find, Content, Printed;
    PrintedPieces(id, title, event);
    var message := Tagged("message", event) + "</note>";
    var body := Tagged("title", title) + message;
    SkipPreamble(id, body, "title");
    PlainContainsNoTag(title, Close("title"));
    ReadItem(title, message, "title");
    SkipPreamble(id, body, "message");
    PlainContainsNoTag(title, Open("message"));
    SkipItem(Item("", "title", title), message, "message");
    PlainContainsNoTag(event, Close("message"));
    ReadItem(event, "</note>", "message");
  }

  /** And so does a reader of the destination: each text when it is shorter than the maxlen passed, and
      in a destination that is clean from its cut on only then. */
  lemma PrintedIsDelivered(old_: seq<char>, id: string, title: string, event: string, maxlen: nat)
    requires Plain(id) && Plain(title) && Plain(event)
    requires 1 <= maxlen <= |old_|
    requires |Content(Printed(id, title, event), "title", 0)| < |old_|
    requires |Content(Printed(id, title, event), "message", 0)| < |old_|
    ensures var text := Printed(id, title, event);
            var gotTitle, gotEvent := Stored(old_, Content(text, "title", 0), maxlen), Stored(old_, Content(text, "message", 0), maxlen);
            && (|title| < maxlen ==> CStr(gotTitle) == title) && (|event| < maxlen ==> CStr(gotEvent) == event)
            && (old_[maxlen - 1] == NUL ==> (CStr(gotTitle) == title <==> |title| < maxlen))
            && (old_[maxlen - 1] == NUL ==> (CStr(gotEvent) == event <==> |event| < maxlen))
  {
    hide Content, Printed, Stored, CStr;
    PrintedIsExtracted(id, title, event);
    CutReadsBack(old_, title, maxlen);
    CutReadsBack(old_, event, maxlen);
  }

  lemma PrintedLength(id: string, title: string, event: string)
    ensures |Printed(id, title, event)| == 93 + |id| + |title| + |event|
  {
    assert |HEAD| == 40 && |NOTE_OPEN| == 10 && |TITLE_OPEN| == 9 && |TITLE_TO_MESSAGE| == 17 && |MESSAGE_CLOSE| == 17;
  }

  /** The markers stand in the printed text with these gaps. */
  function Gaps(id: string, title: string, event: string): seq<string> {
    ["", "'" + id + "'>", title, "", event, ""]
  }

  lemma WovenSix(m: seq<Mark>, g: seq<string>)
    requires |m| == |g| == 6
    ensures Woven(m, g)
         == g[0] + m[0].pat + (g[1] + m[1].pat + (g[2] + m[2].pat + (g[3] + m[3].pat + (g[4] + m[4].pat + (g[5] + m[5].pat)))))
  {
    assert m[1..][1..] == m[2..] && m[2..][1..] == m[3..] && m[3..][1..] == m[4..] && m[4..][1..] == m[5..];
    assert g[1..][1..] == g[2..] && g[2..][1..] == g[3..] && g[3..][1..] == g[4..] && g[4..][1..] == g[5..];
    assert Woven(m[5..], g[5..]) == g[5] + m[5].pat;
    assert Woven(m[4..], g[4..]) == g[4] + m[4].pat + Woven(m[5..], g[5..]);
    assert Woven(m[3..], g[3..]) == g[3] + m[3].pat + Woven(m[4..], g[4..]);
    assert Woven(m[2..], g[2..]) == g[2] + m[2].pat + Woven(m[3..], g[3..]);
    assert Woven(m[1..], g[1..]) == g[1] + m[1].pat + Woven(m[2..], g[2..]);
  }

  lemma RegroupWoven(h: string, n: string, s: string, i: string, q: string, o: string, t: string, c: string,
                     m: string, e: string, d: string, x: string)
    ensures h + (n + s) + i + (q + o) + t + (c + m) + e + (d + x)
         == h + ("" + n + ((s + i + q) + o + (t + c + ("" + m + (e + d + ("" + x))))))
  {
    var message := "" + m + (e + d + ("" + x));
    var front := h + (n + s) + i;
    var upToTitle := front + (q + o) + t;
    assert upToTitle + (c + m) + e + (d + x) == upToTitle + c + message;
    assert upToTitle + c + message == front + q + (o + (t + c + message));
    assert front + q + (o + (t + c + message)) == h + ("" + n + ((s + i + q) + o + (t + c + message)));
  }

  lemma WovenSplit(id: string, title: string, event: string)
    ensures Woven(AllMarks(), Gaps(id, title, event))
         == "" + NOTE + (("'" + id + "'>") + "<title>"
              + (title + "</title>" + ("" + "<message>" + (event + "</message>" + ("" + "</note>")))))
  {
    hide Woven;
    WovenSix(AllMarks(), Gaps(id, title, event));
  }

  lemma PrintedSplit(id: string, title: string, event: string)
    ensures Printed(id, title, event)
         == HEAD + (NOTE + "'") + id + ("'>" + "<title>") + title + ("</title>" + "<message>") + event + ("</message>" + "</note>")
  {
    assert TITLE_OPEN == "'>" + "<title>";
    TailLiterals();
  }

  lemma PrintedIsWoven(id: string, title: string, event: string)
    ensures Printed(id, title, event) == HEAD + Woven(AllMarks(), Gaps(id, title, event))
  {
    hide Woven, Printed, Gaps, AllMarks;
    PrintedSplit(id, title, event);
    WovenSplit(id, title, event);
    RegroupWoven(HEAD, NOTE, "'", id, "'>", "<title>", title, "</title>", "<message>", event, "</message>", "</note>");
  }

  /** A piece with no '<' but at its head, and a different character behind that. */
  predicate StartsOtherTag(piece: string, tag: string) {
    |piece| >= 2 && '<' !in piece[1..] && |tag| >= 2 && tag[0] == '<' && piece[1] != tag[1]
  }

  lemma NoTagInPiece(piece: string, b: string, tag: string)
    requires StartsOtherTag(piece, tag)
    ensures forall i :: 0 <= i < |piece| ==> !OccursAt(piece + b, tag, i)
  {
    forall i | 0 <= i < |piece|
      ensures !OccursAt(piece + b, tag, i)
    {
      if i + |tag| <= |piece + b| {
        assert (piece + b)[i..i + |tag|][0] == piece[i];
        assert (piece + b)[i..i + |tag|][1] == (piece + b)[i + 1];
        assert i > 0 ==> piece[i] == piece[1..][i - 1];
      }
    }
  }

  lemma SkipNonTag(piece: string, b: string, tag: string)
    requires StartsOtherTag(piece, tag)
    ensures Find(piece + b, tag, 0) < 0 <==> Find(b, tag, 0) < 0
  {
    NoTagInPiece(piece, b, tag);
    FindSkip(piece, b, tag);
  }

  lemma RegroupTail(f: string, c: string, m: string, e: string, d: string, x: string)
    ensures f + (c + m) + e + (d + x) == f + (c + ((m + e) + (d + (x + ""))))
  {
    assert (m + e) + (d + (x + "")) == m + e + (d + x);
    assert f + (c + m) + e == f + c + (m + e);
  }

  lemma NoneOfFive(front: string, a: string, b: string, c: string, d: string, tag: string)
    requires '<' !in front
    requires StartsOtherTag(a, tag) && StartsOtherTag(b, tag) && StartsOtherTag(c, tag) && StartsOtherTag(d, tag)
    ensures Find(front + (a + (b + (c + (d + "")))), tag, 0) < 0
  {
    SkipNonTag(d, "", tag);
    SkipNonTag(c, d + "", tag);
    SkipNonTag(b, c + (d + ""), tag);
    SkipNonTag(a, b + (c + (d + "")), tag);
    SkipPlainText(front, a + (b + (c + (d + ""))), tag);
  }

  lemma TailTags(event: string)
    requires Plain(event)
    ensures StartsOtherTag("</title>", "<title>") && StartsOtherTag("</message>", "<title>")
    ensures StartsOtherTag("</note>", "<title>") && StartsOtherTag("<message>" + event, "<title>")
  {
    assert ("<message>" + event)[1..] == "message>" + event;
    assert "</title>"[1..] == "/title>" && "</message>"[1..] == "/message>" && "</note>"[1..] == "/note>";
  }

  /** Behind the first character of the title tag no second one follows. */
  lemma NoOtherTitle(title: string, event: string)
    requires Plain(title) && Plain(event)
    ensures Find("title>" + title + TITLE_TO_MESSAGE + event + MESSAGE_CLOSE, "<title>", 0) < 0
  {
    TailTags(event);
    NoneOfFive("title>" + title, "</title>", "<message>" + event, "</message>", "</note>", "<title>");
    TailLiterals();
    RegroupTail("title>" + title, "</title>", "<message>", event, "</message>", "</note>");
  }

  lemma SkipPlainText(front: string, rest: string, tag: string)
    requires '<' !in front && tag != "" && tag[0] == '<'
    ensures Find(front + rest, tag, 0) < 0 <==> Find(rest, tag, 0) < 0
  {
    forall i | 0 <= i < |front|
      ensures !OccursAt(front + rest, tag, i)
    {
      if i + |tag| <= |front + rest| {
        assert (front + rest)[i..i + |tag|][0] == front[i];
      }
    }
    FindSkip(front, rest, tag);
  }

  ghost predicate NoneBefore(s: string, tag: string, n: nat) {
    forall i :: 0 <= i < n ==> !OccursAt(s, tag, i)
  }

  lemma NoneBeforePiece(piece: string, b: string, tag: string, n: nat)
    requires NoneBefore(piece + b, tag, |piece|) && NoneBefore(b, tag, n)
    ensures NoneBefore(piece + b, tag, |piece| + n)
  {
    forall i | 0 <= i < |piece| + n
      ensures !OccursAt(piece + b, tag, i)
    {
      if |piece| <= i {
        OccursShift(piece, b, tag, i);
      }
    }
  }

  /** The two close tags differ in their third character. */
  lemma TitleCloseIsOther(b: string)
    ensures NoneBefore("</title>" + b, "</message>", 8)
  {
    var piece, tag := "</title>", "</message>";
    forall i | 0 <= i < 8
      ensures !OccursAt(piece + b, tag, i)
    {
      if i + 10 <= |piece + b| {
        assert (piece + b)[i..i + 10][0] == piece[i];
        assert (piece + b)[i..i + 10][2] == (piece + b)[i + 2];
      }
    }
  }

  lemma PreambleStartsOther(id: string, title: string)
    requires Plain(id) && Plain(title)
    ensures StartsOtherTag(HEAD, "</message>") && StartsOtherTag(NoteHead(id), "</message>")
    ensures StartsOtherTag("<title>" + title, "</message>")
  {
    HeadShape();
    NoteHeadShape(id);
    assert ("<title>" + title)[1..] == "title>" + title;
  }

  /** Everything in front of the tagged message. */
  function BeforeMessage(id: string, title: string): string {
    HEAD + (NoteHead(id) + (("<title>" + title) + "</title>"))
  }

  lemma RegroupFour(a: string, b: string, c: string, d: string, m: string)
    ensures a + (b + ((c + d) + m)) == a + (b + (c + (d + m))) == (a + (b + (c + d))) + m
  {
    assert (c + d) + m == c + (d + m);
    assert b + ((c + d) + m) == (b + (c + d)) + m;
  }

  lemma PrintedInFour(id: string, title: string, event: string)
    ensures var message := Tagged("message", event) + "</note>";
            && Printed(id, title, event) == BeforeMessage(id, title) + message
            && Printed(id, title, event) == HEAD + (NoteHead(id) + (("<title>" + title) + ("</title>" + message)))
  {
    var message := Tagged("message", event) + "</note>";
    PrintedPieces(id, title, event);
    TitleTagged(title);
    hide Printed, NoteHead, Tagged;
    RegroupFour(HEAD, NoteHead(id), "<title>" + title, "</title>", message);
  }

  lemma TitleTagged(title: string)
    ensures Tagged("title", title) == ("<title>" + title) + "</title>"
  {
    assert Open("title") == "<title>" && Close("title") == "</title>";
  }

  lemma NoneBeforeFour(a: string, b: string, c: string, d: string, m: string, tag: string)
    requires StartsOtherTag(a, tag) && StartsOtherTag(b, tag) && StartsOtherTag(c, tag)
    requires NoneBefore(d + m, tag, |d|)
    ensures NoneBefore(a + (b + (c + (d + m))), tag, |a| + |b| + |c| + |d|)
  {
    NoTagInPiece(c, d + m, tag);
    NoneBeforePiece(c, d + m, tag, |d|);
    NoTagInPiece(b, c + (d + m), tag);
    NoneBeforePiece(b, c + (d + m), tag, |c| + |d|);
    NoTagInPiece(a, b + (c + (d + m)), tag);
    NoneBeforePiece(a, b + (c + (d + m)), tag, |b| + |c| + |d|);
  }

  /** No close tag of a message stands in front of the message. */
  lemma NoCloseTagInFront(id: string, title: string, event: string)
    requires Plain(id) && Plain(title)
    ensures Printed(id, title, event) == BeforeMessage(id, title) + (Tagged("message", event) + "</note>")
    ensures NoneBefore(Printed(id, title, event), "</message>", |BeforeMessage(id, title)|)
  {
    hide OccursAt, StartsOtherTag, Printed, NoneBefore, NoteHead;
    var message := Tagged("message", event) + "</note>";
    PrintedInFour(id, title, event);
    PreambleStartsOther(id, title);
    TitleCloseIsOther(message);
    NoneBeforeFour(HEAD, NoteHead(id), "<title>" + title, "</title>", message, "</message>");
  }

  lemma OpenIsNoClose(event: string)
    ensures !OccursAt(Tagged("message", event) + "</note>", "</message>", 0)
    ensures OccursAt(Tagged("message", event) + "</note>", "<message>", 0)
    ensures OccursAt(Tagged("message", event) + "</note>", "</message>", 9 + |event|)
  {
    var rest := Tagged("message", event) + "</note>";
    assert Open("message") == "<message>" && Close("message") == "</message>";
    assert rest[0..10][1] == 'm';
  }

  lemma TagsInOrder(front: string, rest: string, open: string, close: string, at: nat)
    requires NoneBefore(front + rest, close, |front|)
    requires OccursAt(rest, open, 0) && !OccursAt(rest, close, 0) && OccursAt(rest, close, at)
    ensures 0 <= Find(front + rest, open, 0) < Find(front + rest, close, 0)
  {
    hide Find, OccursAt, NoneBefore;
    OccursShift(front, rest, open, |front|);
    OccursShift(front, rest, close, |front|);
    OccursShift(front, rest, close, |front| + at);
    FirstInOrder(front + rest, open, close, |front|, |front| + at);
  }

  lemma FirstInOrder(text: string, open: string, close: string, n: nat, m: nat)
    requires NoneBefore(text, close, n)
    requires OccursAt(text, open, n) && !OccursAt(text, close, n) && OccursAt(text, close, m)
    ensures 0 <= Find(text, open, 0) < Find(text, close, 0)
  {
    FindAtMost(text, open, 0, n);
    FindFacts(text, close, 0);
  }

  /** The first close tag of a message comes behind the first open tag. */
  lemma MessageTagsInOrder(id: string, title: string, event: string)
    requires Plain(id) && Plain(title)
    ensures 0 <= Find(Printed(id, title, event), "<message>", 0) < Find(Printed(id, title, event), "</message>", 0)
  {
    NoCloseTagInFront(id, title, event);
    OpenIsNoClose(event);
    TagsInOrder(BeforeMessage(id, title), Tagged("message", event) + "</note>", "<message>", "</message>", 9 + |event|);
  }

  /** Nor inside it: the first one is the one that ends it. */
  lemma CloseTagAt(id: string, title: string, event: string)
    requires Plain(id) && Plain(title) && Plain(event)
    ensures Find(Printed(id, title, event), "</message>", 0) == |Printed(id, title, event)| - 17
  {
    hide Find, Printed;
    var front, rest := BeforeMessage(id, title), Tagged("message", event) + "</note>";
    NoCloseTagInFront(id, title, event);
    OpenIsNoClose(event);
    forall i | 0 <= i < 9 + |event|
      ensures !OccursAt(rest, "</message>", i)
    {
      if 0 < i && i + 10 <= |rest| {
        assert rest == ("<" + "message>" + event) + (Close("message") + "</note>");
        assert rest[i] == ("message>" + event)[i - 1] && rest[i] != '<';
        assert rest[i..i + 10][0] == rest[i];
      }
    }
    FindIs(rest, "</message>", 0, 9 + |event|);
    assert forall i :: 0 <= i < |front| ==> !OccursAt(front + rest, "</message>", i);
    FindSkip(front, rest, "</message>");
  }

  lemma NoteIsFirst(id: string, title: string, event: string)
    ensures HEAD <= Printed(id, title, event)
    ensures Find(Printed(id, title, event), NOTE, |HEAD|) == |HEAD|
  {
    assert OccursAt(Printed(id, title, event), NOTE, |HEAD|);
    FindIs(Printed(id, title, event), NOTE, |HEAD|, |HEAD|);
  }

  /** An empty id leaves the skip one character too far: the title tag is missed. */
  lemma EmptyIdIsIllegal(title: string, event: string)
    requires Plain(title) && Plain(event)
    ensures !Legal(FORMAT(), Printed("", title, event))
  {
    var text := Printed("", title, event);
    NoteIsFirst("", title, event);
    NoOtherTitle(title, event);
    HeadedIsLegal(FORMAT(), text);
    assert Marks()[0].pat == "<title>";
    var front, rest := HEAD + NOTE_OPEN + "'><", "title>" + title + TITLE_TO_MESSAGE + event + MESSAGE_CLOSE;
    TagLiterals();
    RegroupFront(HEAD + NOTE_OPEN, "'><", "title>", title, TITLE_TO_MESSAGE, event, MESSAGE_CLOSE);
    FindShift(front, rest, "<title>", |HEAD| + 13);
  }

  lemma RegroupFront(h: string, a: string, b: string, t: string, k: string, e: string, z: string)
    ensures h + "" + (a + b) + t + k + e + z == (h + a) + (b + t + k + e + z)
  {
    assert h + "" + (a + b) + t == (h + a) + (b + t);
    assert (h + a) + (b + t) + k + e == (h + a) + (b + t + k + e);
  }

  /** The validator accepts what was printed exactly when the id is not empty and the three texts
      are long enough together. */
  lemma PrintedIsLegal(id: string, title: string, event: string)
    requires Plain(id) && Plain(title) && Plain(event)
    ensures Legal(FORMAT(), Printed(id, title, event)) <==> id != "" && |id| + |title| + |event| >= 4
    ensures SkipInside(FORMAT(), Printed(id, title, event))
  {
    var text := Printed(id, title, event);
    PrintedLength(id, title, event);
    NoteIsFirst(id, title, event);
    if id == "" {
      EmptyIdIsIllegal(title, event);
    } else {
      PrintedIsWoven(id, title, event);
      var woven := Woven(AllMarks(), Gaps(id, title, event));
      assert woven + "" == woven;
      WovenIsFound(text, HEAD, |HEAD|, AllMarks(), Gaps(id, title, event), "");
      GreedyIsPlacement(text, |HEAD|, AllMarks());
    }
  }

  /** What isLegal answers for any buffer that holds a printed text. */
  lemma PrintedBufferIsLegal(buf: seq<char>, id: string, title: string, event: string)
    requires Plain(id) && Plain(title) && Plain(event)
    requires Terminated(buf) && CStr(buf) == Printed(id, title, event)
    ensures SkipSafe(FORMAT(), buf)
    ensures LegalBuffer(FORMAT(), buf) <==> id != "" && |id| + |title| + |event| >= 4
  {
    PrintedIsLegal(id, title, event);
    LegalBufferExact(FORMAT(), buf);
  }

  lemma PrintedInjective(id: string, title: string, event: string, other: string)
    requires Plain(id) && Plain(title) && Plain(event) && Plain(other)
    ensures Printed(id, title, event) == Printed(id, title, other) ==> event == other
  {
    hide Printed, Content;
    PrintedIsExtracted(id, title, event);
    PrintedIsExtracted(id, title, other);
  }

  const DATA_SIZE: nat := 1024
  const COUNT: nat := 3
  const COUNTBUF: seq<string> := ["0", "1", "2", "3", "4", "5"]
  const TITLES: seq<string> := ["PollingData", "DataUpdate", "AlarmUpdate", "ProblemAck", "MdControl", "MdAction"]
  const EVENTS: seq<string> := ["A2", "A3", "A5", "A2", "A3", "A5", "B", "A2", "A3", "B", "A5"]

  lemma EventsArePlain(i: nat)
    requires i < 11
    ensures Plain(EVENTS[i]) && |EVENTS[i]| <= 2
  {
  }

  /** Which events the sender prints: B in the turns 6 and 9 of every 11. */
  lemma EventTurns(i: nat)
    requires i < 11
    ensures EVENTS[i] == if i in {6, 9} then "B" else if i in {0, 3, 7} then "A2" else if i in {1, 4, 8} then "A3" else "A5"
  {
  }

  lemma FixedTexts()
    ensures COUNTBUF[COUNT % 6] == "3" && TITLES[COUNT] == "ProblemAck"
    ensures Plain("3") && Plain("ProblemAck") && Plain("B")
  {
  }

  class UClient {
    const data: array<char>
    var ievent: nat

    constructor ()
      ensures data.Length == DATA_SIZE && ievent == 0 && fresh(data)
    {
      data := new char[DATA_SIZE](_ => NUL);
      ievent := 0;
    }

    /** The strcpy and the strcats up to the title. */
    method PrintFront(id: string, title: string)
      requires data.Length == DATA_SIZE && Plain(id) && Plain(title)
      requires 59 + |id| + |title| < DATA_SIZE
      modifies data
      ensures Terminated(data[..]) && CStr(data[..]) == HEAD + NOTE_OPEN + id + TITLE_OPEN + title
    {
      hide Terminated, Len;
      Strcpy(data, HEAD);
      Strcat(data, NOTE_OPEN);
      Strcat(data, id);
      Strcat(data, TITLE_OPEN);
      Strcat(data, title);
    }

    /** The strcpy and the seven strcats. */
    method Print(id: string, title: string, event: string)
      requires data.Length == DATA_SIZE && Plain(id) && Plain(title) && Plain(event)
      requires 93 + |id| + |title| + |event| < DATA_SIZE
      modifies data
      ensures Terminated(data[..]) && CStr(data[..]) == Printed(id, title, event)
    {
      hide Terminated, Len;
      PrintFront(id, title);
      Strcat(data, TITLE_TO_MESSAGE);
      Strcat(data, event);
      Strcat(data, MESSAGE_CLOSE);
    }

    /** func: the next event in turn is printed, and the whole buffer is sent, leftovers included. */
    method Func() returns (sent: seq<char>)
      requires data.Length == DATA_SIZE
      modifies data, `ievent
      ensures ievent == (old(ievent) + 1) % 11
      ensures sent == data[..] && Terminated(sent)
      ensures CStr(sent) == Printed("3", "ProblemAck", EVENTS[ievent])
      ensures CStr(sent) == Printed("3", "ProblemAck", "B") <==> ievent == 6 || ievent == 9
      ensures |sent| == 1024
    {
      hide Plain, Printed, CStr, Terminated;
      ievent := ievent + 1;
      ievent := ievent % 11;
      EventsArePlain(ievent % 11);
      FixedTexts();
      EventTurns(ievent);
      PrintedInjective("3", "ProblemAck", EVENTS[ievent], "B");
      Print(COUNTBUF[COUNT % 6], TITLES[COUNT], EVENTS[ievent % 11]);
      sent := data[..];
    }
  }
}
