/** isLegal: a greedy chain of leftmost searches, compared with "there is some placement of the
    markers", and the one skip that can carry the cursor past the end of the string. */
module Legality {
  import opened CText
  import opened CLib

  /** A text to look for and how far the cursor moves from where it was found. */
  datatype Mark = Mark(pat: string, skip: nat)

  /** A format: a minimal size, a fixed head, a first marker, and the markers behind it. */
  datatype Format = Format(minSize: nat, head: string, note: Mark, marks: seq<Mark>)

  const HEAD: string := "<?xml version='1.0' encoding='gb2312' ?>"

  function Marks(): seq<Mark> {
    [Mark("<title>", 7), Mark("</title>", 8), Mark("<message>", 9), Mark("</message>", 10), Mark("</note>", 7)]
  }

  /** The format of the filter. The skip behind the note marker is four more than its length. */
  function FORMAT(): Format {
    Format(97, HEAD, Mark("<note id=", 13), Marks())
  }

  /** Leftmost match after leftmost match. */
  predicate Greedy(text: string, at: nat, marks: seq<Mark>)
    decreases |marks|
  {
    marks == [] ||
    var f := Find(text, marks[0].pat, at);
    f >= 0 && Greedy(text, f + marks[0].skip, marks[1..])
  }

  /** The marks stand at the positions ps, the first at or after at, each of the others at least the
      previous skip further on. */
  ghost predicate Placed(text: string, at: nat, marks: seq<Mark>, ps: seq<nat>)
    decreases |marks|
  {
    && |ps| == |marks|
    && (marks != [] ==>
          && at <= ps[0]
          && OccursAt(text, marks[0].pat, ps[0])
          && Placed(text, ps[0] + marks[0].skip, marks[1..], ps[1..]))
  }

  ghost predicate HasPlacement(text: string, at: nat, marks: seq<Mark>) {
    exists ps :: Placed(text, at, marks, ps)
  }

  /** Taking leftmost matches loses nothing: greedy succeeds if any placement exists. */
  lemma {:induction false} GreedyComplete(text: string, at: nat, marks: seq<Mark>, ps: seq<nat>)
    requires Placed(text, at, marks, ps)
    ensures Greedy(text, at, marks)
    decreases |marks|
  {
    if marks != [] {
      var f := Find(text, marks[0].pat, at);
      FindAtMost(text, marks[0].pat, at, ps[0]);
      GreedyComplete(text, f + marks[0].skip, marks[1..], ps[1..]);
    }
  }

  /** And it invents nothing: the leftmost matches are a placement. */
  lemma {:induction false} GreedySound(text: string, at: nat, marks: seq<Mark>) returns (ps: seq<nat>)
    requires Greedy(text, at, marks)
    ensures Placed(text, at, marks, ps)
    decreases |marks|
  {
    if marks == [] {
      ps := [];
    } else {
      var f := Find(text, marks[0].pat, at);
      FindFacts(text, marks[0].pat, at);
      var rest := GreedySound(text, f + marks[0].skip, marks[1..]);
      ps := [f] + rest;
      assert ps[1..] == rest;
    }
  }

  lemma GreedyIsPlacement(text: string, at: nat, marks: seq<Mark>)
    ensures Greedy(text, at, marks) <==> HasPlacement(text, at, marks)
  {
    if Greedy(text, at, marks) {
      var ps := GreedySound(text, at, marks);
    }
    if HasPlacement(text, at, marks) {
      var ps :| Placed(text, at, marks, ps);
      GreedyComplete(text, at, marks, ps);
    }
  }

  /** The documented format: long enough, the head first, then all markers in order. */
  ghost predicate Legal(f: Format, text: string) {
    f.minSize <= |text| && f.head <= text && HasPlacement(text, |f.head|, [f.note] + f.marks)
  }

  function NoteAt(f: Format, text: string): int {
    Find(text, f.note.pat, |f.head|)
  }

  predicate Headed(f: Format, text: string) {
    f.minSize <= |text| && f.head <= text && NoteAt(f, text) >= 0
  }

  /** The cursor behind the first marker is still inside the string. */
  predicate SkipInside(f: Format, text: string) {
    Headed(f, text) ==> NoteAt(f, text) + f.note.skip <= |text|
  }

  /** The cursor behind the first marker stays inside the buffer and some NUL still follows. */
  predicate SkipSafe(f: Format, buf: seq<char>) {
    Headed(f, CStr(buf)) ==>
      var p := NoteAt(f, CStr(buf)) + f.note.skip;
      p <= |buf| && Terminated(buf[p..])
  }

  /** What isLegal answers for a buffer: the markers behind the first one are searched for in
      whatever string starts at the moved cursor. */
  predicate LegalBuffer(f: Format, buf: seq<char>)
    requires SkipSafe(f, buf)
  {
    Headed(f, CStr(buf)) && Greedy(CStr(buf[NoteAt(f, CStr(buf)) + f.note.skip..]), 0, f.marks)
  }

  lemma {:induction false} GreedyShift(front: string, rest: string, at: nat, marks: seq<Mark>)
    ensures Greedy(front + rest, |front| + at, marks) <==> Greedy(rest, at, marks)
    decreases |marks|
  {
    hide Find;
    if marks != [] {
      var text, mark := front + rest, marks[0];
      FindShift(front, rest, mark.pat, |front| + at);
      GreedyUnfold(rest, at, marks);
      GreedyUnfold(text, |front| + at, marks);
      var f := Find(rest, mark.pat, at);
      if f >= 0 {
        GreedyShift(front, rest, f + mark.skip, marks[1..]);
      }
    }
  }

  lemma GreedyUnfold(text: string, at: nat, marks: seq<Mark>)
    requires marks != []
    ensures Greedy(text, at, marks) <==>
            (var f := Find(text, marks[0].pat, at); f >= 0 && Greedy(text, f + marks[0].skip, marks[1..]))
  {
  }

  lemma GreedyCons(text: string, at: nat, mark: Mark, marks: seq<Mark>)
    ensures Greedy(text, at, [mark] + marks) <==>
            (var f := Find(text, mark.pat, at); f >= 0 && Greedy(text, f + mark.skip, marks))
  {
    assert ([mark] + marks)[1..] == marks;
  }

  /** The documented format, as the greedy chain behind the head and the first marker. */
  lemma HeadedIsLegal(f: Format, text: string)
    ensures Legal(f, text) <==> Headed(f, text) && Greedy(text, NoteAt(f, text) + f.note.skip, f.marks)
  {
    GreedyIsPlacement(text, |f.head|, [f.note] + f.marks);
    GreedyCons(text, |f.head|, f.note, f.marks);
  }

  /** When the skip stays inside the string, the answer is exactly the documented format. */
  lemma LegalBufferExact(f: Format, buf: seq<char>)
    requires Terminated(buf) && SkipInside(f, CStr(buf))
    ensures SkipSafe(f, buf)
    ensures LegalBuffer(f, buf) <==> Legal(f, CStr(buf))
  {
    hide Find, Greedy, Len, Legal;
    var text := CStr(buf);
    HeadedIsLegal(f, text);
    if Headed(f, text) {
      var p := NoteAt(f, text) + f.note.skip;
      CStrSuffix(buf, p);
      assert text == text[..p] + text[p..];
      GreedyShift(text[..p], text[p..], 0, f.marks);
    }
  }

  /** What is answered for every buffer that isLegal may read, also when the skip leaves the string: the
      string behind the moved cursor is the one that has to hold the other markers. */
  lemma AnyBufferExact(f: Format, buf: seq<char>)
    requires SkipSafe(f, buf)
    ensures LegalBuffer(f, buf) <==>
            Headed(f, CStr(buf)) && HasPlacement(CStr(buf[NoteAt(f, CStr(buf)) + f.note.skip..]), 0, f.marks)
  {
    if Headed(f, CStr(buf)) {
      GreedyIsPlacement(CStr(buf[NoteAt(f, CStr(buf)) + f.note.skip..]), 0, f.marks);
    }
  }

  /** Markers at these positions, in the filter's own texts and distances: 13 behind the start of the note
      marker, which has 9 characters, and behind the whole of every other marker. */
  predicate MarkersAt(text: string, n: nat, t: nat, t': nat, m: nat, m': nat, n': nat) {
    && 40 <= n && OccursAt(text, "<note id=", n)
    && n + 13 <= t && OccursAt(text, "<title>", t)
    && t + 7 <= t' && OccursAt(text, "</title>", t')
    && t' + 8 <= m && OccursAt(text, "<message>", m)
    && m + 9 <= m' && OccursAt(text, "</message>", m')
    && m' + 10 <= n' && OccursAt(text, "</note>", n')
  }

  /** The filter's format, written out. */
  lemma FilterFormatExact(text: string)
    ensures Legal(FORMAT(), text) <==>
            && 97 <= |text| && "<?xml version='1.0' encoding='gb2312' ?>" <= text
            && exists n: nat, t: nat, t': nat, m: nat, m': nat, n': nat :: MarkersAt(text, n, t, t', m, m', n')
  {
    LiteralsArePlain();
    hide OccursAt;
    var marks := [FORMAT().note] + FORMAT().marks;
    if HasPlacement(text, 40, marks) {
      var ps :| Placed(text, 40, marks, ps);
      PlacedSix(text, 40, marks, ps);
      assert MarkersAt(text, ps[0], ps[1], ps[2], ps[3], ps[4], ps[5]);
    }
    if n: nat, t: nat, t': nat, m: nat, m': nat, n': nat :| MarkersAt(text, n, t, t', m, m', n') {
      PlacedSix(text, 40, marks, [n, t, t', m, m', n']);
    }
  }

  /** Six markers, one after the other. */
  lemma PlacedSix(text: string, at: nat, marks: seq<Mark>, ps: seq<nat>)
    requires |marks| == 6
    ensures Placed(text, at, marks, ps) <==>
            && |ps| == 6 && at <= ps[0]
            && (forall i :: 0 <= i < 6 ==> OccursAt(text, marks[i].pat, ps[i]))
            && (forall i :: 0 < i < 6 ==> ps[i - 1] + marks[i - 1].skip <= ps[i])
  {
    PlacedAll(text, at, marks, ps);
  }

  lemma {:induction false} PlacedAll(text: string, at: nat, marks: seq<Mark>, ps: seq<nat>)
    ensures Placed(text, at, marks, ps) <==>
            && |ps| == |marks| && (marks != [] ==> at <= ps[0])
            && (forall i :: 0 <= i < |marks| ==> OccursAt(text, marks[i].pat, ps[i]))
            && (forall i :: 0 < i < |marks| ==> ps[i - 1] + marks[i - 1].skip <= ps[i])
    decreases |marks|
  {
    hide OccursAt;
    if marks != [] && |ps| == |marks| {
      PlacedAll(text, ps[0] + marks[0].skip, marks[1..], ps[1..]);
      assert forall i :: 0 <= i < |marks| - 1 ==> marks[1..][i] == marks[i + 1] && ps[1..][i] == ps[i + 1];
      assert forall i :: 0 < i < |marks| ==> marks[i] == marks[1..][i - 1] && ps[i] == ps[1..][i - 1];
    }
  }

  /** A string in the documented format is accepted in whatever buffer it stands. */
  lemma LegalIsAccepted(f: Format, buf: seq<char>)
    requires Terminated(buf) && Legal(f, CStr(buf)) && f.marks != []
    ensures SkipSafe(f, buf) && LegalBuffer(f, buf)
  {
    var text := CStr(buf);
    HeadedIsLegal(f, text);
    assert Find(text, f.marks[0].pat, NoteAt(f, text) + f.note.skip) >= 0;
    LegalBufferExact(f, buf);
  }

  /** The marks in order, each with a gap in front of it. */
  function Woven(marks: seq<Mark>, gaps: seq<string>): string
    requires |marks| == |gaps|
  {
    if marks == [] then "" else gaps[0] + marks[0].pat + Woven(marks[1..], gaps[1..])
  }

  /** A text and its gap are never shorter than the skip over the text. */
  predicate Roomy(marks: seq<Mark>, gaps: seq<string>) {
    |marks| == |gaps| && forall i :: 0 < i < |marks| ==> marks[i - 1].skip <= |marks[i - 1].pat| + |gaps[i]|
  }

  lemma {:induction false} WovenIsFound(text: string, front: string, at: nat, marks: seq<Mark>, gaps: seq<string>, back: string)
    requires Roomy(marks, gaps) && (marks != [] ==> at <= |front| + |gaps[0]|)
    requires text == front + (Woven(marks, gaps) + back)
    ensures Greedy(text, at, marks)
    decreases |marks|
  {
    hide Find;
    if marks != [] {
      var gap, pat, rest := gaps[0], marks[0].pat, Woven(marks[1..], gaps[1..]);
      Regroup(front, gap, pat, rest, back);
      assert OccursAt(text, pat, |front| + |gap|);
      FindAtMost(text, pat, at, |front| + |gap|);
      assert forall i :: 0 <= i < |marks| - 1 ==> marks[1..][i] == marks[i + 1] && gaps[1..][i] == gaps[i + 1];
      WovenIsFound(text, front + gap + pat, Find(text, pat, at) + marks[0].skip, marks[1..], gaps[1..], back);
      GreedyUnfold(text, at, marks);
    }
  }

  lemma Regroup(a: string, b: string, c: string, d: string, e: string)
    ensures a + ((b + c + d) + e) == (a + b + c) + (d + e)
  {
  }

  lemma {:induction false} WovenNulFree(marks: seq<Mark>, gaps: seq<string>)
    requires |marks| == |gaps|
    requires forall i :: 0 <= i < |marks| ==> NUL !in marks[i].pat && NUL !in gaps[i]
    ensures NUL !in Woven(marks, gaps)
  {
    if marks != [] {
      assert forall i :: 0 <= i < |marks| - 1 ==> marks[1..][i] == marks[i + 1] && gaps[1..][i] == gaps[i + 1];
      WovenNulFree(marks[1..], gaps[1..]);
    }
  }

  /** The markers behind the first one are not empty, not skipped too far, and contain no NUL. */
  predicate FormatOk(f: Format) {
    && f.marks != []
    && forall i :: 0 <= i < |f.marks| ==>
         f.marks[i].pat != "" && f.marks[i].skip <= |f.marks[i].pat| && NUL !in f.marks[i].pat
  }

  /** A buffer that holds the string, and that isLegal may read. */
  predicate Holds(f: Format, buf: seq<char>, text: string) {
    Terminated(buf) && CStr(buf) == text && SkipSafe(f, buf)
  }

  /** A string, its terminator, k leftover characters and a second string. */
  lemma Leftover(text: string, k: nat, second: string) returns (buf: seq<char>)
    requires NUL !in text && NUL !in second
    ensures Terminated(buf) && CStr(buf) == text
    ensures |text| + 1 + k <= |buf| && Terminated(buf[|text| + 1 + k..])
    ensures CStr(buf[|text| + 1 + k..]) == second
  {
    var filler := seq(k, _ => 'x');
    buf := text + [NUL] + filler + second + [NUL];
    CStrIs(buf, text);
    assert buf[|text| + 1 + k..] == second + [NUL];
    CStrIs(buf[|text| + 1 + k..], second);
  }

  /** A buffer in which the characters behind the terminator make isLegal accept. */
  lemma StaleAcceptance(f: Format, text: string) returns (buf: seq<char>)
    requires FormatOk(f) && NUL !in text && !SkipInside(f, text)
    ensures Holds(f, buf, text) && LegalBuffer(f, buf)
  {
    var gaps := seq(|f.marks|, _ => "");
    var tags := Woven(f.marks, gaps);
    WovenNulFree(f.marks, gaps);
    buf := Leftover(text, NoteAt(f, text) + f.note.skip - |text| - 1, tags);
    WovenIsGreedy(f.marks, gaps);
  }

  lemma WovenIsGreedy(marks: seq<Mark>, gaps: seq<string>)
    requires Roomy(marks, gaps)
    ensures Greedy(Woven(marks, gaps), 0, marks)
  {
    var text := Woven(marks, gaps);
    assert text == "" + (text + "");
    WovenIsFound(text, "", 0, marks, gaps, "");
  }

  /** And one with the same string in which it rejects. */
  lemma StaleRejection(f: Format, text: string) returns (buf: seq<char>)
    requires FormatOk(f) && NUL !in text && !SkipInside(f, text)
    ensures Holds(f, buf, text) && !LegalBuffer(f, buf)
  {
    buf := Leftover(text, NoteAt(f, text) + f.note.skip - |text| - 1, "");
    assert Find("", f.marks[0].pat, 0) < 0;
  }

  /** The answer is a function of the string exactly when the skip stays inside it. */
  lemma DependsOnTextOnly(f: Format, text: string)
    requires FormatOk(f) && NUL !in text
    ensures SkipInside(f, text) <==>
            (forall a, b :: Holds(f, a, text) && Holds(f, b, text) ==> LegalBuffer(f, a) == LegalBuffer(f, b))
  {
    if SkipInside(f, text) {
      forall a, b | Holds(f, a, text) && Holds(f, b, text)
        ensures LegalBuffer(f, a) == LegalBuffer(f, b)
      {
        LegalBufferExact(f, a);
        LegalBufferExact(f, b);
      }
    } else {
      var a := StaleAcceptance(f, text);
      var b := StaleRejection(f, text);
    }
  }

  /** The filter's own format is one of these, and its skip is too long by four characters. */
  lemma FilterFormat()
    ensures FormatOk(FORMAT()) && FORMAT().note.skip == |FORMAT().note.pat| + 4
  {
  }

  lemma FoundBehind(head: string, filler: string, pat: string)
    requires '<' !in filler && pat != "" && pat[0] == '<'
    ensures Find(head + filler + pat, pat, |head|) == |head| + |filler|
  {
    var text := head + filler + pat;
    forall i | |head| <= i < |head| + |filler|
      ensures !OccursAt(text, pat, i)
    {
      assert text[i] == filler[i - |head|];
      assert i + |pat| <= |text| ==> text[i..i + |pat|][0] == text[i];
    }
    assert OccursAt(text, pat, |head| + |filler|);
    FindIs(text, pat, |head|, |head| + |filler|);
  }

  /** A string that ends with the note marker. */
  function MarkerLast(): string {
    HEAD + seq(60, _ => 'x') + FORMAT().note.pat
  }

  lemma MarkerLastRunsOver()
    ensures !SkipInside(FORMAT(), MarkerLast()) && NUL !in MarkerLast()
  {
    hide Find;
    var filler := seq(60, _ => 'x');
    FoundBehind(HEAD, filler, FORMAT().note.pat);
    assert MarkerLast() == HEAD + (filler + FORMAT().note.pat);
    LiteralsArePlain();
  }

  lemma LiteralsArePlain()
    ensures |HEAD| == 40 && NUL !in HEAD && |FORMAT().note.pat| == 9 && NUL !in FORMAT().note.pat
  {
  }

  /** The skip leaves that string, and isLegal answers differently for two buffers that hold it. */
  lemma SkipLeavesText() returns (a: seq<char>, b: seq<char>)
    ensures Holds(FORMAT(), a, MarkerLast()) && Holds(FORMAT(), b, MarkerLast())
    ensures LegalBuffer(FORMAT(), a) && !LegalBuffer(FORMAT(), b)
  {
    hide SkipInside, LegalBuffer, Holds, MarkerLast;
    FilterFormat();
    MarkerLastRunsOver();
    a := StaleAcceptance(FORMAT(), MarkerLast());
    b := StaleRejection(FORMAT(), MarkerLast());
  }

  method IsLegal(data: array?<char>) returns (ok: bool)
    requires data != null ==> Terminated(data[..]) && SkipSafe(FORMAT(), data[..])
    ensures ok <==> data != null && LegalBuffer(FORMAT(), data[..])
  {
    if data == null {
      return false;
    }
    FilterFormat();
    ok := Check(data, FORMAT());
  }

  lemma LegalBufferFrom(f: Format, buf: seq<char>, p: nat)
    requires SkipSafe(f, buf) && Headed(f, CStr(buf)) && p == NoteAt(f, CStr(buf)) + f.note.skip
    ensures p <= |buf| && Terminated(buf[p..])
    ensures LegalBuffer(f, buf) <==> Greedy(CStr(buf[p..]), 0, f.marks)
  {
  }

  /** The checks in their order, with the texts of the format. */
  method Check(data: array<char>, f: Format) returns (ok: bool)
    requires Terminated(data[..]) && SkipSafe(f, data[..]) && |f.marks| == 5 && FormatOk(f) && |f.head| <= f.minSize
    ensures ok <==> LegalBuffer(f, data[..])
  {
    assert data[0..] == data[..];
    var n := Strlen(data, 0);
    if n < f.minSize {
      return false;
    }
    var same := StartsWith(data, f.head);
    if !same {
      return false;
    }
    var p := Search(data, 0, |f.head|, f.note.pat);
    if p < 0 {
      return false;
    }
    p := p + f.note.skip;
    LegalBufferFrom(f, data[..], p);
    assert data[p..] == data[..][p..];
    ok := Chain(data, p, f.marks);
  }

  /** strncmp with the whole head. */
  method StartsWith(data: array<char>, head: string) returns (same: bool)
    requires |head| <= Len(data[..])
    ensures same <==> head <= CStr(data[..])
  {
    same := Memcmp(data, 0, head);
    assert CStr(data[..])[..|head|] == data[0..|head|];
  }

  /** strstr from a cursor inside the string that starts at base. */
  method Search(data: array<char>, base: nat, at: nat, pat: string) returns (r: int)
    requires base <= data.Length && Terminated(data[base..])
    requires base <= at <= base + Len(data[base..])
    ensures var f := Find(CStr(data[base..]), pat, at - base); r == if f < 0 then -1 else base + f
    ensures 0 <= r ==> base <= r && r + |pat| <= base + Len(data[base..])
  {
    hide Find, Len;
    ghost var s := data[base..];
    assert data[at..] == s[at - base..];
    FindFromPointer(s, at - base, pat);
    CStrSuffix(s, at - base);
    r := Strstr(data, at, pat);
  }

  /** One search and the step over what was found. */
  method Advance(data: array<char>, base: nat, at: nat, mark: Mark, ghost marks: seq<Mark>) returns (p: int)
    requires base <= data.Length && Terminated(data[base..])
    requires base <= at <= base + Len(data[base..])
    requires mark.skip <= |mark.pat|
    ensures p < 0 ==> !Greedy(CStr(data[base..]), at - base, [mark] + marks)
    ensures 0 <= p ==> base <= p <= base + Len(data[base..])
    ensures 0 <= p ==> (Greedy(CStr(data[base..]), at - base, [mark] + marks) <==> Greedy(CStr(data[base..]), p - base, marks))
  {
    hide Find, Greedy, Len;
    ghost var text := CStr(data[base..]);
    ghost var f := Find(text, mark.pat, at - base);
    GreedyCons(text, at - base, mark, marks);
    p := Search(data, base, at, mark.pat);
    if p >= 0 {
      p := p + mark.skip;
      assert p - base == f + mark.skip;
    }
  }

  /** The remaining five searches. */
  method Chain(data: array<char>, at: nat, m: seq<Mark>) returns (ok: bool)
    requires at <= data.Length && Terminated(data[at..])
    requires |m| == 5 && forall i :: 0 <= i < 5 ==> m[i].skip <= |m[i].pat|
    ensures ok <==> Greedy(CStr(data[at..]), 0, m)
  {
    assert m == [m[0]] + m[1..] && m[1..] == [m[1]] + m[2..] && m[2..] == [m[2]] + m[3..];
    assert m[3..] == [m[3]] + m[4..] && m[4..] == [m[4]] + [];
    var p := Advance(data, at, at, m[0], m[1..]);
    if p < 0 {
      return false;
    }
    p := Advance(data, at, p, m[1], m[2..]);
    if p < 0 {
      return false;
    }
    p := Advance(data, at, p, m[2], m[3..]);
    if p < 0 {
      return false;
    }
    p := Advance(data, at, p, m[3], m[4..]);
    if p < 0 {
      return false;
    }
    p := Advance(data, at, p, m[4], []);
    ok := p >= 0;
  }
}
