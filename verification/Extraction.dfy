/** What the tag extractor computes: the text enclosed by the leftmost open tag and the leftmost
    close tag behind it, and how that text lands in a destination buffer. */
module Extraction {
  import opened CText

  const CONTENTMAXLEN: nat := 100

  function Open(name: string): (tag: string) {
    "<" + name + ">"
  }

  function Close(name: string): (tag: string) {
    "</" + name + ">"
  }

  /** The guard in front of the scratch buffer. */
  predicate NameAdmitted(name: string) {
    |name| + 3 <= CONTENTMAXLEN
  }

  /** Both tags, each with its terminator, fit the scratch buffer. */
  predicate TagsFit(name: string) {
    |Open(name)| + 1 <= CONTENTMAXLEN && |Close(name)| + 1 <= CONTENTMAXLEN
  }

  /** The guard admits exactly one length for which the close tag does not fit. */
  lemma GuardAdmitsOneTooMany(name: string)
    ensures (NameAdmitted(name) ==> TagsFit(name)) <==> |name| != 97
    ensures |name| == 97 ==> NameAdmitted(name) && |Close(name)| + 1 == CONTENTMAXLEN + 1
    ensures (NameAdmitted(name) <==> |name| <= 97) && (TagsFit(name) <==> |name| <= 96)
  {
    assert |Open(name)| == |name| + 2 && |Close(name)| == |name| + 3;
  }

  /** The pointer moved on by minlen is still inside the string. */
  predicate MinlenInside(text: string, name: string, minlen: nat) {
    var o := Find(text, Open(name), 0);
    o < 0 || o + |Open(name)| + minlen <= |text|
  }

  /** The text between two tags, for any two tags. */
  function Between(text: string, open: string, close: string, minlen: nat): (c: string)
    requires var o := Find(text, open, 0); o < 0 || o + |open| + minlen <= |text|
    ensures |c| <= |text|
  {
    var o := Find(text, open, 0);
    if o < 0 then ""
    else
      var start := o + |open|;
      var end := Find(text, close, start + minlen);
      if end < 0 then "" else text[start..end]
  }

  /** The enclosed text; empty when a tag is missing or nothing is enclosed. */
  function Content(text: string, name: string, minlen: nat): (c: string)
    requires MinlenInside(text, name, minlen)
    ensures |c| <= |text|
  {
    Between(text, Open(name), Close(name), minlen)
  }

  function Extracted(text: string, name: string, minlen: nat): (c: string)
    requires MinlenInside(text, name, minlen)
    ensures |c| <= |text|
  {
    if NameAdmitted(name) then Content(text, name, minlen) else ""
  }

  /** The two positions that a search yields determine the content. */
  lemma ContentLocated(text: string, name: string, minlen: nat, o: nat, end: int)
    requires Find(text, Open(name), 0) == o && MinlenInside(text, name, minlen)
    requires Find(text, Close(name), o + |Open(name)| + minlen) == end
    ensures 0 <= end ==> o + |Open(name)| <= end <= |text|
    ensures Content(text, name, minlen) == if end < 0 then "" else text[o + |Open(name)|..end]
  {
    BetweenLocated(text, Open(name), Close(name), minlen, o, end);
  }

  lemma BetweenLocated(text: string, open: string, close: string, minlen: nat, o: nat, end: int)
    requires Find(text, open, 0) == o && o + |open| + minlen <= |text|
    requires Find(text, close, o + |open| + minlen) == end
    ensures 0 <= end ==> o + |open| <= end <= |text|
    ensures Between(text, open, close, minlen) == if end < 0 then "" else text[o + |open|..end]
  {
    hide Find;
  }

  lemma ExtractedNulFree(text: string, name: string, minlen: nat)
    requires MinlenInside(text, name, minlen) && NUL !in text
    ensures NUL !in Extracted(text, name, minlen)
  {
  }

  /** The open tag at o is the first one, c and the close tag follow it, and no earlier close tag
      stands at distance minlen or more. */
  ghost predicate EnclosesAt(text: string, name: string, minlen: nat, c: string, o: nat) {
    var start := o + |Open(name)|;
    && OccursAt(text, Open(name), o)
    && (forall i :: 0 <= i < o ==> !OccursAt(text, Open(name), i))
    && OccursAt(text, c, start)
    && OccursAt(text, Close(name), start + |c|)
    && minlen <= |c|
    && (forall i :: start + minlen <= i < start + |c| ==> !OccursAt(text, Close(name), i))
  }

  ghost predicate Encloses(text: string, name: string, minlen: nat, c: string) {
    exists o: nat :: EnclosesAt(text, name, minlen, c, o)
  }

  lemma EnclosesAtContent(text: string, name: string, minlen: nat, c: string, o: nat)
    requires EnclosesAt(text, name, minlen, c, o)
    ensures MinlenInside(text, name, minlen) && Content(text, name, minlen) == c
  {
    hide Find;
    FindIs(text, Open(name), 0, o);
    var start := o + |Open(name)|;
    FindIs(text, Close(name), start + minlen, start + |c|);
  }

  /** Content is the enclosed text, for every text: both directions. */
  lemma ContentIsEnclosed(text: string, name: string, minlen: nat, c: string)
    requires MinlenInside(text, name, minlen) && c != ""
    ensures Content(text, name, minlen) == c <==> Encloses(text, name, minlen, c)
  {
    hide Find;
    if Content(text, name, minlen) == c {
      var o := Find(text, Open(name), 0);
      FindFacts(text, Open(name), 0);
      FindFacts(text, Close(name), o + |Open(name)| + minlen);
      assert OccursAt(text, c, o + |Open(name)|);
      assert EnclosesAt(text, name, minlen, c, o);
    }
    if Encloses(text, name, minlen, c) {
      var o: nat :| EnclosesAt(text, name, minlen, c, o);
      EnclosesAtContent(text, name, minlen, c, o);
    }
  }

  /** With the guard: a non-empty text is extracted exactly when the name has at most 97 characters and the
      text stands between the tags. */
  lemma ExtractedExact(text: string, name: string, minlen: nat, c: string)
    requires MinlenInside(text, name, minlen) && c != ""
    ensures Extracted(text, name, minlen) == c <==> |name| <= 97 && Encloses(text, name, minlen, c)
  {
    hide Find, Encloses;
    ContentIsEnclosed(text, name, minlen, c);
  }

  /** minlen moves the search for the close tag, not the start of the content. */
  lemma MinlenMovesTheEnd()
    ensures Content("<a>x</a>y</a>", "a", 0) == "x" && Content("<a>x</a>y</a>", "a", 2) == "x</a>y"
  {
    var text := "<a>x</a>y</a>";
    assert Open("a") == "<a>" && Close("a") == "</a>";
    assert OccursAt(text, "<a>", 0) && OccursAt(text, "</a>", 4) && OccursAt(text, "</a>", 9);
    hide Find;
    FindIs(text, "<a>", 0, 0);
    assert !OccursAt(text, "</a>", 3) by { assert text[3] == 'x'; }
    FindIs(text, "</a>", 3, 4);
    forall i | 5 <= i < 9
      ensures !OccursAt(text, "</a>", i)
    {
      assert text[i] != '<';
      assert i + 4 <= |text| ==> text[i..i + 4][0] == text[i];
    }
    FindIs(text, "</a>", 5, 9);
    assert text[3..4] == "x" && text[3..9] == "x</a>y";
    ContentLocated(text, "a", 0, 0, 4);
    ContentLocated(text, "a", 2, 0, 9);
  }

  /** What a call leaves in the destination: the first min(|c|, maxlen - 1) cells are written, the
      terminator goes to cell |c| even when the text was cut, every other cell is kept. */
  function Stored(old_: seq<char>, c: string, maxlen: nat): (cells: seq<char>)
    requires |c| < |old_| && 1 <= maxlen
    ensures |cells| == |old_|
  {
    var n := if |c| < maxlen then |c| else maxlen - 1;
    c[..n] + old_[n..|c|] + [NUL] + old_[|c| + 1..]
  }

  /** A copy of the first characters and one more write give the stored cells. */
  lemma CopyThenTerminate(old_: seq<char>, c: string, maxlen: nat, n: nat)
    requires |c| < |old_| && 1 <= maxlen && n == if |c| < maxlen then |c| else maxlen - 1
    ensures (c[..n] + old_[n..])[|c| := NUL] == Stored(old_, c, maxlen)
  {
  }

  /** Cell by cell: nothing but the characters in front of the cut and one terminator is written. */
  lemma StoredCells(old_: seq<char>, c: string, maxlen: nat, i: nat)
    requires |c| < |old_| && 1 <= maxlen && i < |old_|
    ensures Stored(old_, c, maxlen)[i] ==
            if i < |c| && i + 1 < maxlen then c[i] else if i == |c| then NUL else old_[i]
  {
  }

  /** Reading the destination back, exactly: the text when it was short enough, otherwise the cut
      text followed by whatever stale characters stand between the cut and the terminator. */
  lemma StoredReadsBack(old_: seq<char>, c: string, maxlen: nat)
    requires |c| < |old_| && 1 <= maxlen && NUL !in c
    ensures Terminated(Stored(old_, c, maxlen))
    ensures CStr(Stored(old_, c, maxlen)) ==
            if |c| < maxlen then c else c[..maxlen - 1] + CStr(old_[maxlen - 1..|c|])
  {
    var cells := Stored(old_, c, maxlen);
    assert cells[|c|] == NUL;
    if |c| < maxlen {
      CStrIs(cells, c);
    } else {
      var stale := old_[maxlen - 1..|c|];
      var seen := c[..maxlen - 1] + CStr(stale);
      assert cells[..|seen|] == seen;
      CStrIs(cells, seen);
    }
  }

  /** The cut works, as seen by a reader, exactly when nothing had to be cut or the cell at the cut was
      already NUL. */
  lemma CutReadsBack(old_: seq<char>, c: string, maxlen: nat)
    requires |c| < |old_| && 1 <= maxlen && NUL !in c
    ensures CStr(Stored(old_, c, maxlen)) == (if |c| < maxlen then c else c[..maxlen - 1])
            <==> |c| < maxlen || old_[maxlen - 1] == NUL
  {
    StoredReadsBack(old_, c, maxlen);
    if maxlen <= |c| {
      var stale := old_[maxlen - 1..|c|];
      assert stale[0] == old_[maxlen - 1];
    }
  }

  /** A destination that was in use, and a text of four that is not cut to two. */
  lemma StaleCharacterFollowsCut()
    ensures CStr(Stored("xyz" + [NUL, NUL], "abcd", 3)) == "abz"
  {
    var old_ := "xyz" + [NUL, NUL];
    StoredReadsBack(old_, "abcd", 3);
    assert old_[2..4] == ['z', NUL];
    CStrIs(old_[2..4], "z");
  }

  /** Comparing the destination with a literal shorter than the cut compares the enclosed text
      itself, whatever the destination held before: the stale cells behind the cut cannot matter. */
  lemma StaleCellsDoNotMatter(old_: seq<char>, c: string, maxlen: nat, literal: string)
    requires |c| < |old_| && NUL !in c && |literal| + 1 < maxlen
    ensures CStr(Stored(old_, c, maxlen)) == literal <==> c == literal
  {
    StoredReadsBack(old_, c, maxlen);
  }
}
