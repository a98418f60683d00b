/** C strings as values: the text in front of the first NUL, leftmost occurrences, and the
    combinatorics of tags that let a parser look only at the '<' characters. */
module CText {

  const NUL: char := '\0'

  /** strlen: how many characters stand in front of the first NUL (all of them if there is none). */
  function Len(s: seq<char>): (n: nat)
    ensures n <= |s|
    ensures forall i :: 0 <= i < n ==> s[i] != NUL
    ensures n < |s| ==> s[n] == NUL
  {
    if s == [] || s[0] == NUL then 0 else 1 + Len(s[1..])
  }

  predicate Terminated(s: seq<char>) {
    NUL in s
  }

  /** The C string that starts at the head of a buffer. */
  function CStr(s: seq<char>): string {
    s[..Len(s)]
  }

  /** Every character is one byte. */
  predicate IsBytes(s: seq<char>) {
    forall i :: 0 <= i < |s| ==> s[i] as int < 256
  }

  /** A buffer that starts with a NUL-free text and then a NUL holds exactly that text. */
  lemma CStrIs(s: seq<char>, text: string)
    requires |text| < |s| && s[..|text|] == text && NUL !in text && s[|text|] == NUL
    ensures Len(s) == |text| && CStr(s) == text && Terminated(s)
  {
    forall i | 0 <= i < |text|
      ensures s[i] != NUL
    {
      assert s[i] == s[..|text|][i];
    }
  }

  lemma TerminatedLen(s: seq<char>)
    requires Terminated(s)
    ensures Len(s) < |s| && s[Len(s)] == NUL
  {
  }

  /** The string seen from a pointer moved forward inside it. */
  lemma CStrSuffix(s: seq<char>, at: nat)
    requires Terminated(s) && at <= Len(s)
    ensures Terminated(s[at..]) && Len(s[at..]) == Len(s) - at && CStr(s[at..]) == CStr(s)[at..]
  {
    TerminatedLen(s);
    var text := CStr(s)[at..];
    assert s[at..][..|text|] == text;
    CStrIs(s[at..], text);
  }

  predicate OccursAt(s: seq<char>, pat: seq<char>, i: int) {
    0 <= i && i + |pat| <= |s| && s[i..i + |pat|] == pat
  }

  /** strstr and Python's find, from an offset on. */
  function Find(s: seq<char>, pat: seq<char>, from: nat): (r: int)
    ensures r < 0 ==> r == -1
    ensures 0 <= r ==> from <= r && r + |pat| <= |s|
    decreases |s| - from
  {
    if from > |s| then -1
    else if OccursAt(s, pat, from) then from
    else Find(s, pat, from + 1)
  }

  /** What is found is the leftmost occurrence at or after the offset; if nothing is found there is
      none. */
  lemma {:induction false} FindFacts(s: seq<char>, pat: seq<char>, from: nat)
    ensures var r := Find(s, pat, from);
            && (r < 0 ==> forall i :: from <= i ==> !OccursAt(s, pat, i))
            && (0 <= r ==> OccursAt(s, pat, r) && forall i :: from <= i < r ==> !OccursAt(s, pat, i))
    decreases |s| - from
  {
    if from <= |s| && !OccursAt(s, pat, from) {
      FindFacts(s, pat, from + 1);
    }
  }

  lemma {:induction false} FindIs(s: seq<char>, pat: seq<char>, from: nat, r: nat)
    requires from <= r && OccursAt(s, pat, r)
    requires forall i :: from <= i < r ==> !OccursAt(s, pat, i)
    ensures Find(s, pat, from) == r
    decreases r - from
  {
    if from < r {
      FindIs(s, pat, from + 1, r);
    }
  }

  lemma FindNone(s: seq<char>, pat: seq<char>, from: nat)
    requires forall i :: from <= i ==> !OccursAt(s, pat, i)
    ensures Find(s, pat, from) == -1
  {
    FindFacts(s, pat, from);
  }

  /** An occurrence bounds the leftmost one. */
  lemma FindAtMost(s: seq<char>, pat: seq<char>, from: nat, i: nat)
    requires from <= i && OccursAt(s, pat, i)
    ensures 0 <= Find(s, pat, from) <= i
  {
    FindFacts(s, pat, from);
  }

  /** Dropping a prefix moves every occurrence behind it by the length of the prefix. */
  lemma OccursShift(a: seq<char>, b: seq<char>, pat: seq<char>, i: int)
    requires |a| <= i
    ensures OccursAt(a + b, pat, i) <==> OccursAt(b, pat, i - |a|)
  {
    if i + |pat| <= |a + b| {
      assert (a + b)[i..i + |pat|] == b[i - |a|..i - |a| + |pat|];
    }
  }

  lemma FindShift(a: seq<char>, b: seq<char>, pat: seq<char>, from: nat)
    requires |a| <= from
    ensures Find(a + b, pat, from) == (var f := Find(b, pat, from - |a|); if f < 0 then -1 else |a| + f)
  {
    var f := Find(b, pat, from - |a|);
    FindFacts(b, pat, from - |a|);
    forall i | from <= i
      ensures OccursAt(a + b, pat, i) <==> OccursAt(b, pat, i - |a|)
    {
      OccursShift(a, b, pat, i);
    }
    if 0 <= f {
      FindIs(a + b, pat, from, |a| + f);
    } else {
      FindNone(a + b, pat, from);
    }
  }

  /** A prefix in which no occurrence starts only moves the leftmost one. */
  lemma FindSkip(a: seq<char>, b: seq<char>, pat: seq<char>)
    requires forall i :: 0 <= i < |a| ==> !OccursAt(a + b, pat, i)
    ensures Find(a + b, pat, 0) == (var f := Find(b, pat, 0); if f < 0 then -1 else |a| + f)
  {
    FindShift(a, b, pat, |a|);
    var f := Find(a + b, pat, |a|);
    FindFacts(a + b, pat, |a|);
    if 0 <= f {
      FindIs(a + b, pat, 0, f);
    } else {
      FindNone(a + b, pat, 0);
    }
  }

  /** Searching from an offset is searching the rest of the text. */
  lemma FindFrom(s: seq<char>, from: nat, pat: seq<char>, at: nat)
    requires from <= |s|
    ensures Find(s, pat, from + at) == (var f := Find(s[from..], pat, at); if f < 0 then -1 else from + f)
  {
    assert s == s[..from] + s[from..];
    FindShift(s[..from], s[from..], pat, from + at);
  }

  /** Searching from a pointer into a string is searching the string from that offset. */
  lemma FindFromPointer(s: seq<char>, at: nat, pat: seq<char>)
    requires Terminated(s) && at <= Len(s)
    ensures Terminated(s[at..])
    ensures Find(CStr(s), pat, at) == (var f := Find(CStr(s[at..]), pat, 0); if f < 0 then -1 else at + f)
  {
    CStrSuffix(s, at);
    FindFrom(CStr(s), at, pat, 0);
  }

  lemma SliceShift(a: seq<char>, b: seq<char>, lo: nat, hi: nat)
    requires lo <= hi <= |b|
    ensures (a + b)[|a| + lo..|a| + hi] == b[lo..hi]
  {
  }

  lemma Assoc4(a: seq<char>, b: seq<char>, c: seq<char>, d: seq<char>)
    ensures (a + b + c) + d == a + (b + (c + d))
  {
    assert (a + b + c) + d == (a + b) + (c + d);
  }

  /** What follows cannot be the inside of the pattern: its first character does not occur there. */
  predicate Boundary(pat: seq<char>, b: seq<char>) {
    b == [] || b[0] !in pat[if |pat| == 0 then 0 else 1..]
  }

  /** No occurrence straddles a boundary. */
  lemma NoStraddle(a: seq<char>, b: seq<char>, pat: seq<char>, i: int)
    requires |pat| > 0 && Boundary(pat, b) && i < |a|
    ensures OccursAt(a + b, pat, i) <==> OccursAt(a, pat, i)
  {
    if 0 <= i && i + |pat| <= |a + b| {
      if |a| < i + |pat| {
        var window := (a + b)[i..i + |pat|];
        assert window[|a| - i] == b[0];
        assert pat[1..][|a| - i - 1] == pat[|a| - i];
      } else {
        assert (a + b)[i..i + |pat|] == a[i..i + |pat|];
      }
    }
  }

  /** Leftmost occurrences inside a prefix are not affected by what follows the boundary. */
  lemma FindPrefix(a: seq<char>, b: seq<char>, pat: seq<char>, from: nat)
    requires |pat| > 0 && Boundary(pat, b)
    ensures 0 <= Find(a, pat, from) ==> Find(a + b, pat, from) == Find(a, pat, from)
    ensures Find(a, pat, from) < 0 ==> forall i :: from <= i < |a| ==> !OccursAt(a + b, pat, i)
  {
    forall i | i < |a|
      ensures OccursAt(a + b, pat, i) <==> OccursAt(a, pat, i)
    {
      NoStraddle(a, b, pat, i);
    }
    FindFacts(a, pat, from);
    var f := Find(a, pat, from);
    if 0 <= f {
      FindIs(a + b, pat, from, f);
    }
  }
}
