/** The C string routines that the filter calls, as loops over character arrays. */
module CLib {
  import opened CText

  method Strlen(s: array<char>, at: nat) returns (n: nat)
    requires at <= s.Length && Terminated(s[at..])
    ensures n == Len(s[at..])
  {
    TerminatedLen(s[at..]);
    n := 0;
    while s[at + n] != NUL
      invariant n <= Len(s[at..])
      decreases Len(s[at..]) - n
    {
      assert s[at..][n] != NUL;
      n := n + 1;
    }
    assert s[at..][n] == NUL;
  }

  method Memcmp(s: array<char>, at: nat, pat: string) returns (same: bool)
    requires at + |pat| <= s.Length
    ensures same <==> s[at..at + |pat|] == pat
  {
    for i := 0 to |pat|
      invariant s[at..at + i] == pat[..i]
    {
      if s[at + i] != pat[i] {
        assert s[at..at + |pat|][i] != pat[i];
        return false;
      }
    }
    assert pat[..|pat|] == pat;
    return true;
  }

  /** Scans from the left for as long as the rest of the text is at least as long as the pattern. */
  method Strstr(s: array<char>, at: nat, pat: string) returns (r: int)
    requires at <= s.Length && Terminated(s[at..])
    ensures var f := Find(CStr(s[at..]), pat, 0); r == if f < 0 then -1 else at + f
    ensures 0 <= r ==> r + |pat| <= at + Len(s[at..])
  {
    hide Find;
    var text := CStr(s[at..]);
    var n := Strlen(s, at);
    var i := 0;
    while i + |pat| <= n
      invariant forall j :: 0 <= j < i ==> !OccursAt(text, pat, j)
      decreases n - i
    {
      assert text[i..i + |pat|] == s[at..][i..i + |pat|] == s[at + i..at + i + |pat|];
      var same := Memcmp(s, at + i, pat);
      if same {
        FindIs(text, pat, 0, i);
        return at + i;
      }
      i := i + 1;
    }
    FindNone(text, pat, 0);
    return -1;
  }

  /** Writes s and a terminator at an offset; strcpy and strcat are this at 0 and at the old end. */
  method PutZ(dest: array<char>, at: nat, s: string)
    requires at + |s| < dest.Length
    modifies dest
    ensures dest[..] == old(dest[..at]) + s + [NUL] + old(dest[at + |s| + 1..])
  {
    for i := 0 to |s|
      invariant dest[..at] == old(dest[..at])
      invariant dest[at..at + i] == s[..i]
      invariant dest[at + i..] == old(dest[at + i..])
    {
      dest[at + i] := s[i];
    }
    assert s[..|s|] == s;
    dest[at + |s|] := NUL;
    assert dest[..at + |s|] == dest[..at] + dest[at..at + |s|];
    assert dest[at + |s| + 1..] == old(dest[at + |s|..])[1..];
  }

  method Strcpy(dest: array<char>, s: string)
    requires |s| < dest.Length && NUL !in s
    modifies dest
    ensures CStr(dest[..]) == s && Terminated(dest[..])
    ensures dest[..] == s + [NUL] + old(dest[|s| + 1..])
  {
    PutZ(dest, 0, s);
    CStrIs(dest[..], s);
  }

  method Strcat(dest: array<char>, s: string)
    requires Terminated(dest[..]) && NUL !in s
    requires Len(dest[..]) + |s| < dest.Length
    modifies dest
    ensures CStr(dest[..]) == old(CStr(dest[..])) + s && Terminated(dest[..])
    ensures dest[..] == old(CStr(dest[..])) + s + [NUL] + old(dest[Len(dest[..]) + |s| + 1..])
  {
    assert dest[0..] == dest[..];
    var n := Strlen(dest, 0);
    PutZ(dest, n, s);
    CStrIs(dest[..], old(CStr(dest[..])) + s);
  }

  /** What strncpy stores in n cells: the string, cut to n characters or padded with NULs. */
  function Padded(s: seq<char>, n: nat): (cells: seq<char>)
    requires n <= |s| || Terminated(s)
    ensures |cells| == n
    ensures forall i :: 0 <= i < n ==> cells[i] == if i < Len(s) then s[i] else NUL
  {
    var m := if Len(s) < n then Len(s) else n;
    s[..m] + seq(n - m, _ => NUL)
  }

  method Strncpy(dest: array<char>, src: array<char>, at: nat, n: nat)
    requires dest != src && n <= dest.Length && at <= src.Length
    requires at + n <= src.Length || Terminated(src[at..])
    modifies dest
    ensures dest[..] == Padded(src[at..], n) + old(dest[n..])
  {
    ghost var s := src[at..];
    var ended := false;
    for i := 0 to n
      invariant ended <==> Len(s) < i
      invariant forall j :: 0 <= j < i ==> dest[j] == if j < Len(s) then s[j] else NUL
      invariant dest[i..] == old(dest[i..])
    {
      if !ended {
        if Terminated(s) {
          TerminatedLen(s);
        }
        assert src[at + i] == s[i];
        dest[i] := src[at + i];
        ended := src[at + i] == NUL;
      } else {
        dest[i] := NUL;
      }
    }
    assert dest[..n] == Padded(s, n);
    assert dest[..] == dest[..n] + dest[n..];
  }

  /** strcmp against a literal, read only for "equal or not". */
  method StrEq(s: array<char>, at: nat, t: string) returns (same: bool)
    requires at <= s.Length && Terminated(s[at..]) && NUL !in t
    ensures same <==> CStr(s[at..]) == t
  {
    ghost var str := s[at..];
    TerminatedLen(str);
    for i := 0 to |t|
      invariant i <= Len(str) && str[..i] == t[..i]
    {
      assert s[at + i] == str[i];
      if s[at + i] != t[i] {
        return false;
      }
    }
    assert t[..|t|] == t;
    assert s[at + |t|] == str[|t|];
    same := s[at + |t|] == NUL;
  }
}
