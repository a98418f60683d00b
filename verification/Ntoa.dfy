/** The dotted-decimal printer and the decoder that inverts it. */
module Ntoa {
  import opened CText
  import opened CLib
  import opened Wrappers

  type octet = n: nat | n < 256

  /** The four bytes of a 32-bit address in memory order. */
  datatype Addr = Addr(a: octet, b: octet, c: octet, d: octet)

  function Digit(d: nat): (c: char)
    requires d < 10
    ensures '0' <= c <= '9'
  {
    '0' + d as char
  }

  /** Decimal notation, as sprintf's %d prints a number that is not negative. */
  function Decimal(n: nat): (s: string)
    ensures s != "" && forall i :: 0 <= i < |s| ==> '0' <= s[i] <= '9'
  {
    if n < 10 then [Digit(n)] else Decimal(n / 10) + [Digit(n % 10)]
  }

  predicate AllDigits(s: string) {
    s != "" && forall i :: 0 <= i < |s| ==> '0' <= s[i] <= '9'
  }

  function Value(s: string): nat
    requires forall i :: 0 <= i < |s| ==> '0' <= s[i] <= '9'
  {
    if s == "" then 0 else 10 * Value(s[..|s| - 1]) + (s[|s| - 1] - '0') as nat
  }

  lemma {:induction false} DecimalInverse(n: nat)
    ensures Value(Decimal(n)) == n
  {
    if n < 10 {
      assert Decimal(n)[..0] == "";
    } else {
      DecimalInverse(n / 10);
      assert Decimal(n)[..|Decimal(n)| - 1] == Decimal(n / 10);
    }
  }

  /** No leading zero, and as many digits as the number needs. */
  lemma {:induction false} DecimalShape(n: nat)
    ensures Decimal(n)[0] == '0' ==> n == 0
    ensures n < 10 <==> |Decimal(n)| == 1
    ensures n < 100 <==> |Decimal(n)| <= 2
    ensures n < 1000 <==> |Decimal(n)| <= 3
  {
    if n >= 10 {
      DecimalShape(n / 10);
    }
  }

  function NtoaText(addr: Addr): string {
    "\"" + (Decimal(addr.a) + "." + (Decimal(addr.b) + "." + (Decimal(addr.c) + "." + Decimal(addr.d)))) + "\""
  }

  function Split(s: string): (parts: seq<string>)
    ensures |parts| >= 1
    decreases |s|
  {
    var i := Find(s, ".", 0);
    if i < 0 then [s] else [s[..i]] + Split(s[i + 1..])
  }

  function DecodeOctet(s: string): Option<octet> {
    if AllDigits(s) && Value(s) < 256 then Some(Value(s)) else None
  }

  /** Strips the quotes, splits at the dots and reads four decimal numbers. */
  function DecodeAddr(s: string): Option<Addr> {
    if |s| < 2 || s[0] != '"' || s[|s| - 1] != '"' then None
    else
      var parts := Split(s[1..|s| - 1]);
      if |parts| != 4 then None
      else
        match (DecodeOctet(parts[0]), DecodeOctet(parts[1]), DecodeOctet(parts[2]), DecodeOctet(parts[3]))
        case (Some(a), Some(b), Some(c), Some(d)) => Some(Addr(a, b, c, d))
        case _ => None
  }

  lemma SplitFirst(first: string, rest: string)
    requires '.' !in first
    ensures Split(first + "." + rest) == [first] + Split(rest)
  {
    var s := first + "." + rest;
    forall i | 0 <= i < |first|
      ensures !OccursAt(s, ".", i)
    {
      assert s[i..i + 1][0] == first[i];
    }
    assert s[|first|..|first| + 1] == ".";
    FindIs(s, ".", 0, |first|);
    assert s[..|first|] == first && s[|first| + 1..] == rest;
  }

  lemma SplitLast(s: string)
    requires '.' !in s
    ensures Split(s) == [s]
  {
    forall i | 0 <= i
      ensures !OccursAt(s, ".", i)
    {
      if i + 1 <= |s| {
        assert s[i..i + 1][0] == s[i];
      }
    }
    FindNone(s, ".", 0);
  }

  lemma OctetInverse(n: octet)
    ensures '.' !in Decimal(n) && NUL !in Decimal(n) && |Decimal(n)| <= 3
    ensures DecodeOctet(Decimal(n)) == Some(n)
  {
    DecimalInverse(n);
    DecimalShape(n);
  }

  lemma SplitFour(a: string, b: string, c: string, d: string)
    requires '.' !in a && '.' !in b && '.' !in c && '.' !in d
    ensures Split(a + "." + (b + "." + (c + "." + d))) == [a, b, c, d]
  {
    hide Split;
    SplitLast(d);
    SplitFirst(c, d);
    SplitFirst(b, c + "." + d);
    SplitFirst(a, b + "." + (c + "." + d));
  }

  lemma Unquoted(text: string)
    ensures var s := "\"" + text + "\"";
            |s| >= 2 && s[0] == '"' && s[|s| - 1] == '"' && s[1..|s| - 1] == text
  {
  }

  /** Decoding inverts printing for every address. */
  lemma NtoaInverse(addr: Addr)
    ensures DecodeAddr(NtoaText(addr)) == Some(addr)
  {
    hide Split, Decimal, DecodeOctet;
    var a, b, c, d := Decimal(addr.a), Decimal(addr.b), Decimal(addr.c), Decimal(addr.d);
    OctetInverse(addr.a);
    OctetInverse(addr.b);
    OctetInverse(addr.c);
    OctetInverse(addr.d);
    SplitFour(a, b, c, d);
    Unquoted(a + "." + (b + "." + (c + "." + d)));
  }

  lemma NtoaInjective(x: Addr, y: Addr)
    requires NtoaText(x) == NtoaText(y)
    ensures x == y
  {
    NtoaInverse(x);
    NtoaInverse(y);
  }

  /** The decimal digits of a byte, highest first. */
  lemma OctetDigits(n: octet)
    ensures var digits := "0123456789";
            Decimal(n) == if n < 10 then [digits[n]]
                          else if n < 100 then [digits[n / 10], digits[n % 10]]
                          else [digits[n / 100], digits[n / 10 % 10], digits[n % 10]]
  {
    DigitIs(n % 10);
    DigitIs(n / 10 % 10);
    DigitIs(n / 100);
    if n >= 100 {
      assert n / 10 / 10 == n / 100;
      assert Decimal(n / 10) == [Digit(n / 100), Digit(n / 10 % 10)];
    }
  }

  lemma DigitIs(d: nat)
    requires d < 10
    ensures Digit(d) == "0123456789"[d]
  {
  }

  /** The four bytes in their order between dots, inside quotes. */
  lemma NtoaParts(addr: Addr)
    ensures NtoaText(addr) == ['"'] + Decimal(addr.a) + "." + Decimal(addr.b) + "." + Decimal(addr.c) + "." + Decimal(addr.d) + ['"']
  {
    hide Decimal;
    var a, b, c, d := Decimal(addr.a), Decimal(addr.b), Decimal(addr.c), Decimal(addr.d);
    assert "\"" + a + "." + b + "." + c + "." + d + "\"" == "\"" + (a + "." + (b + "." + (c + "." + d))) + "\"";
  }

  /** Digits, dots and quotes only, and at most 18 bytes with the terminator. */
  lemma NtoaShape(addr: Addr)
    ensures |NtoaText(addr)| + 1 <= 18
    ensures forall i :: 0 <= i < |NtoaText(addr)| ==>
              var ch := NtoaText(addr)[i]; '0' <= ch <= '9' || ch == '.' || ch == '"'
  {
    OctetInverse(addr.a);
    OctetInverse(addr.b);
    OctetInverse(addr.c);
    OctetInverse(addr.d);
  }

  /** char2string: prints one byte by the number of its digits. */
  method Char2String(str: array<char>, c: octet)
    requires 4 <= str.Length
    modifies str
    ensures CStr(str[..]) == Decimal(c) && Terminated(str[..])
  {
    var num: nat := c;
    if num >= 100 {
      str[0] := Digit(num / 100);
      num := num % 100;
      str[1] := Digit(num / 10);
      num := num % 10;
      str[2] := Digit(num);
      str[3] := NUL;
      assert c / 10 / 10 == c / 100 && c / 10 % 10 == c % 100 / 10 && c % 10 == c % 100 % 10;
      assert Decimal(c / 10) == [Digit(c / 100), Digit(c / 10 % 10)];
      assert str[..3] == Decimal(c);
    } else if num >= 10 {
      str[0] := Digit(num / 10);
      num := num % 10;
      str[1] := Digit(num);
      str[2] := NUL;
      assert str[..2] == Decimal(c);
    } else {
      str[0] := Digit(num);
      str[1] := NUL;
      assert str[..1] == Decimal(c);
    }
    CStrIs(str[..], Decimal(c));
  }

  /** in_ntoa: three bytes followed by dots, the last one by the closing quote. */
  method InNtoa(sip: array<char>, addr: Addr)
    requires 18 <= sip.Length
    modifies sip
    ensures CStr(sip[..]) == NtoaText(addr) && Terminated(sip[..])
  {
    hide Decimal, Terminated, Len, CStr;
    var p := [addr.a, addr.b, addr.c, addr.d];
    var str := new char[10](_ => NUL);
    Strcpy(sip, "\"");
    for i := 0 to 3
      invariant Terminated(sip[..]) && CStr(sip[..]) == "\"" + Dotted(p, i)
      invariant |Dotted(p, i)| <= 4 * i
    {
      AppendOctet(sip, str, p[i], ".");
    }
    AppendOctet(sip, str, p[3], "\"");
    DottedThree(addr);
  }

  /** strcat(sip, char2string(str, c)); strcat(sip, tail) */
  method AppendOctet(sip: array<char>, str: array<char>, c: octet, tail: string)
    requires sip != str && 4 <= str.Length && Terminated(sip[..])
    requires |CStr(sip[..])| + 4 < sip.Length && |tail| == 1 && NUL !in tail
    modifies sip, str
    ensures CStr(sip[..]) == old(CStr(sip[..])) + Decimal(c) + tail && Terminated(sip[..])
    ensures |Decimal(c)| <= 3
  {
    OctetInverse(c);
    Char2String(str, c);
    AppendBuffer(sip, str);
    Strcat(sip, tail);
  }

  /** strcat with the source in a buffer. */
  method AppendBuffer(dest: array<char>, src: array<char>)
    requires dest != src && Terminated(dest[..]) && Terminated(src[..])
    requires Len(dest[..]) + Len(src[..]) < dest.Length
    modifies dest
    ensures CStr(dest[..]) == old(CStr(dest[..])) + CStr(src[..]) && Terminated(dest[..])
  {
    assert src[0..] == src[..];
    var n := Strlen(src, 0);
    Strcat(dest, src[..n]);
  }

  /** The first n numbers, each followed by a dot. */
  function Dotted(p: seq<octet>, n: nat): string
    requires n <= |p|
  {
    if n == 0 then "" else Dotted(p, n - 1) + Decimal(p[n - 1]) + "."
  }

  lemma DottedThree(addr: Addr)
    ensures "\"" + Dotted([addr.a, addr.b, addr.c, addr.d], 3) + Decimal(addr.d) + "\"" == NtoaText(addr)
  {
    hide Decimal;
    var p := [addr.a, addr.b, addr.c, addr.d];
    assert Dotted(p, 1) == Decimal(addr.a) + ".";
    assert Dotted(p, 2) == Dotted(p, 1) + Decimal(addr.b) + ".";
  }
}
