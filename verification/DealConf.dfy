/** The configuration parser: one scratch buffer and eight result buffers, all overwritten in place. */
module DealConf {
  import opened CText
  import opened CLib
  import opened Extraction

  datatype Fields = Fields(
    direction: string, contentFlag: string, content: string, sourceip: string,
    targetip: string, action: string, titlecontent: string, isapi: string)

  /** The eight texts enclosed by the eight keys. */
  function ParsedFields(text: string): Fields {
    Fields(Content(text, "direction", 0), Content(text, "content_flag", 0), Content(text, "content", 0),
           Content(text, "sourceip", 0), Content(text, "targetip", 0), Content(text, "action", 0),
           Content(text, "titlecontent", 0), Content(text, "isapi", 0))
  }

  /** Every value leaves room for its terminator in a result buffer. */
  predicate AllShort(f: Fields) {
    && |f.direction| < CONTENTMAXLEN && |f.contentFlag| < CONTENTMAXLEN && |f.content| < CONTENTMAXLEN
    && |f.sourceip| < CONTENTMAXLEN && |f.targetip| < CONTENTMAXLEN && |f.action| < CONTENTMAXLEN
    && |f.titlecontent| < CONTENTMAXLEN && |f.isapi| < CONTENTMAXLEN
  }

  class DealConf {
    const newcontent: array<char>
    const direction: array<char>
    const titlecontent: array<char>
    const contentFlag: array<char>
    const isapi: array<char>
    const content: array<char>
    const action: array<char>
    const sourceip: array<char>
    const targetip: array<char>

    /** Nine buffers of 100 characters, no two of them the same. */
    ghost predicate Valid() {
      && newcontent.Length == direction.Length == contentFlag.Length == content.Length == sourceip.Length
         == targetip.Length == action.Length == titlecontent.Length == isapi.Length == CONTENTMAXLEN
      && direction !in {newcontent}
      && contentFlag !in {newcontent, direction}
      && content !in {newcontent, direction, contentFlag}
      && sourceip !in {newcontent, direction, contentFlag, content}
      && targetip !in {newcontent, direction, contentFlag, content, sourceip}
      && action !in {newcontent, direction, contentFlag, content, sourceip, targetip}
      && titlecontent !in {newcontent, direction, contentFlag, content, sourceip, targetip, action}
      && isapi !in {newcontent, direction, contentFlag, content, sourceip, targetip, action, titlecontent}
    }

    ghost function Buffers(): set<array<char>> {
      {newcontent, direction, contentFlag, content, sourceip, targetip, action, titlecontent, isapi}
    }

    constructor ()
      ensures Valid() && fresh(Buffers())
      ensures forall b :: b in Buffers() ==> b.Length == 100
    {
      newcontent := new char[CONTENTMAXLEN](_ => NUL);
      direction := new char[CONTENTMAXLEN](_ => NUL);
      titlecontent := new char[CONTENTMAXLEN](_ => NUL);
      contentFlag := new char[CONTENTMAXLEN](_ => NUL);
      isapi := new char[CONTENTMAXLEN](_ => NUL);
      content := new char[CONTENTMAXLEN](_ => NUL);
      action := new char[CONTENTMAXLEN](_ => NUL);
      sourceip := new char[CONTENTMAXLEN](_ => NUL);
      targetip := new char[CONTENTMAXLEN](_ => NUL);
    }

    /** sprintf(newcontent, lead "%s>", name) */
    method SprintfTag(lead: string, name: string)
      requires newcontent.Length == CONTENTMAXLEN && NUL !in lead && NUL !in name
      requires |lead| + |name| + 2 <= CONTENTMAXLEN
      modifies newcontent
      ensures Terminated(newcontent[..]) && CStr(newcontent[..]) == lead + name + ">"
    {
      Strcpy(newcontent, lead);
      Strcat(newcontent, name);
      Strcat(newcontent, ">");
    }

    /** strstr with the tag that the scratch buffer holds. */
    method FindTag(data: array<char>, at: nat) returns (r: int)
      requires Terminated(data[..]) && at <= Len(data[..]) && Terminated(newcontent[..])
      ensures r == Find(CStr(data[..]), CStr(newcontent[..]), at)
    {
      assert newcontent[0..] == newcontent[..];
      assert data[at..] == data[..][at..];
      FindFromPointer(data[..], at, CStr(newcontent[..]));
      var n := Strlen(newcontent, 0);
      r := Strstr(data, at, newcontent[..n]);
    }

    /** The positions right behind the leftmost open tag and of the leftmost close tag after it. */
    method Locate(name: string, data: array<char>, minlen: nat) returns (start: int, end: int)
      requires newcontent.Length == CONTENTMAXLEN && data != newcontent
      requires Terminated(data[..]) && NUL !in name && TagsFit(name)
      requires MinlenInside(CStr(data[..]), name, minlen)
      modifies newcontent
      ensures var o := Find(CStr(data[..]), Open(name), 0);
              if o < 0 then end < 0
              else start == o + |Open(name)| && end == Find(CStr(data[..]), Close(name), start + minlen)
    {
      hide Find;
      SprintfTag("<", name);
      start := FindTag(data, 0);
      if start < 0 {
        end := -1;
        return;
      }
      assert newcontent[0..] == newcontent[..];
      var taglen := Strlen(newcontent, 0);
      start := start + taglen;
      SprintfTag("</", name);
      end := FindTag(data, start + minlen);
    }

    method Extract(dest: array<char>, name: string, data: array<char>, minlen: nat, maxlen: nat)
      requires newcontent.Length == CONTENTMAXLEN && dest != newcontent && data != newcontent && dest != data
      requires Terminated(data[..]) && NUL !in name && |name| != 97
      requires 1 <= maxlen && MinlenInside(CStr(data[..]), name, minlen)
      requires |Extracted(CStr(data[..]), name, minlen)| < dest.Length
      modifies dest, newcontent
      ensures dest[..] == Stored(old(dest[..]), Extracted(CStr(data[..]), name, minlen), maxlen)
    {
      hide Find;
      ghost var c := Extracted(CStr(data[..]), name, minlen);
      if |name| + 3 > CONTENTMAXLEN {
        Clear(dest, maxlen);
        return;
      }
      var start, end := Locate(name, data, minlen);
      LocatedText(CStr(data[..]), name, minlen, start, end);
      Deliver(dest, data, start, end, maxlen, c);
    }

    /** The text between the two positions, or nothing if the second is missing or they coincide. */
    method Deliver(dest: array<char>, data: array<char>, start: int, end: int, maxlen: nat, ghost c: string)
      requires dest != data && 1 <= maxlen && |c| < dest.Length
      requires end < 0 ==> c == ""
      requires 0 <= end ==> 0 <= start <= end <= Len(data[..]) && c == data[..][start..end]
      modifies dest
      ensures dest[..] == Stored(old(dest[..]), c, maxlen)
    {
      if end < 0 || end - start <= 0 {
        Clear(dest, maxlen);
        return;
      }
      Copy(dest, data, start, end - start, maxlen);
    }

    /** The text between the two positions is the extracted one. */
    lemma LocatedText(text: string, name: string, minlen: nat, start: int, end: int)
      requires NameAdmitted(name) && MinlenInside(text, name, minlen)
      requires var o := Find(text, Open(name), 0);
               if o < 0 then end < 0
               else start == o + |Open(name)| && end == Find(text, Close(name), start + minlen)
      ensures end < 0 ==> Extracted(text, name, minlen) == ""
      ensures 0 <= end ==> 0 <= start <= end <= |text| && Extracted(text, name, minlen) == text[start..end]
    {
      var o := Find(text, Open(name), 0);
      if o >= 0 {
        ContentLocated(text, name, minlen, o, end);
      }
    }

    method Clear(dest: array<char>, ghost maxlen: nat)
      requires 0 < dest.Length && 1 <= maxlen
      modifies dest
      ensures dest[..] == Stored(old(dest[..]), "", maxlen)
    {
      dest[0] := NUL;
    }

    /** The strings that the eight result buffers hold. */
    function Now(): Fields
      reads direction, contentFlag, content, sourceip, targetip, action, titlecontent, isapi
    {
      Fields(CStr(direction[..]), CStr(contentFlag[..]), CStr(content[..]), CStr(sourceip[..]),
             CStr(targetip[..]), CStr(action[..]), CStr(titlecontent[..]), CStr(isapi[..]))
    }

    method ExtractField(dest: array<char>, name: string, data: array<char>)
      requires newcontent.Length == dest.Length == CONTENTMAXLEN
      requires dest != newcontent && data != newcontent && dest != data
      requires Terminated(data[..]) && NUL !in name && |name| < 97
      requires |Content(CStr(data[..]), name, 0)| < CONTENTMAXLEN
      modifies dest, newcontent
      ensures CStr(dest[..]) == Content(CStr(data[..]), name, 0) && Terminated(dest[..])
    {
      ghost var was, c := dest[..], Extracted(CStr(data[..]), name, 0);
      Extract(dest, name, data, 0, CONTENTMAXLEN);
      ExtractedNulFree(CStr(data[..]), name, 0);
      StoredReadsBack(was, c, CONTENTMAXLEN);
    }

    method ParseConf(data: array<char>) returns (ret: int)
      requires Valid() && Terminated(data[..])
      requires data !in Buffers()
      requires AllShort(ParsedFields(CStr(data[..])))
      modifies newcontent, direction, contentFlag, content, sourceip, targetip, action, titlecontent, isapi
      ensures ret == 0
      ensures Now() == ParsedFields(CStr(data[..]))
      ensures CStr(direction[..]) == Content(CStr(data[..]), "direction", 0)
      ensures CStr(contentFlag[..]) == Content(CStr(data[..]), "content_flag", 0)
      ensures CStr(content[..]) == Content(CStr(data[..]), "content", 0)
      ensures CStr(sourceip[..]) == Content(CStr(data[..]), "sourceip", 0)
      ensures CStr(targetip[..]) == Content(CStr(data[..]), "targetip", 0)
      ensures CStr(action[..]) == Content(CStr(data[..]), "action", 0)
      ensures CStr(titlecontent[..]) == Content(CStr(data[..]), "titlecontent", 0)
      ensures CStr(isapi[..]) == Content(CStr(data[..]), "isapi", 0)
      ensures Terminated(sourceip[..]) && Terminated(targetip[..])
    {
      hide Content, Len, Terminated;
      ExtractField(direction, "direction", data);
      ExtractField(contentFlag, "content_flag", data);
      ExtractField(content, "content", data);
      ExtractField(sourceip, "sourceip", data);
      ExtractField(targetip, "targetip", data);
      ExtractField(action, "action", data);
      ExtractField(titlecontent, "titlecontent", data);
      ExtractField(isapi, "isapi", data);
      ret := 0;
    }

    /** Copies the enclosed text, cut to maxlen - 1, and terminates at its full length. */
    method Copy(dest: array<char>, data: array<char>, start: nat, len: nat, maxlen: nat)
      requires dest != data && start + len <= Len(data[..]) && len < dest.Length && 1 <= maxlen
      modifies dest
      ensures dest[..] == Stored(old(dest[..]), data[start..start + len], maxlen)
    {
      ghost var was, c := dest[..], data[start..start + len];
      var n := if len >= maxlen then maxlen - 1 else len;
      Strncpy(dest, data, start, n);
      PaddedInside(data[..], start, n);
      assert data[start..] == data[..][start..] && c[..n] == data[..][start..start + n];
      dest[len] := NUL;
      assert dest[..] == (c[..n] + was[n..])[len := NUL];
      CopyThenTerminate(was, c, maxlen, n);
    }
  }

  /** Inside a string, strncpy copies without padding. */
  lemma PaddedInside(s: seq<char>, start: nat, n: nat)
    requires start + n <= Len(s)
    ensures Padded(s[start..], n) == s[start..start + n]
  {
    forall i | 0 <= i < n
      ensures Padded(s[start..], n)[i] == s[start + i]
    {
      NoNulBefore(s, start, i);
    }
  }

  lemma NoNulBefore(s: seq<char>, start: nat, i: nat)
    requires start + i < Len(s)
    ensures i < Len(s[start..])
  {
    assert s[start..][Len(s[start..]) - 0..] == s[start + Len(s[start..])..];
  }
}
