/** A configuration text written as tagged values, in any order and with anything harmless between
    them, is read back by the extractor. */
module ConfRoundTrip {
  import opened CText
  import opened Extraction
  import opened DealConf

  /** One tagged value and the text in front of it. */
  datatype Item = Item(sep: string, key: string, value: string)

  function Tagged(key: string, value: string): string {
    Open(key) + value + Close(key)
  }

  function Render(items: seq<Item>, tail: string): string {
    if items == [] then tail
    else items[0].sep + (Tagged(items[0].key, items[0].value) + Render(items[1..], tail))
  }

  /** The value of the first item with the key; empty when there is none. */
  function FirstValue(items: seq<Item>, key: string): string {
    if items == [] then ""
    else if items[0].key == key then items[0].value
    else FirstValue(items[1..], key)
  }

  predicate Contains(s: string, pat: string) {
    Find(s, pat, 0) >= 0
  }

  /** A key that can stand inside a tag. */
  predicate NameOk(name: string) {
    '<' !in name && '>' !in name && '/' !in name && NUL !in name
  }

  /** Neither separators nor values contain the key's open tag, and the values stored under the key
      do not contain its close tag. */
  ghost predicate Readable(items: seq<Item>, tail: string, key: string) {
    && NameOk(key)
    && !Contains(tail, Open(key))
    && (forall i :: 0 <= i < |items| ==>
          && NameOk(items[i].key)
          && !Contains(items[i].sep, Open(key))
          && !Contains(items[i].value, Open(key))
          && (items[i].key == key ==> !Contains(items[i].value, Close(key))))
  }

  /** A piece in which no open tag starts can be dropped. */
  lemma SkipPiece(a: string, b: string, key: string)
    requires forall i :: 0 <= i < |a| ==> !OccursAt(a + b, Open(key), i)
    ensures Content(a + b, key, 0) == Content(b, key, 0)
  {
    FindSkip(a, b, Open(key));
    BetweenShift(a, b, Open(key), Close(key));
  }

  lemma BetweenShift(a: string, b: string, open: string, close: string)
    requires Find(a + b, open, 0) == (var f := Find(b, open, 0); if f < 0 then -1 else |a| + f)
    ensures Between(a + b, open, close, 0) == Between(b, open, close, 0)
  {
    hide Find;
    var p := Find(b, open, 0);
    if p >= 0 {
      var start := p + |open|;
      var end := Find(b, close, start);
      FindShift(a, b, close, |a| + start);
      BetweenLocated(b, open, close, 0, p, end);
      BetweenLocated(a + b, open, close, 0, |a| + p, if end < 0 then -1 else |a| + end);
      if end >= 0 {
        SliceShift(a, b, start, end);
      }
    }
  }

  /** A plain text in front of a tag: an occurrence cannot reach into the tag, whose '<' is not
      inside the pattern. */
  lemma SkipPlain(a: string, b: string, key: string)
    requires NameOk(key) && !Contains(a, Open(key)) && b != [] && b[0] == '<'
    ensures Content(a + b, key, 0) == Content(b, key, 0)
  {
    assert Open(key)[1..] == key + ">";
    FindPrefix(a, b, Open(key), 0);
    SkipPiece(a, b, key);
  }

  /** A tag that is not the key's open tag: the only '<' in it is its first character. */
  lemma SkipTag(tag: string, b: string, key: string)
    requires tag != [] && '<' !in tag[1..]
    requires !OccursAt(tag + b, Open(key), 0)
    ensures Content(tag + b, key, 0) == Content(b, key, 0)
  {
    forall i | 0 <= i < |tag|
      ensures !OccursAt(tag + b, Open(key), i)
    {
      if 0 < i && i + |Open(key)| <= |tag + b| {
        assert (tag + b)[i..i + |Open(key)|][0] == tag[i] == tag[1..][i - 1];
      }
    }
    SkipPiece(tag, b, key);
  }

  /** Two tags that agree up to the '>' have the same name. */
  lemma OtherOpenTag(other: string, b: string, key: string)
    requires NameOk(key) && NameOk(other) && key != other
    ensures !OccursAt(Open(other) + b, Open(key), 0)
  {
    var text := Open(other) + b;
    if |Open(key)| <= |text| {
      var window := text[0..|Open(key)|];
      if |key| < |other| {
        assert window[|key| + 1] == other[|key|] && Open(key)[|key| + 1] == '>';
      } else if |other| < |key| {
        assert window[|other| + 1] == '>' && Open(key)[|other| + 1] == key[|other|];
      } else {
        var i :| 0 <= i < |key| && key[i] != other[i];
        assert window[i + 1] == other[i] && Open(key)[i + 1] == key[i];
      }
    }
  }

  lemma CloseTagIsNoOpenTag(other: string, b: string, key: string)
    requires NameOk(key)
    ensures !OccursAt(Close(other) + b, Open(key), 0)
  {
    var text := Close(other) + b;
    if |Open(key)| <= |text| {
      assert text[0..|Open(key)|][1] == '/';
      assert Open(key)[1] == if key == "" then '>' else key[0];
    }
  }

  /** An item stored under another key is skipped as a whole. */
  lemma SkipItem(item: Item, rest: string, key: string)
    requires NameOk(key) && NameOk(item.key) && key != item.key && !Contains(item.value, Open(key))
    ensures Content(Tagged(item.key, item.value) + rest, key, 0) == Content(rest, key, 0)
  {
    var open, value, close := Open(item.key), item.value, Close(item.key);
    Assoc4(open, value, close, rest);
    SkipOtherOpen(item.key, value + (close + rest), key);
    SkipPlain(value, close + rest, key);
    SkipClose(item.key, rest, key);
  }

  lemma SkipOtherOpen(other: string, b: string, key: string)
    requires NameOk(key) && NameOk(other) && key != other
    ensures Content(Open(other) + b, key, 0) == Content(b, key, 0)
  {
    OtherOpenTag(other, b, key);
    assert Open(other)[1..] == other + ">";
    SkipTag(Open(other), b, key);
  }

  lemma SkipClose(other: string, b: string, key: string)
    requires NameOk(key) && NameOk(other)
    ensures Content(Close(other) + b, key, 0) == Content(b, key, 0)
  {
    CloseTagIsNoOpenTag(other, b, key);
    assert Close(other)[1..] == "/" + other + ">";
    SkipTag(Close(other), b, key);
  }

  /** An item stored under the key is what the extractor finds. */
  lemma ReadItem(value: string, rest: string, key: string)
    requires NameOk(key) && !Contains(value, Close(key))
    ensures Content(Tagged(key, value) + rest, key, 0) == value
  {
    hide Find;
    var open, close := Open(key), Close(key);
    var afterValue := close + rest;
    var afterOpen := value + afterValue;
    var text := Tagged(key, value) + rest;
    assert text == open + afterOpen;
    assert close[1..] == "/" + key + ">";
    FindPrefix(value, afterValue, close, 0);
    forall i | |open| <= i < |open| + |value|
      ensures !OccursAt(text, close, i)
    {
      OccursShift(open, afterOpen, close, i);
    }
    assert OccursAt(text, open, 0);
    assert OccursAt(text, value, |open|);
    assert OccursAt(text, close, |open| + |value|);
    EnclosesAtContent(text, key, 0, value, 0);
  }

  /** The round trip: for any items in any order, the extractor returns the first value of the key,
      and nothing when the key is missing. Values may contain '<'. */
  lemma {:induction false} RoundTrip(items: seq<Item>, tail: string, key: string)
    requires Readable(items, tail, key)
    ensures Content(Render(items, tail), key, 0) == FirstValue(items, key)
  {
    if items != [] {
      var item, rest := items[0], Render(items[1..], tail);
      var tagged := Tagged(item.key, item.value);
      SkipPlain(item.sep, tagged + rest, key);
      if item.key == key {
        ReadItem(item.value, rest, key);
      } else {
        SkipItem(item, rest, key);
        RoundTrip(items[1..], tail, key);
      }
    }
  }

  /** The texts of the eight keys that a list of items determines. */
  function RenderedFields(items: seq<Item>): Fields {
    Fields(FirstValue(items, "direction"), FirstValue(items, "content_flag"), FirstValue(items, "content"),
           FirstValue(items, "sourceip"), FirstValue(items, "targetip"), FirstValue(items, "action"),
           FirstValue(items, "titlecontent"), FirstValue(items, "isapi"))
  }

  /** The whole configuration: rendering and parsing are inverse on all eight fields at once. */
  lemma ConfigurationRoundTrip(items: seq<Item>, tail: string)
    requires Readable(items, tail, "direction") && Readable(items, tail, "content_flag")
    requires Readable(items, tail, "content") && Readable(items, tail, "sourceip")
    requires Readable(items, tail, "targetip") && Readable(items, tail, "action")
    requires Readable(items, tail, "titlecontent") && Readable(items, tail, "isapi")
    ensures ParsedFields(Render(items, tail)) == RenderedFields(items)
  {
    RoundTrip(items, tail, "direction");
    RoundTrip(items, tail, "content_flag");
    RoundTrip(items, tail, "content");
    RoundTrip(items, tail, "sourceip");
    RoundTrip(items, tail, "targetip");
    RoundTrip(items, tail, "action");
    RoundTrip(items, tail, "titlecontent");
    RoundTrip(items, tail, "isapi");
  }
}
