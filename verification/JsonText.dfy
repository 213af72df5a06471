/** The error list as the SQLite driver writes it, and reading it back. */
module JsonText {
  import opened Wrappers

  // ----- string literals -----

  function EscapeChar(c: char): string {
    match c
    case '"' => "\\\""
    case '\\' => "\\\\"
    case '\n' => "\\n"
    case '\r' => "\\r"
    case '\t' => "\\t"
    case _ => [c]
  }

  function Escape(s: string): string {
    if s == "" then "" else EscapeChar(s[0]) + Escape(s[1..])
  }

  function Literal(s: string): string {
    "\"" + Escape(s) + "\""
  }

  lemma EscapeFrom(s: string, i: nat)
    requires i < |s|
    ensures Escape(s[i..]) == EscapeChar(s[i]) + Escape(s[i + 1..])
  {
    assert s[i..][0] == s[i] && s[i..][1..] == s[i + 1..];
  }

  lemma Reassociate(a: string, b: string, c: string)
    ensures a + (b + c) == a + b + c
  {
  }

  /** jsonString, writing into a builder rune by rune. */
  method JsonString(s: string) returns (out: string)
    ensures out == Literal(s)
  {
    out := "\"";
    var i := 0;
    assert s[0..] == s;
    while i < |s|
      invariant 0 <= i <= |s|
      invariant out + Escape(s[i..]) == "\"" + Escape(s)
    {
      var c := s[i];
      EscapeFrom(s, i);
      Reassociate(out, EscapeChar(c), Escape(s[i + 1..]));
      match c {
      case '"' => out := out + "\\\"";
      case '\\' => out := out + "\\\\";
      case '\n' => out := out + "\\n";
      case '\r' => out := out + "\\r";
      case '\t' => out := out + "\\t";
      case _ => out := out + [c];
      }
      i := i + 1;
    }
    out := out + "\"";
  }

  predicate Control(c: char) {
    c < ' '
  }

  function Hex(c: char): Option<nat> {
    if '0' <= c <= '9' then Some(c as nat - '0' as nat)
    else if 'a' <= c <= 'f' then Some(c as nat - 'a' as nat + 10)
    else if 'A' <= c <= 'F' then Some(c as nat - 'A' as nat + 10)
    else None
  }

  datatype Read = Read(value: string, rest: string)

  /** One character of a string literal (section 7 of RFC 8259): unescaped, a two-character escape, or \uXXXX for a
      code point that is not a surrogate. */
  function ReadChar(t: string): (r: Option<Read>)
    ensures r.Some? ==> |r.value.value| == 1 && |r.value.rest| < |t|
  {
    if t == "" || Control(t[0]) || t[0] == '"' then None
    else if t[0] != '\\' then Some(Read([t[0]], t[1..]))
    else if |t| < 2 then None
    else match t[1]
      case '"' => Some(Read("\"", t[2..]))
      case '\\' => Some(Read("\\", t[2..]))
      case '/' => Some(Read("/", t[2..]))
      case 'b' => Some(Read([8 as char], t[2..]))
      case 'f' => Some(Read([12 as char], t[2..]))
      case 'n' => Some(Read("\n", t[2..]))
      case 'r' => Some(Read("\r", t[2..]))
      case 't' => Some(Read("\t", t[2..]))
      case 'u' => ReadUnicode(t)
      case _ => None
  }

  function ReadUnicode(t: string): (r: Option<Read>)
    ensures r.Some? ==> |r.value.value| == 1 && |r.value.rest| < |t|
  {
    if |t| < 6 || Hex(t[2]).None? || Hex(t[3]).None? || Hex(t[4]).None? || Hex(t[5]).None? then None
    else
      var code := ((Hex(t[2]).value * 16 + Hex(t[3]).value) * 16 + Hex(t[4]).value) * 16 + Hex(t[5]).value;
      if 0 <= code < 0xD800 || 0xE000 <= code < 0x1_0000 then Some(Read([code as char], t[6..])) else None
  }

  /** The characters up to the closing quote. */
  function ReadChars(t: string): (r: Option<Read>)
    ensures r.Some? ==> |r.value.rest| < |t|
    decreases |t|
  {
    if t != "" && t[0] == '"' then Some(Read("", t[1..]))
    else
      var first := ReadChar(t);
      if first.None? then None
      else
        var more := ReadChars(first.value.rest);
        if more.None? then None else Some(Read(first.value.value + more.value.value, more.value.rest))
  }

  /** A string literal at the start of t. */
  function ReadString(t: string): (r: Option<Read>)
    ensures r.Some? ==> |r.value.rest| < |t|
  {
    if t == "" || t[0] != '"' then None else ReadChars(t[1..])
  }

  predicate Escaped(c: char) {
    !Control(c) || c == '\n' || c == '\r' || c == '\t'
  }

  /** The only control characters are newline, carriage return and tab. */
  predicate Plain(s: string) {
    forall i :: 0 <= i < |s| ==> Escaped(s[i])
  }

  lemma ReadEscapedChar(c: char, t: string)
    ensures EscapeChar(c) + t != "" && (EscapeChar(c) + t)[0] != '"'
    ensures ReadChar(EscapeChar(c) + t) == if Escaped(c) then Some(Read([c], t)) else None
  {
    var text := EscapeChar(c) + t;
    if |EscapeChar(c)| == 2 {
      assert text[0] == '\\' && text[1] == EscapeChar(c)[1] && text[2..] == t;
    } else {
      assert text[0] == c && text[1..] == t;
    }
  }

  lemma {:induction false} ReadEscaped(s: string, rest: string)
    ensures ReadChars(Escape(s) + "\"" + rest) == if Plain(s) then Some(Read(s, rest)) else None
  {
    var text := Escape(s) + "\"" + rest;
    if s == "" {
      assert text == "\"" + rest && text[1..] == rest;
    } else {
      var tail := Escape(s[1..]) + "\"" + rest;
      assert text == EscapeChar(s[0]) + tail;
      ReadEscapedChar(s[0], tail);
      ReadEscaped(s[1..], rest);
      assert s == [s[0]] + s[1..];
      assert Plain(s) <==> Escaped(s[0]) && Plain(s[1..]);
    }
  }

  /** jsonString writes a valid literal exactly when the only control characters are newline, carriage return and tab,
      and then it reads back as the original, whatever follows. */
  lemma LiteralReadsBack(s: string, rest: string)
    ensures ReadString(Literal(s) + rest) == if Plain(s) then Some(Read(s, rest)) else None
  {
    ReadEscaped(s, rest);
    assert Literal(s) + rest == "\"" + (Escape(s) + "\"" + rest);
    assert (Literal(s) + rest)[1..] == Escape(s) + "\"" + rest;
  }

  // ----- the error list -----

  /** An entry: when, as RFC 3339 text, and the failure message. */
  datatype Entry = Entry(at: string, message: string)

  const OPEN := "{\"at\":"
  const MIDDLE := ",\"message\":"
  const CLOSE := "}"

  function BuildErrorEntry(now: string, message: string): string {
    Fields(OPEN, "\"" + now + "\"", MIDDLE, Literal(message), CLOSE)
  }

  function Fields(open: string, at: string, middle: string, message: string, close: string): string {
    open + at + middle + message + close
  }

  /** The entry written out: an object with the members at and message. */
  lemma EntryText(now: string, message: string)
    ensures BuildErrorEntry(now, message) == "{\"at\":\"" + now + "\",\"message\":" + Literal(message) + "}"
  {
    var at, rest := "{\"at\":", Literal(message) + CLOSE;
    assert OPEN + ("\"" + now + "\"") == at + "\"" + now + "\"";
    assert "\"" + MIDDLE == "\",\"message\":";
  }

  /** json_insert(list, '$[#]', entry). */
  function JsonInsert(list: string, entry: string): string
    requires list != ""
  {
    if list == "[]" then "[" + entry + "]" else list[..|list| - 1] + "," + entry + "]"
  }

  function Texts(entries: seq<Entry>): seq<string> {
    seq(|entries|, i requires 0 <= i < |entries| => BuildErrorEntry(entries[i].at, entries[i].message))
  }

  function Join(texts: seq<string>): string {
    if texts == [] then ""
    else if |texts| == 1 then texts[0]
    else texts[0] + "," + Join(texts[1..])
  }

  /** The text of a list of entries. */
  function Render(entries: seq<Entry>): string {
    "[" + Join(Texts(entries)) + "]"
  }

  function Expect(prefix: string, t: string): (r: Option<string>)
    ensures r.Some? ==> t == prefix + r.value
  {
    if prefix <= t then Some(t[|prefix|..]) else None
  }

  datatype ReadOne = ReadOne(entry: Entry, rest: string)

  function ReadEntry(t: string): (r: Option<ReadOne>)
    ensures r.Some? ==> |r.value.rest| < |t|
  {
    ReadFields(OPEN, MIDDLE, CLOSE, t)
  }

  /** Two string literals between fixed texts. */
  function ReadFields(open: string, middle: string, close: string, t: string): (r: Option<ReadOne>)
    ensures r.Some? ==> |r.value.rest| < |t|
  {
    var a := Expect(open, t);
    if a.None? then None else
      var at := ReadString(a.value);
      if at.None? then None else
        var b := Expect(middle, at.value.rest);
        if b.None? then None else
          var message := ReadString(b.value);
          if message.None? then None else
            var e := Expect(close, message.value.rest);
            if e.None? then None else Some(ReadOne(Entry(at.value.value, message.value.value), e.value))
  }

  /** Entries separated by commas up to the closing bracket, each read by `read`. */
  function ReadList(read: string -> Option<ReadOne>, t: string): Option<seq<Entry>>
    decreases |t|
  {
    var first := read(t);
    if first.None? || |first.value.rest| >= |t| then None
    else if first.value.rest == "]" then Some([first.value.entry])
    else if first.value.rest == "" || first.value.rest[0] != ',' then None
    else
      var more := ReadList(read, first.value.rest[1..]);
      if more.None? then None else Some([first.value.entry] + more.value)
  }

  function ParseErrors(t: string): Option<seq<Entry>> {
    if t == "[]" then Some([])
    else if t == "" || t[0] != '[' then None
    else ReadList(ReadEntry, t[1..])
  }

  /** lastError: the message of the last entry, "" when there is none or the text does not parse. */
  function LastError(t: string): string {
    var entries := ParseErrors(t);
    if entries.None? || entries.value == [] then "" else entries.value[|entries.value| - 1].message
  }

  /** No character of the time text needs escaping. */
  predicate TimeText(at: string) {
    forall i :: 0 <= i < |at| ==> EscapeChar(at[i]) == [at[i]] && !Control(at[i])
  }

  lemma {:induction false} TimeTextUnescaped(at: string)
    requires TimeText(at)
    ensures Escape(at) == at
  {
    if at != "" {
      TimeTextUnescaped(at[1..]);
      assert at == [at[0]] + at[1..];
    }
  }

  predicate Readable(e: Entry) {
    TimeText(e.at) && Plain(e.message)
  }

  lemma ExpectPrefix(prefix: string, t: string)
    ensures Expect(prefix, prefix + t) == Some(t)
  {
  }

  lemma ReadBuiltFields(open: string, middle: string, close: string, at: string, message: string, rest: string)
    requires Plain(at) && Plain(message)
    ensures ReadFields(open, middle, close, Fields(open, Literal(at), middle, Literal(message), close) + rest)
         == Some(ReadOne(Entry(at, message), rest))
  {
    var afterMessage := close + rest;
    var afterAt := middle + (Literal(message) + afterMessage);
    assert Fields(open, Literal(at), middle, Literal(message), close) + rest == open + (Literal(at) + afterAt);
    ExpectPrefix(open, Literal(at) + afterAt);
    LiteralReadsBack(at, afterAt);
    ExpectPrefix(middle, Literal(message) + afterMessage);
    LiteralReadsBack(message, afterMessage);
    ExpectPrefix(close, rest);
  }

  lemma ReadBuiltEntry(e: Entry, rest: string)
    requires Readable(e)
    ensures ReadEntry(BuildErrorEntry(e.at, e.message) + rest) == Some(ReadOne(e, rest))
  {
    TimeTextUnescaped(e.at);
    ReadBuiltFields(OPEN, MIDDLE, CLOSE, e.at, e.message, rest);
  }

  ghost predicate ReadsAsBefore(read: string -> Option<ReadOne>, text: string, e: Entry, rest: string) {
    read(text + rest) == Some(ReadOne(e, rest))
  }

  /** Whatever follows it, the text reads as the entry. */
  ghost predicate ReadsAs(read: string -> Option<ReadOne>, text: string, e: Entry) {
    text != "" && forall rest :: ReadsAsBefore(read, text, e, rest)
  }

  lemma BuiltReadsAs(e: Entry)
    requires Readable(e)
    ensures ReadsAs(ReadEntry, BuildErrorEntry(e.at, e.message), e)
    ensures BuildErrorEntry(e.at, e.message)[0] == '{'
  {
    assert OPEN[0] == '{' && BuildErrorEntry(e.at, e.message)[0] == OPEN[0];
    forall rest
      ensures ReadsAsBefore(ReadEntry, BuildErrorEntry(e.at, e.message), e, rest)
    {
      ReadBuiltEntry(e, rest);
    }
  }

  lemma ReadLast(read: string -> Option<ReadOne>, text: string, e: Entry)
    requires ReadsAs(read, text, e)
    ensures ReadList(read, text + "]") == Some([e])
  {
    assert ReadsAsBefore(read, text, e, "]");
  }

  lemma ReadOneMore(read: string -> Option<ReadOne>, text: string, e: Entry, rest: string, more: seq<Entry>)
    requires ReadsAs(read, text, e) && ReadList(read, rest) == Some(more)
    ensures ReadList(read, text + ("," + rest)) == Some([e] + more)
  {
    assert ReadsAsBefore(read, text, e, "," + rest);
    assert ("," + rest)[0] == ',' && ("," + rest)[1..] == rest;
  }

  lemma JoinClosed(texts: seq<string>)
    requires |texts| > 1
    ensures Join(texts) + "]" == texts[0] + ("," + (Join(texts[1..]) + "]"))
  {
  }

  lemma {:induction false} ReadJoined(read: string -> Option<ReadOne>, texts: seq<string>, entries: seq<Entry>)
    requires |texts| == |entries| > 0 && forall i :: 0 <= i < |entries| ==> ReadsAs(read, texts[i], entries[i])
    ensures ReadList(read, Join(texts) + "]") == Some(entries)
  {
    if |texts| > 1 {
      ReadJoined(read, texts[1..], entries[1..]);
      ReadOneMore(read, texts[0], entries[0], Join(texts[1..]) + "]", entries[1..]);
      JoinClosed(texts);
      assert entries == [entries[0]] + entries[1..];
    } else {
      ReadLast(read, texts[0], entries[0]);
      assert entries == [entries[0]];
    }
  }

  lemma {:induction false} JoinAppend(texts: seq<string>, text: string)
    requires texts != []
    ensures Join(texts + [text]) == Join(texts) + "," + text
  {
    if |texts| > 1 {
      JoinAppend(texts[1..], text);
      assert (texts + [text])[1..] == texts[1..] + [text];
    } else {
      assert (texts + [text])[1..] == [text];
    }
  }

  lemma InsertText(joined: string, text: string)
    requires joined != ""
    ensures JsonInsert("[" + joined + "]", text) == "[" + (joined + "," + text) + "]"
  {
    assert |"[" + joined + "]"| > 2;
    assert ("[" + joined + "]")[..|"[" + joined + "]"| - 1] == "[" + joined;
  }

  lemma JoinStarts(texts: seq<string>)
    requires texts != [] && texts[0] != ""
    ensures Join(texts) != "" && Join(texts)[0] == texts[0][0]
  {
  }

  /** Inserting the built entry into the stored text is appending it to the list. */
  lemma InsertAppends(entries: seq<Entry>, e: Entry)
    ensures JsonInsert(Render(entries), BuildErrorEntry(e.at, e.message)) == Render(entries + [e])
  {
    assert Texts(entries + [e]) == Texts(entries) + [BuildErrorEntry(e.at, e.message)];
    if entries == [] {
      assert Render(entries) == "[]";
    } else {
      JoinAppend(Texts(entries), BuildErrorEntry(e.at, e.message));
      JoinStarts(Texts(entries));
      InsertText(Join(Texts(entries)), BuildErrorEntry(e.at, e.message));
    }
  }

  lemma ParseNonEmpty(t: string)
    requires t != "" && t[0] == '{'
    ensures ParseErrors("[" + t) == ReadList(ReadEntry, t)
  {
    assert ("[" + t)[1] == '{' && ("[" + t)[1..] == t;
  }

  /** The stored list reads back entry by entry. */
  lemma RenderedListReadsBack(entries: seq<Entry>)
    requires forall i :: 0 <= i < |entries| ==> Readable(entries[i])
    ensures ParseErrors(Render(entries)) == Some(entries)
  {
    if entries != [] {
      var texts := Texts(entries);
      forall i | 0 <= i < |entries|
        ensures ReadsAs(ReadEntry, texts[i], entries[i])
      {
        BuiltReadsAs(entries[i]);
      }
      ReadJoined(ReadEntry, texts, entries);
      BuiltReadsAs(entries[0]);
      JoinStarts(texts);
      ParseNonEmpty(Join(texts) + "]");
      assert Render(entries) == "[" + (Join(texts) + "]");
    }
  }

  /** After a failure is recorded, lastError returns its message. */
  lemma LastErrorIsLatest(entries: seq<Entry>, e: Entry)
    requires Readable(e) && forall i :: 0 <= i < |entries| ==> Readable(entries[i])
    ensures LastError(JsonInsert(Render(entries), BuildErrorEntry(e.at, e.message))) == e.message
  {
    InsertAppends(entries, e);
    RenderedListReadsBack(entries + [e]);
  }
}
