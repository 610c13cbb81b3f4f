/**
 * The text of outgoing messages: body normalisation, the header printer and
 * its reader, and the quoted body of a reply.
 */
module MessageText {
  import opened Prelude
  import opened Strings

  const CRLF := "\r\n"

  // ----- Line endings -----

  /** Three replacement passes. */
  function NormalizeBody(body: string): string {
    ReplaceAll(ReplaceAll(ReplaceAll(body, CRLF, "\n"), "\r", "\n"), "\n", CRLF)
  }

  /** The lines of a text in which CRLF, a lone CR and a lone LF each end a line. */
  function Lines(s: string): (r: seq<string>)
    ensures r != []
    decreases |s|
  {
    if s == "" then [""]
    else if HasPrefix(s, CRLF) then [""] + Lines(s[2..])
    else if s[0] == '\r' || s[0] == '\n' then [""] + Lines(s[1..])
    else var rest := Lines(s[1..]); [[s[0]] + rest[0]] + rest[1..]
  }

  predicate Unbroken(s: string) {
    '\r' !in s && '\n' !in s
  }

  lemma {:induction false} LinesAreUnbroken(s: string)
    ensures forall line | line in Lines(s) :: Unbroken(line)
    decreases |s|
  {
    if s != "" {
      if HasPrefix(s, CRLF) {
        LinesAreUnbroken(s[2..]);
      } else {
        LinesAreUnbroken(s[1..]);
        var rest := Lines(s[1..]);
        assert rest[0] in rest && forall line | line in rest[1..] :: line in rest;
      }
    }
  }

  lemma ConsJoin(c: char, parts: seq<string>, sep: string)
    requires parts != []
    ensures Join([[c] + parts[0]] + parts[1..], sep) == [c] + Join(parts, sep)
  {
    if |parts| > 1 {
      assert ([[c] + parts[0]] + parts[1..])[1..] == parts[1..];
      assert ([c] + parts[0]) + sep + Join(parts[1..], sep) == [c] + (parts[0] + sep + Join(parts[1..], sep));
    }
  }

  /** The three passes, one character (or one CRLF) at a time. */
  lemma {:induction false} PassesOnHead(s: string)
    requires s != ""
    ensures NormalizeBody(s) ==
            if HasPrefix(s, CRLF) then CRLF + NormalizeBody(s[2..])
            else if s[0] == '\r' || s[0] == '\n' then CRLF + NormalizeBody(s[1..])
            else [s[0]] + NormalizeBody(s[1..])
  {
    var n := if HasPrefix(s, CRLF) then 2 else 1;
    var c := if s[0] == '\r' then '\n' else s[0];
    var one := ReplaceAll(s, CRLF, "\n");
    var oneTail := ReplaceAll(s[n..], CRLF, "\n");
    if HasPrefix(s, CRLF) {
      assert s[..2] == CRLF;
      assert one == "\n" + oneTail;
    } else {
      assert |s| >= 2 ==> s[..2] != CRLF;
      assert one == [s[0]] + oneTail by {
        if |s| == 1 { assert s == [s[0]] + s[1..]; }
      }
    }
    var two, twoTail := ReplaceAll(one, "\r", "\n"), ReplaceAll(oneTail, "\r", "\n");
    assert one[..1] == [one[0]] && one[1..] == oneTail;
    assert two == [c] + twoTail;
    assert two[..1] == [c] && two[1..] == twoTail;
  }

  /** Normalising keeps the lines and ends each with CRLF, whatever ended it before. */
  lemma {:induction false} NormalizedLines(s: string)
    ensures NormalizeBody(s) == Join(Lines(s), CRLF)
    decreases |s|
  {
    if s != "" {
      PassesOnHead(s);
      if HasPrefix(s, CRLF) {
        NormalizedLines(s[2..]);
      } else {
        NormalizedLines(s[1..]);
        if s[0] != '\r' && s[0] != '\n' {
          ConsJoin(s[0], Lines(s[1..]), CRLF);
        }
      }
    }
  }

  /** Splitting a normalised body at CRLF gives back the lines of the original. */
  lemma NormalizedSplit(s: string)
    ensures Split(NormalizeBody(s), CRLF) == Lines(s)
  {
    NormalizedLines(s);
    LinesAreUnbroken(s);
    SplitJoin(Lines(s), CRLF);
  }

  /** Every CR is followed by LF and every LF preceded by CR (section 2.3 of RFC 5322). */
  ghost predicate NoBareBreaks(s: string) {
    && (forall i | 0 <= i < |s| && s[i] == '\r' :: i + 1 < |s| && s[i + 1] == '\n')
    && (forall i | 0 <= i < |s| && s[i] == '\n' :: i > 0 && s[i - 1] == '\r')
  }

  lemma NoBareBreaksConcat(a: string, b: string)
    requires NoBareBreaks(a) && NoBareBreaks(b)
    ensures NoBareBreaks(a + b)
  {
    var s := a + b;
    forall i | 0 <= i < |s| && s[i] == '\r'
      ensures i + 1 < |s| && s[i + 1] == '\n'
    {
      if i < |a| { assert a[i] == '\r' && a[i + 1] == '\n'; } else { assert b[i - |a|] == '\r' && b[i - |a| + 1] == '\n'; }
    }
    forall i | 0 <= i < |s| && s[i] == '\n'
      ensures i > 0 && s[i - 1] == '\r'
    {
      if i < |a| { assert a[i] == '\n' && a[i - 1] == '\r'; } else { assert b[i - |a|] == '\n' && b[i - |a| - 1] == '\r'; }
    }
  }

  lemma {:induction false} JoinedLinesHaveNoBareBreaks(lines: seq<string>)
    requires forall line | line in lines :: Unbroken(line)
    ensures NoBareBreaks(Join(lines, CRLF))
  {
    assert lines != [] ==> lines[0] in lines;
    if |lines| > 1 {
      JoinedLinesHaveNoBareBreaks(lines[1..]);
      NoBareBreaksConcat(lines[0], CRLF);
      NoBareBreaksConcat(lines[0] + CRLF, Join(lines[1..], CRLF));
    }
  }

  lemma LinesAfterBreak(sep: string, rest: string)
    requires sep in {"\n", CRLF}
    ensures Lines(sep + rest) == [""] + Lines(rest)
  {
    assert (sep + rest)[|sep|..] == rest && (sep + rest)[0] == sep[0];
    assert sep == CRLF ==> (sep + rest)[..2] == CRLF;
  }

  lemma LinesAfterChar(c: char, rest: string)
    requires c != '\r' && c != '\n'
    ensures Lines([c] + rest) == [[c] + Lines(rest)[0]] + Lines(rest)[1..]
  {
    assert ([c] + rest)[1..] == rest && ([c] + rest)[0] == c;
  }

  lemma {:induction false} LinesOfJoined(lines: seq<string>, sep: string)
    requires lines != [] && sep in {"\n", CRLF}
    requires forall line | line in lines :: Unbroken(line)
    ensures Lines(Join(lines, sep)) == lines
    decreases |lines|, |lines[0]|
  {
    if lines[0] == "" {
      if |lines| > 1 {
        var rest := Join(lines[1..], sep);
        assert Join(lines, sep) == sep + rest;
        LinesOfJoined(lines[1..], sep);
        LinesAfterBreak(sep, rest);
      }
    } else {
      var c, shorter := lines[0][0], [lines[0][1..]] + lines[1..];
      assert c in lines[0] && lines[0] in lines;
      ConsJoin(c, shorter, sep);
      assert [c] + shorter[0] == lines[0] && shorter[1..] == lines[1..];
      assert [[c] + shorter[0]] + shorter[1..] == lines;
      forall line | line in shorter
        ensures Unbroken(line)
      {
        assert line == lines[0][1..] || line in lines;
      }
      LinesOfJoined(shorter, sep);
      LinesAfterChar(c, Join(shorter, sep));
    }
  }

  /** Exactly the texts without bare breaks are left alone; in particular normalising twice changes nothing. */
  lemma NormalizedExactly(s: string)
    ensures NoBareBreaks(NormalizeBody(s))
    ensures NormalizeBody(s) == s <==> NoBareBreaks(s)
    ensures NormalizeBody(NormalizeBody(s)) == NormalizeBody(s)
  {
    NormalizedLines(s);
    LinesAreUnbroken(s);
    JoinedLinesHaveNoBareBreaks(Lines(s));
    if NoBareBreaks(s) {
      CleanTextIsKept(s);
    }
    CleanTextIsKept(NormalizeBody(s));
  }

  lemma {:induction false} CleanTextIsKept(s: string)
    requires NoBareBreaks(s)
    ensures NormalizeBody(s) == s
    decreases |s|
  {
    if s != "" {
      PassesOnHead(s);
      var n := if HasPrefix(s, CRLF) then 2 else 1;
      assert s[0] == '\r' ==> s[..2] == CRLF;
      assert NoBareBreaks(s[n..]) by {
        var t := s[n..];
        forall i | 0 <= i < |t| && t[i] == '\r' ensures i + 1 < |t| && t[i + 1] == '\n' { assert s[i + n] == '\r'; }
        forall i | 0 <= i < |t| && t[i] == '\n' ensures i > 0 && t[i - 1] == '\r' {
          assert s[i + n] == '\n' && s[i + n - 1] == '\r';
        }
      }
      CleanTextIsKept(s[n..]);
      assert s == s[..n] + s[n..];
    }
  }

  // ----- Message printing -----

  datatype Message = Message(
    from: string, to: string, cc: string, subject: string, body: string, inReplyTo: string, references: string)

  /** sanitizeHeaderValue: each CR or LF becomes a space. */
  function Sanitize(value: string): (r: string)
    ensures |r| == |value| && Unbroken(r)
    ensures Unbroken(value) ==> r == value
    ensures forall i | 0 <= i < |r| :: r[i] == if value[i] == '\r' || value[i] == '\n' then ' ' else value[i]
  {
    seq(|value|, i requires 0 <= i < |value| => if value[i] == '\r' || value[i] == '\n' then ' ' else value[i])
  }

  /** A header field: its name and everything after the colon. */
  datatype Field = Field(name: string, value: string)

  function Optional(name: string, value: string): seq<Field> {
    if value == "" then [] else [Field(name, " " + Sanitize(value))]
  }

  function EarlyFields(m: Message): seq<Field> {
    [Field("From", " " + m.from), Field("To", " " + m.to)]
    + Optional("Cc", m.cc)
    + [Field("Subject", " " + Sanitize(m.subject))]
  }

  function ThreadFields(m: Message): seq<Field> {
    Optional("In-Reply-To", m.inReplyTo) + Optional("References", m.references)
  }

  /** The fields of a message, in the order they are printed. */
  function Fields(m: Message): seq<Field> {
    EarlyFields(m) + ThreadFields(m) + FIXED_FIELDS
  }

  const FIXED_FIELDS := [
    Field("MIME-Version", " " + "1.0"),
    Field("Content-Type", " " + "text/plain; charset=UTF-8"),
    Field("Content-Transfer-Encoding", " " + "8bit")]

  const FIXED_LINES := [
    "MIME-Version" + ": " + "1.0",
    "Content-Type" + ": " + "text/plain; charset=UTF-8",
    "Content-Transfer-Encoding" + ": " + "8bit"]

  lemma FixedLines()
    ensures FieldLines(FIXED_FIELDS) == FIXED_LINES
  {
    var f, g, h := FIXED_FIELDS[0], FIXED_FIELDS[1], FIXED_FIELDS[2];
    FieldLineOf("MIME-Version", "1.0");
    FieldLineOf("Content-Type", "text/plain; charset=UTF-8");
    FieldLineOf("Content-Transfer-Encoding", "8bit");
    FieldLinesAppend([f], [g]);
    FieldLinesAppend([f] + [g], [h]);
    assert FIXED_FIELDS == [f] + [g] + [h];
  }

  function FieldLine(f: Field): string {
    f.name + ":" + f.value
  }

  function FieldLines(fields: seq<Field>): (r: seq<string>)
    ensures |r| == |fields|
  {
    if fields == [] then [] else [FieldLine(fields[0])] + FieldLines(fields[1..])
  }

  lemma {:induction false} FieldLinesAppend(fields: seq<Field>, more: seq<Field>)
    ensures FieldLines(fields + more) == FieldLines(fields) + FieldLines(more)
  {
    if fields == [] {
      assert fields + more == more;
    } else {
      assert (fields + more)[1..] == fields[1..] + more;
      FieldLinesAppend(fields[1..], more);
    }
  }

  lemma FieldLineOf(name: string, value: string)
    ensures FieldLines([Field(name, " " + value)]) == [name + ": " + value]
  {
    assert name + ":" + (" " + value) == name + ": " + value;
  }

  function Print(fields: seq<Field>, body: string): string {
    Join(FieldLines(fields), CRLF) + CRLF + CRLF + body
  }

  /** buildMessage: appends the header lines one by one and joins them. */
  method BuildMessage(m: Message) returns (raw: string)
    ensures raw == Print(Fields(m), NormalizeBody(m.body))
  {
    var headers := ["From" + ": " + m.from, "To" + ": " + m.to];
    ghost var fields := [Field("From", " " + m.from)] + [Field("To", " " + m.to)];
    FieldLineOf("From", m.from);
    FieldLineOf("To", m.to);
    FieldLinesAppend([Field("From", " " + m.from)], [Field("To", " " + m.to)]);
    headers := AppendIfPresent(headers, fields, "Cc", m.cc);
    fields := fields + Optional("Cc", m.cc);
    headers := AppendHeader(headers, fields, "Subject", Sanitize(m.subject));
    fields := fields + [Field("Subject", " " + Sanitize(m.subject))];
    assert fields == EarlyFields(m);
    headers := AppendIfPresent(headers, fields, "In-Reply-To", m.inReplyTo);
    fields := fields + Optional("In-Reply-To", m.inReplyTo);
    headers := AppendIfPresent(headers, fields, "References", m.references);
    fields := fields + Optional("References", m.references);
    assert fields == EarlyFields(m) + ThreadFields(m);
    headers := headers + FIXED_LINES;
    FixedLines();
    FieldLinesAppend(fields, FIXED_FIELDS);
    return Join(headers, CRLF) + CRLF + CRLF + NormalizeBody(m.body);
  }

  method AppendHeader(headers: seq<string>, ghost fields: seq<Field>, name: string, value: string) returns (r: seq<string>)
    requires headers == FieldLines(fields)
    ensures r == FieldLines(fields + [Field(name, " " + value)])
  {
    FieldLinesAppend(fields, [Field(name, " " + value)]);
    FieldLineOf(name, value);
    return headers + [name + ": " + value];
  }

  method AppendIfPresent(headers: seq<string>, ghost fields: seq<Field>, name: string, value: string) returns (r: seq<string>)
    requires headers == FieldLines(fields)
    ensures r == FieldLines(fields + Optional(name, value))
  {
    if value == "" {
      assert fields + Optional(name, value) == fields;
      return headers;
    }
    r := AppendHeader(headers, fields, name, Sanitize(value));
  }

  /** Reads header lines up to the first empty one (sections 2.1 and 2.2 of RFC 5322); None if a line has no colon. */
  function ReadMessage(raw: string): Option<(seq<Field>, string)>
    decreases |raw|
  {
    match Find(raw, CRLF)
    case None => None
    case Some(0) => Some(([], raw[2..]))
    case Some(n) =>
      var line := raw[..n];
      match Find(line, ":")
      case None => None
      case Some(colon) =>
        match ReadMessage(raw[n + 2..])
        case None => None
        case Some((fields, body)) => Some(([Field(line[..colon], line[colon + 1..])] + fields, body))
  }

  ghost predicate Printable(f: Field) {
    f.name != "" && ':' !in f.name && Unbroken(f.name) && Unbroken(f.value)
  }

  lemma ReadLine(f: Field, rest: string)
    requires Printable(f)
    ensures ReadMessage(FieldLine(f) + CRLF + rest) ==
            match ReadMessage(rest)
            case None => None
            case Some((fields, body)) => Some(([f] + fields, body))
  {
    var line := FieldLine(f);
    var raw := line + CRLF + rest;
    assert Find(raw, CRLF) == Some(|line|) by {
      FindFirst(line, CRLF, rest);
    }
    assert Find(line, ":") == Some(|f.name|) by {
      FindFirst(f.name, ":", f.value);
    }
    assert raw[..|line|] == line && raw[|line| + 2..] == rest && |line| > 0;
    assert line[..|f.name|] == f.name && line[|f.name| + 1..] == f.value;
    ReadMessageSome(raw, |line|, |f.name|);
  }

  /** One unfolding of the reader. */
  lemma ReadMessageSome(raw: string, n: nat, colon: nat)
    requires n > 0 && Find(raw, CRLF) == Some(n) && Find(raw[..n], ":") == Some(colon)
    ensures ReadMessage(raw) ==
            match ReadMessage(raw[n + 2..])
            case None => None
            case Some((fields, body)) => Some(([Field(raw[..n][..colon], raw[..n][colon + 1..])] + fields, body))
  {}

  lemma PrintFirst(fields: seq<Field>, body: string)
    requires fields != []
    ensures Print(fields, body) ==
            FieldLine(fields[0]) + CRLF + if |fields| == 1 then CRLF + body else Print(fields[1..], body)
  {
    var line := FieldLine(fields[0]);
    var lines, rest := FieldLines(fields), FieldLines(fields[1..]);
    assert lines == [line] + rest;
    if |fields| == 1 {
      assert Join(lines, CRLF) == line;
      assert line + CRLF + CRLF + body == line + CRLF + (CRLF + body);
    } else {
      assert lines[1..] == rest;
      assert Join(lines, CRLF) == line + CRLF + Join(rest, CRLF);
      assert line + CRLF + Join(rest, CRLF) + CRLF + CRLF + body == line + CRLF + (Join(rest, CRLF) + CRLF + CRLF + body);
    }
  }

  lemma {:induction false} ReadPrinted(fields: seq<Field>, body: string)
    requires fields != [] && forall f | f in fields :: Printable(f)
    ensures ReadMessage(Print(fields, body)) == Some((fields, body))
  {
    PrintFirst(fields, body);
    assert Printable(fields[0]);
    assert fields == [fields[0]] + fields[1..];
    if |fields| == 1 {
      ReadLine(fields[0], CRLF + body);
      FindFirst("", CRLF, body);
      assert CRLF + body == "" + CRLF + body;
      assert (CRLF + body)[2..] == body;
    } else {
      ReadPrinted(fields[1..], body);
      ReadLine(fields[0], Print(fields[1..], body));
    }
  }

  lemma ValuePrintable(name: string, value: string)
    requires name != "" && ':' !in name && Unbroken(name) && Unbroken(value)
    ensures Printable(Field(name, " " + value))
  {}

  lemma MimeVersionIsPrintable()
    ensures Printable(FIXED_FIELDS[0])
  {
    ValuePrintable("MIME-Version", "1.0");
  }

  lemma ContentTypeValueIsUnbroken()
    ensures Unbroken("text/plain; charset=UTF-8")
  {}

  lemma ContentTypeIsPrintable()
    ensures Printable(FIXED_FIELDS[1])
  {
    ContentTypeValueIsUnbroken();
    ValuePrintable("Content-Type", "text/plain; charset=UTF-8");
  }

  lemma TransferEncodingHasNoColon()
    ensures ':' !in "Content-Transfer-Encoding"
  {}

  lemma TransferEncodingIsUnbroken()
    ensures Unbroken("Content-Transfer-Encoding")
  {}

  lemma TransferEncodingIsPrintable()
    ensures Printable(FIXED_FIELDS[2])
  {
    TransferEncodingHasNoColon();
    TransferEncodingIsUnbroken();
    ValuePrintable("Content-Transfer-Encoding", "8bit");
  }

  lemma FixedFieldsArePrintable()
    ensures forall f | f in FIXED_FIELDS :: Printable(f)
  {
    MimeVersionIsPrintable();
    ContentTypeIsPrintable();
    TransferEncodingIsPrintable();
    forall i | 0 <= i < |FIXED_FIELDS|
      ensures Printable(FIXED_FIELDS[i])
    {
      assert i == 0 || i == 1 || i == 2;
    }
  }

  lemma OptionalIsPrintable(name: string, value: string)
    requires name != "" && ':' !in name && Unbroken(name)
    ensures forall f | f in Optional(name, value) :: Printable(f)
  {
    ValuePrintable(name, Sanitize(value));
  }

  lemma EarlyFieldsArePrintable(m: Message)
    requires Unbroken(m.from) && Unbroken(m.to)
    ensures forall f | f in EarlyFields(m) :: Printable(f)
  {
    ValuePrintable("From", m.from);
    ValuePrintable("To", m.to);
    OptionalIsPrintable("Cc", m.cc);
    ValuePrintable("Subject", Sanitize(m.subject));
  }

  lemma ThreadFieldsArePrintable(m: Message)
    ensures forall f | f in ThreadFields(m) :: Printable(f)
  {
    OptionalIsPrintable("In-Reply-To", m.inReplyTo);
    OptionalIsPrintable("References", m.references);
  }

  lemma FieldsArePrintable(m: Message)
    requires Unbroken(m.from) && Unbroken(m.to)
    ensures forall f | f in Fields(m) :: Printable(f)
  {
    EarlyFieldsArePrintable(m);
    ThreadFieldsArePrintable(m);
    FixedFieldsArePrintable();
  }

  /**
   * A header reader recovers exactly the sanitised fields, in order, and the
   * normalised body, and the whole message has no bare CR or LF.
   */
  lemma BuiltMessageReadsBack(m: Message)
    requires Unbroken(m.from) && Unbroken(m.to)
    ensures ReadMessage(Print(Fields(m), NormalizeBody(m.body))) == Some((Fields(m), NormalizeBody(m.body)))
    ensures NoBareBreaks(Print(Fields(m), NormalizeBody(m.body)))
  {
    FieldsArePrintable(m);
    ReadPrinted(Fields(m), NormalizeBody(m.body));
    var lines := FieldLines(Fields(m));
    FieldLinesUnbroken(Fields(m));
    JoinedLinesHaveNoBareBreaks(lines);
    NormalizedExactly(m.body);
    NoBareBreaksConcat(Join(lines, CRLF), CRLF);
    NoBareBreaksConcat(Join(lines, CRLF) + CRLF, CRLF);
    NoBareBreaksConcat(Join(lines, CRLF) + CRLF + CRLF, NormalizeBody(m.body));
  }

  lemma {:induction false} FieldLinesUnbroken(fields: seq<Field>)
    requires forall f | f in fields :: Printable(f)
    ensures forall line | line in FieldLines(fields) :: Unbroken(line)
  {
    if fields != [] {
      assert Printable(fields[0]);
      FieldLinesUnbroken(fields[1..]);
    }
  }

  /** The value of the first field of that name, trimmed; "" if there is none. */
  function Header(fields: seq<Field>, name: string): string {
    if fields == [] then ""
    else if ToLower(fields[0].name) == ToLower(name) then TrimSpace(fields[0].value)
    else Header(fields[1..], name)
  }

  /** Names told apart by their length or, whatever the case, their first letter. */
  predicate DifferentNames(a: string, b: string) {
    |a| != |b| || (a != "" && ToLower(a)[0] != ToLower(b)[0])
  }

  predicate Lacks(fields: seq<Field>, name: string) {
    forall f | f in fields :: DifferentNames(f.name, name)
  }

  lemma {:induction false} HeaderSkips(before: seq<Field>, after: seq<Field>, name: string)
    requires Lacks(before, name)
    ensures Header(before + after, name) == Header(after, name)
  {
    if before == [] {
      assert before + after == after;
    } else {
      assert before[0] in before;
      assert (before + after)[1..] == before[1..] + after;
      assert |ToLower(before[0].name)| == |before[0].name| && |ToLower(name)| == |name|;
      HeaderSkips(before[1..], after, name);
    }
  }

  lemma HeaderAfter(before: seq<Field>, f: Field, after: seq<Field>)
    requires Lacks(before, f.name)
    ensures Header(before + ([f] + after), f.name) == TrimSpace(f.value)
  {
    HeaderSkips(before, [f] + after, f.name);
    assert ([f] + after)[0] == f;
  }

  lemma HeaderAbsent(fields: seq<Field>, name: string)
    requires Lacks(fields, name)
    ensures Header(fields, name) == ""
  {
    HeaderSkips(fields, [], name);
    assert fields + [] == fields;
  }

  lemma TrimOfPadded(value: string)
    ensures TrimSpace(" " + value) == TrimSpace(value)
  {
    assert (" " + value)[1..] == value;
  }

  /** A field that may be missing, among fields of other names. */
  lemma OptionalHeader(before: seq<Field>, name: string, value: string, after: seq<Field>)
    requires Lacks(before, name) && Lacks(after, name)
    ensures Header(before + (Optional(name, value) + after), name) == TrimSpace(Sanitize(value))
  {
    if value == "" {
      assert Optional(name, value) + after == after;
      assert forall f | f in before + after :: f in before || f in after;
      HeaderAbsent(before + after, name);
      assert Sanitize(value) == "";
    } else {
      HeaderAfter(before, Field(name, " " + Sanitize(value)), after);
      TrimOfPadded(Sanitize(value));
    }
  }

  lemma AddresseeHeaders(m: Message)
    ensures Header(Fields(m), "From") == TrimSpace(m.from) && Header(Fields(m), "To") == TrimSpace(m.to)
  {
    var from, to := Field("From", " " + m.from), Field("To", " " + m.to);
    var after := Optional("Cc", m.cc) + [Field("Subject", " " + Sanitize(m.subject))] + ThreadFields(m) + FIXED_FIELDS;
    assert Fields(m) == [] + ([from] + ([to] + after));
    HeaderAfter([], from, [to] + after);
    assert Fields(m) == [from] + ([to] + after);
    HeaderAfter([from], to, after);
    TrimOfPadded(m.from);
    TrimOfPadded(m.to);
  }

  lemma FixedNames(name: string)
    requires |name| !in {12, 25}
    ensures Lacks(FIXED_FIELDS, name)
  {}

  lemma ThreadNames(m: Message, name: string)
    requires |name| !in {10, 11}
    ensures Lacks(ThreadFields(m), name)
  {}

  lemma JoinedNames(a: seq<Field>, b: seq<Field>, name: string)
    requires Lacks(a, name) && Lacks(b, name)
    ensures Lacks(a + b, name)
  {}

  lemma FieldsAroundCopy(m: Message)
    ensures var head := [Field("From", " " + m.from), Field("To", " " + m.to)];
            var rest := [Field("Subject", " " + Sanitize(m.subject))] + (ThreadFields(m) + FIXED_FIELDS);
            Fields(m) == head + (Optional("Cc", m.cc) + rest) == (head + Optional("Cc", m.cc)) + rest
  {}

  lemma NamesAfterCopy(m: Message)
    ensures Lacks([Field("Subject", " " + Sanitize(m.subject))] + (ThreadFields(m) + FIXED_FIELDS), "Cc")
  {
    ThreadNames(m, "Cc");
    FixedNames("Cc");
    JoinedNames(ThreadFields(m), FIXED_FIELDS, "Cc");
    JoinedNames([Field("Subject", " " + Sanitize(m.subject))], ThreadFields(m) + FIXED_FIELDS, "Cc");
  }

  lemma CopyHeader(m: Message)
    ensures Header(Fields(m), "Cc") == TrimSpace(Sanitize(m.cc))
  {
    var head := [Field("From", " " + m.from), Field("To", " " + m.to)];
    FieldsAroundCopy(m);
    NamesAfterCopy(m);
    OptionalHeader(head, "Cc", m.cc, [Field("Subject", " " + Sanitize(m.subject))] + (ThreadFields(m) + FIXED_FIELDS));
  }

  lemma SubjectHeader(m: Message)
    ensures Header(Fields(m), "Subject") == TrimSpace(Sanitize(m.subject))
  {
    var head := [Field("From", " " + m.from), Field("To", " " + m.to)] + Optional("Cc", m.cc);
    FieldsAroundCopy(m);
    HeaderAfter(head, Field("Subject", " " + Sanitize(m.subject)), ThreadFields(m) + FIXED_FIELDS);
    TrimOfPadded(Sanitize(m.subject));
  }

  lemma EarlyNames(m: Message, name: string)
    requires |name| > 7
    ensures Lacks(EarlyFields(m), name)
  {}

  lemma FieldsAroundThread(m: Message)
    ensures var parent, refs := Optional("In-Reply-To", m.inReplyTo), Optional("References", m.references);
            Fields(m) == EarlyFields(m) + (parent + (refs + FIXED_FIELDS)) == (EarlyFields(m) + parent) + (refs + FIXED_FIELDS)
  {}

  lemma ThreadHeaders(m: Message)
    ensures Header(Fields(m), "In-Reply-To") == TrimSpace(Sanitize(m.inReplyTo))
    ensures Header(Fields(m), "References") == TrimSpace(Sanitize(m.references))
  {
    var early, parent, refs := EarlyFields(m), Optional("In-Reply-To", m.inReplyTo), Optional("References", m.references);
    FieldsAroundThread(m);
    EarlyNames(m, "In-Reply-To");
    EarlyNames(m, "References");
    FixedNames("In-Reply-To");
    FixedNames("References");
    JoinedNames(refs, FIXED_FIELDS, "In-Reply-To");
    OptionalHeader(early, "In-Reply-To", m.inReplyTo, refs + FIXED_FIELDS);
    JoinedNames(early, parent, "References");
    OptionalHeader(early + parent, "References", m.references, FIXED_FIELDS);
  }

  lemma FixedHeaders(m: Message)
    ensures Header(Fields(m), "MIME-Version") == "1.0"
    ensures Header(Fields(m), "Content-Type") == "text/plain; charset=UTF-8"
    ensures Header(Fields(m), "Content-Transfer-Encoding") == "8bit"
  {
    var head := EarlyFields(m) + ThreadFields(m);
    HeadNames(m, "MIME-Version");
    HeadNames(m, "Content-Type");
    HeadNames(m, "Content-Transfer-Encoding");
    FixedHeaderAfter(head, "MIME-Version");
    FixedHeaderAfter(head, "Content-Type");
    FixedHeaderAfter(head, "Content-Transfer-Encoding");
    FixedVersion();
    FixedKind();
    FixedEncoding();
  }

  lemma FixedHeaderAfter(head: seq<Field>, name: string)
    requires Lacks(head, name)
    ensures Header(head + FIXED_FIELDS, name) == Header(FIXED_FIELDS, name)
  {
    HeaderSkips(head, FIXED_FIELDS, name);
  }

  lemma CleanHeader(before: seq<Field>, name: string, value: string, after: seq<Field>)
    requires Lacks(before, name) && value != "" && !IsSpace(value[0]) && !IsSpace(value[|value| - 1])
    ensures Header(before + ([Field(name, " " + value)] + after), name) == value
  {
    HeaderAfter(before, Field(name, " " + value), after);
    TrimOneSpace(value);
  }

  lemma FixedVersion()
    ensures Header(FIXED_FIELDS, "MIME-Version") == "1.0"
  {
    assert FIXED_FIELDS == [] + ([FIXED_FIELDS[0]] + FIXED_FIELDS[1..]);
    CleanHeader([], "MIME-Version", "1.0", FIXED_FIELDS[1..]);
  }

  lemma FixedKind()
    ensures Header(FIXED_FIELDS, "Content-Type") == "text/plain; charset=UTF-8"
  {
    assert FIXED_FIELDS == FIXED_FIELDS[..1] + ([FIXED_FIELDS[1]] + FIXED_FIELDS[2..]);
    CleanHeader(FIXED_FIELDS[..1], "Content-Type", "text/plain; charset=UTF-8", FIXED_FIELDS[2..]);
  }

  lemma FixedEncoding()
    ensures Header(FIXED_FIELDS, "Content-Transfer-Encoding") == "8bit"
  {
    assert FIXED_FIELDS == FIXED_FIELDS[..2] + ([FIXED_FIELDS[2]] + FIXED_FIELDS[3..]);
    CleanHeader(FIXED_FIELDS[..2], "Content-Transfer-Encoding", "8bit", FIXED_FIELDS[3..]);
  }

  lemma HeadNames(m: Message, name: string)
    requires |name| > 11
    ensures Lacks(EarlyFields(m) + ThreadFields(m), name)
  {
    EarlyNames(m, name);
    ThreadNames(m, name);
    JoinedNames(EarlyFields(m), ThreadFields(m), name);
  }

  /** What a reader of a built message finds under each name: the sanitised values, but for white space around them. */
  lemma HeadersReadBack(m: Message)
    requires Unbroken(m.from) && Unbroken(m.to)
    ensures var read := ReadMessage(Print(Fields(m), NormalizeBody(m.body)));
            && read.Some?
            && var headers := read.value.0;
            && Header(headers, "From") == TrimSpace(m.from)
            && Header(headers, "To") == TrimSpace(m.to)
            && Header(headers, "Cc") == TrimSpace(Sanitize(m.cc))
            && Header(headers, "Subject") == TrimSpace(Sanitize(m.subject))
            && Header(headers, "In-Reply-To") == TrimSpace(Sanitize(m.inReplyTo))
            && Header(headers, "References") == TrimSpace(Sanitize(m.references))
            && Header(headers, "MIME-Version") == "1.0"
            && Header(headers, "Content-Type") == "text/plain; charset=UTF-8"
            && Header(headers, "Content-Transfer-Encoding") == "8bit"
  {
    FixedHeaders(m);
    BuiltMessageReadsBack(m);
    AddresseeHeaders(m);
    CopyHeader(m);
    SubjectHeader(m);
    ThreadHeaders(m);
  }

  // ----- Quoting -----

  function Trimmed(lines: seq<string>): (r: seq<string>)
    ensures |r| == |lines|
    ensures forall i | 0 <= i < |r| :: r[i] == TrimRight(lines[i], '\r')
  {
    if lines == [] then [] else [TrimRight(lines[0], '\r')] + Trimmed(lines[1..])
  }

  function Prefixed(lines: seq<string>): (r: seq<string>)
    ensures |r| == |lines|
    ensures forall i | 0 <= i < |r| :: r[i] == "> " + lines[i]
  {
    if lines == [] then [] else ["> " + lines[0]] + Prefixed(lines[1..])
  }

  /** The lines of the original body that a reply quotes. */
  function QuotableLines(body: string): seq<string> {
    Trimmed(Split(body, "\n"))
  }

  function Intro(date: string, from: string): string {
    "On " + date + ", " + from + " wrote:"
  }

  /** Two empty lines, the introduction, and the quoted lines. */
  function QuotedLines(date: string, from: string, body: string): seq<string> {
    ["", "", Intro(date, from)] + Prefixed(QuotableLines(body))
  }

  /** quotedReplyBody; date is the formatted date of the original. */
  method QuotedReplyBody(date: string, from: string, body: string) returns (r: string)
    ensures r == Join(QuotedLines(date, from, body), "\n")
    ensures r == "\n\nOn " + date + ", " + from + " wrote:\n" + Join(Prefixed(QuotableLines(body)), "\n")
  {
    IntroducedQuote(date, from, Prefixed(QuotableLines(body)));
    var lines := Split(body, "\n");
    ghost var marked := Prefixed(QuotableLines(body));
    var head := ["", "", Intro(date, from)];
    var quoted := head;
    for i := 0 to |lines|
      invariant quoted == head + marked[..i]
    {
      quoted := quoted + ["> " + TrimRight(lines[i], '\r')];
      assert marked[..i + 1] == marked[..i] + ["> " + TrimRight(lines[i], '\r')];
    }
    assert marked[..|lines|] == marked;
    return Join(quoted, "\n");
  }

  lemma IntroducedQuote(date: string, from: string, quoted: seq<string>)
    requires quoted != []
    ensures Join(["", "", Intro(date, from)] + quoted, "\n") == "\n\nOn " + date + ", " + from + " wrote:\n" + Join(quoted, "\n")
  {
    var all, intro := ["", "", Intro(date, from)] + quoted, Intro(date, from);
    assert all[1..][1..][1..] == quoted;
    assert Join(all[1..][1..], "\n") == intro + "\n" + Join(quoted, "\n");
    assert Join(all[1..], "\n") == "" + "\n" + Join(all[1..][1..], "\n");
    assert Join(all, "\n") == "" + "\n" + Join(all[1..], "\n");
  }

  lemma TrimmedTo(ended: seq<string>, lines: seq<string>)
    requires |ended| == |lines| && forall line | line in lines :: Unbroken(line)
    requires forall i | 0 <= i < |lines| :: ended[i] == lines[i] || ended[i] == lines[i] + "\r"
    ensures Trimmed(ended) == lines
  {
    forall i | 0 <= i < |lines|
      ensures Trimmed(ended)[i] == lines[i]
    {
      assert lines[i] in lines;
      TrimRightExactly(lines[i]);
    }
  }

  lemma EndedLines(ended: seq<string>, lines: seq<string>)
    requires |ended| == |lines| > 0 && forall line | line in lines :: Unbroken(line)
    requires forall i | 0 <= i < |lines| :: ended[i] == lines[i] || ended[i] == lines[i] + "\r"
    ensures QuotableLines(Join(ended, "\n")) == lines
  {
    forall i | 0 <= i < |ended|
      ensures '\n' !in ended[i]
    {
      assert lines[i] in lines;
    }
    SplitJoin(ended, "\n");
    TrimmedTo(ended, lines);
  }

  /** The quoted lines are those of the text, whether LF or CRLF ends them. */
  lemma QuotableLinesOfText(lines: seq<string>, sep: string)
    requires lines != [] && sep in {"\n", CRLF} && forall line | line in lines :: Unbroken(line)
    ensures QuotableLines(Join(lines, sep)) == lines
  {
    if sep == "\n" {
      EndedLines(lines, lines);
    } else {
      EndedByCrJoins(lines);
      EndedLines(EndedByCr(lines), lines);
    }
  }

  /** Every line but the last with a CR at its end. */
  function EndedByCr(lines: seq<string>): (r: seq<string>)
    ensures |r| == |lines|
    ensures forall i | 0 <= i < |r| :: r[i] == if i == |r| - 1 then lines[i] else lines[i] + "\r"
  {
    if |lines| <= 1 then lines else [lines[0] + "\r"] + EndedByCr(lines[1..])
  }

  lemma {:induction false} EndedByCrJoins(lines: seq<string>)
    ensures Join(EndedByCr(lines), "\n") == Join(lines, CRLF)
  {
    if |lines| > 1 {
      var ended := EndedByCr(lines);
      EndedByCrJoins(lines[1..]);
      assert ended[1..] == EndedByCr(lines[1..]);
      assert lines[0] + "\r" + "\n" == lines[0] + CRLF;
    }
  }

  lemma TrimRightExactly(line: string)
    requires Unbroken(line)
    ensures TrimRight(line, '\r') == line && TrimRight(line + "\r", '\r') == line
  {
    assert (line + "\r")[..|line|] == line;
  }

  /** Undoes the quoting on received text: splits at CRLF, drops three lines and each "> ". */
  function Unquote(received: string): seq<string> {
    var lines := Split(received, CRLF);
    if |lines| < 3 then [] else Unprefixed(lines[3..])
  }

  function Unprefixed(lines: seq<string>): (r: seq<string>)
    ensures |r| == |lines|
    ensures forall i | 0 <= i < |r| :: r[i] == if HasPrefix(lines[i], "> ") then lines[i][2..] else lines[i]
  {
    if lines == [] then []
    else [if HasPrefix(lines[0], "> ") then lines[0][2..] else lines[0]] + Unprefixed(lines[1..])
  }

  lemma UnprefixedPrefixed(lines: seq<string>)
    ensures Unprefixed(Prefixed(lines)) == lines
  {
    forall i | 0 <= i < |lines|
      ensures Unprefixed(Prefixed(lines))[i] == lines[i]
    {
      assert HasPrefix("> " + lines[i], "> ");
    }
  }

  lemma UnprefixedUnbroken(lines: seq<string>)
    requires forall line | line in lines :: Unbroken(line)
    ensures forall line | line in Unprefixed(lines) :: Unbroken(line)
  {
    forall i | 0 <= i < |lines|
      ensures Unbroken(Unprefixed(lines)[i])
    {
      assert lines[i] in lines;
    }
  }

  lemma QuotedLinesUnbroken(date: string, from: string, body: string)
    requires Unbroken(date) && Unbroken(from)
    requires forall line | line in QuotableLines(body) :: '\r' !in line
    ensures forall line | line in QuotedLines(date, from, body) :: Unbroken(line)
  {
    SplitPartsLackSeparator(body, "\n");
    var original := QuotableLines(body);
    forall i | 0 <= i < |original|
      ensures Unbroken(Prefixed(original)[i])
    {
      assert original[i] in original && Split(body, "\n")[i] in Split(body, "\n");
    }
  }

  /**
   * After the round trip through the mail server, removing the quote marks
   * gives back every line of the original, if and only if the original has
   * CRs at line ends only.
   */
  lemma QuoteRoundTrip(date: string, from: string, body: string)
    requires Unbroken(date) && Unbroken(from)
    ensures var original := QuotableLines(body);
            var sent := Join(QuotedLines(date, from, body), "\n");
            (Unquote(NormalizeBody(sent)) == original) <==> (forall line | line in original :: '\r' !in line)
  {
    var original, parts := QuotableLines(body), QuotedLines(date, from, body);
    var sent := Join(parts, "\n");
    NormalizedSplit(sent);
    LinesAreUnbroken(sent);
    if Unquote(NormalizeBody(sent)) == original {
      assert original != [];
      assert forall line | line in Lines(sent)[3..] :: line in Lines(sent);
      UnprefixedUnbroken(Lines(sent)[3..]);
    }
    if forall line | line in original :: '\r' !in line {
      QuotedLinesUnbroken(date, from, body);
      LinesOfJoined(parts, "\n");
      assert Lines(sent)[3..] == Prefixed(original);
      UnprefixedPrefixed(original);
    }
  }

  lemma {:induction false} SplitPartsLackSeparator(s: string, sep: string)
    requires |sep| == 1
    ensures forall part | part in Split(s, sep) :: sep[0] !in part
    decreases |s|
  {
    FoundBefore(s, sep);
    var f := Find(s, sep);
    if f.Some? {
      SplitPartsLackSeparator(s[f.value + 1..], sep);
    }
  }

  lemma {:induction false} FoundBefore(s: string, sep: string)
    requires |sep| == 1
    ensures match Find(s, sep)
            case None => sep[0] !in s
            case Some(i) => sep[0] !in s[..i]
  {
    if s != "" && s[..1] != sep {
      FoundBefore(s[1..], sep);
      assert s[..1][0] == s[0];
      assert s == [s[0]] + s[1..];
      if Find(s, sep).Some? {
        assert s[..Find(s, sep).value] == [s[0]] + s[1..][..Find(s[1..], sep).value];
      }
    } else if s != "" {
      assert Find(s, sep) == Some(0);
    }
  }
}
