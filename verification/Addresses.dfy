/**
 * Address lists: printing them for display, choosing reply and reply-all
 * recipients, and the envelope recipients the mail server is told.
 */
module Addresses {
  import opened Prelude
  import opened Strings

  /**
   * The library functions in use: net/mail.ParseAddressList (the Address
   * fields, or None on error) and strings.ToLower.
   */
  datatype Lib = Lib(parseList: string -> Option<seq<string>>, lower: string -> string)

  // ----- A small address grammar -----

  predicate IsAtext(c: char) {
    'a' <= c <= 'z' || 'A' <= c <= 'Z' || '0' <= c <= '9' || c in "!#$%&'*+-/=?^_`{|}~"
  }

  /** Atoms separated by single dots (section 3.2.3 of RFC 5322). */
  predicate IsDotAtom(s: string) {
    && s != "" && s[0] != '.' && s[|s| - 1] != '.'
    && (forall i | 0 <= i < |s| :: IsAtext(s[i]) || s[i] == '.')
    && (forall i | 0 <= i < |s| - 1 :: s[i] != '.' || s[i + 1] != '.')
  }

  predicate IsAddress(s: string) {
    match Find(s, "@")
    case None => false
    case Some(i) => IsDotAtom(s[..i]) && IsDotAtom(s[i + 1..])
  }

  /** A display name made of atoms and spaces. */
  predicate IsName(s: string) {
    forall i | 0 <= i < |s| :: IsAtext(s[i]) || s[i] == ' '
  }

  function SkipSpace(s: string): (r: string)
    ensures |r| <= |s|
  {
    if s != "" && (s[0] == ' ' || s[0] == '\t') then SkipSpace(s[1..]) else s
  }

  /** The index of the first character of s among stops, or |s|. */
  function Span(s: string, stops: string): (n: nat)
    ensures n <= |s|
  {
    if s == "" || s[0] in stops then 0 else 1 + Span(s[1..], stops)
  }

  /** A display name, and the text from the opening bracket on. */
  function ReadAngled(name: string, angled: string): (r: Option<(string, string)>)
    ensures r.Some? ==> |r.value.1| < |angled|
  {
    var m := Span(angled, ">");
    if 0 < m < |angled| && IsName(name) && IsAddress(angled[1..m]) then Some((angled[1..m], angled[m + 1..])) else None
  }

  function ReadBare(text: string, rest: string): (r: Option<(string, string)>)
    ensures r.Some? ==> r.value.1 == rest && text != ""
  {
    var address := TrimSpace(text);
    if text != "" && IsAddress(address) then Some((address, rest)) else None
  }

  /** One mailbox, and the rest of the text (a subset of section 3.4 of RFC 5322). */
  function ParseMailbox(s: string): (r: Option<(string, string)>)
    ensures r.Some? ==> |r.value.1| < |s|
  {
    var n := Span(s, "<,");
    if n < |s| && s[n] == '<' then ReadAngled(s[..n], s[n..]) else ReadBare(s[..n], s[n..])
  }

  function ParseList(s: string): Option<seq<string>>
    decreases |s|
  {
    match ParseMailbox(SkipSpace(s))
    case None => None
    case Some((address, rest)) =>
      var rest' := SkipSpace(rest);
      if rest' == "" then Some([address])
      else if rest'[0] != ',' then None
      else
        match ParseList(rest'[1..])
        case None => None
        case Some(addresses) => Some([address] + addresses)
  }

  // ----- Printing -----

  datatype Address = Address(personalName: string, mailboxName: string, hostName: string)

  function Email(a: Address): string {
    a.mailboxName + "@" + a.hostName
  }

  /** Both halves of the address are there. */
  predicate IsComplete(a: Option<Address>) {
    a.Some? && a.value.mailboxName != "" && a.value.hostName != ""
  }

  /** formatAddress; None is a nil pointer. */
  function FormatAddress(a: Option<Address>): string {
    if !IsComplete(a) then ""
    else if a.value.personalName != "" then a.value.personalName + " <" + Email(a.value) + ">"
    else Email(a.value)
  }

  /** The display of an address: its name, if it has one, before the address in angle brackets. */
  lemma AddressText(a: Option<Address>)
    ensures a.None? || a.value.mailboxName == "" || a.value.hostName == "" ==> FormatAddress(a) == ""
    ensures a.Some? && a.value.mailboxName != "" && a.value.hostName != "" ==>
              var email := a.value.mailboxName + "@" + a.value.hostName;
              FormatAddress(a) == if a.value.personalName == "" then email else a.value.personalName + " <" + email + ">"
  {}

  function Complete(addresses: seq<Option<Address>>): seq<Address> {
    if addresses == [] then []
    else (if IsComplete(addresses[0]) then [addresses[0].value] else []) + Complete(addresses[1..])
  }

  function Formats(addresses: seq<Address>): (r: seq<string>)
    ensures |r| == |addresses|
  {
    if addresses == [] then [] else [FormatAddress(Some(addresses[0]))] + Formats(addresses[1..])
  }

  function Emails(addresses: seq<Address>): (r: seq<string>)
    ensures |r| == |addresses|
  {
    if addresses == [] then [] else [Email(addresses[0])] + Emails(addresses[1..])
  }

  lemma {:induction false} CompleteAppend(addresses: seq<Option<Address>>, more: seq<Option<Address>>)
    ensures Complete(addresses + more) == Complete(addresses) + Complete(more)
  {
    if addresses == [] {
      assert addresses + more == more;
    } else {
      var first := if IsComplete(addresses[0]) then [addresses[0].value] else [];
      var all := addresses + more;
      assert all[0] == addresses[0] && all[1..] == addresses[1..] + more;
      assert Complete(all) == first + Complete(all[1..]);
      CompleteAppend(addresses[1..], more);
      assert first + (Complete(addresses[1..]) + Complete(more)) == (first + Complete(addresses[1..])) + Complete(more);
    }
  }

  lemma {:induction false} FormatsAppend(addresses: seq<Address>, more: seq<Address>)
    ensures Formats(addresses + more) == Formats(addresses) + Formats(more)
  {
    if addresses == [] {
      assert addresses + more == more;
    } else {
      assert (addresses + more)[1..] == addresses[1..] + more;
      FormatsAppend(addresses[1..], more);
    }
  }

  lemma OneMoreFormatted(addresses: seq<Option<Address>>, i: nat)
    requires i < |addresses|
    ensures Formats(Complete(addresses[..i + 1]))
         == Formats(Complete(addresses[..i])) + if FormatAddress(addresses[i]) == "" then [] else [FormatAddress(addresses[i])]
  {
    var a := addresses[i];
    assert addresses[..i + 1] == addresses[..i] + [a];
    CompleteAppend(addresses[..i], [a]);
    FormatsAppend(Complete(addresses[..i]), Complete([a]));
    assert Complete([a]) == if IsComplete(a) then [a.value] else [];
  }

  /** formatAddresses: drops incomplete addresses. */
  method FormatAddresses(addresses: seq<Option<Address>>) returns (r: string)
    ensures r == Join(Formats(Complete(addresses)), ", ")
  {
    if |addresses| == 0 {
      return "";
    }
    var parts: seq<string> := [];
    for i := 0 to |addresses|
      invariant parts == Formats(Complete(addresses[..i]))
    {
      OneMoreFormatted(addresses, i);
      var formatted := FormatAddress(addresses[i]);
      if formatted != "" {
        parts := parts + [formatted];
      }
    }
    assert addresses[..|addresses|] == addresses;
    return Join(parts, ", ");
  }

  /** Addresses the small grammar can print and read. */
  predicate IsPlain(a: Address) {
    IsName(a.personalName) && IsDotAtom(a.mailboxName) && IsDotAtom(a.hostName)
  }

  lemma AtextIsOrdinary(c: char)
    requires IsAtext(c) || c == '.'
    ensures c !in "<,>@ \t" && !IsSpace(c)
  {}

  lemma DotAtomIsOrdinary(s: string)
    requires IsDotAtom(s)
    ensures forall c | c in s :: c !in "<,>@ \t" && !IsSpace(c)
  {
    forall c | c in s
      ensures c !in "<,>@ \t" && !IsSpace(c)
    {
      AtextIsOrdinary(c);
    }
  }

  lemma EmailIsOrdinary(a: Address)
    requires IsPlain(a)
    ensures forall c | c in Email(a) :: c !in "<,> \t" && !IsSpace(c)
  {
    DotAtomIsOrdinary(a.mailboxName);
    DotAtomIsOrdinary(a.hostName);
  }

  lemma AroundAt(local: string, domain: string)
    requires '@' !in local
    ensures var s := local + "@" + domain;
            Find(s, "@") == Some(|local|) && s[..|local|] == local && s[|local| + 1..] == domain
  {
    FindFirst(local, "@", domain);
  }

  lemma EmailIsAddress(a: Address)
    requires IsPlain(a)
    ensures IsAddress(Email(a))
  {
    assert '@' !in a.mailboxName by {
      DotAtomIsOrdinary(a.mailboxName);
    }
    AroundAt(a.mailboxName, a.hostName);
  }

  lemma {:induction false} SpanIs(a: string, rest: string, stops: string)
    requires forall c | c in a :: c !in stops
    requires rest == "" || rest[0] in stops
    ensures Span(a + rest, stops) == |a|
  {
    if a != "" {
      assert a[0] in a;
      assert (a + rest)[1..] == a[1..] + rest;
      SpanIs(a[1..], rest, stops);
    }
  }

  /** A printed address is read back, whatever list follows it. */
  lemma ParsePrinted(a: Address, rest: string)
    requires IsPlain(a) && (rest == "" || rest[0] == ',')
    ensures ParseMailbox(SkipSpace(FormatAddress(Some(a)) + rest)) == Some((Email(a), rest))
  {
    EmailIsAddress(a);
    EmailIsOrdinary(a);
    if a.personalName == "" {
      ParseBare(Email(a), rest);
    } else {
      ParseNamed(a.personalName, Email(a), rest);
    }
  }

  lemma ParseBare(email: string, rest: string)
    requires IsAddress(email) && email != "" && (rest == "" || rest[0] == ',')
    requires forall c | c in email :: c !in "<,> \t" && !IsSpace(c)
    ensures ParseMailbox(SkipSpace(email + rest)) == Some((email, rest))
  {
    var s := email + rest;
    assert s[0] in email;
    assert SkipSpace(s) == s;
    SpanIs(email, rest, "<,");
    assert s[..|email|] == email && s[|email|..] == rest;
    assert email[0] in email && email[|email| - 1] in email;
    TrimNothing(email);
  }

  lemma NamesHaveNoStops(name: string)
    requires IsName(name)
    ensures forall c | c in name :: c !in "<," && c != '\t'
  {
    forall c | c in name
      ensures c !in "<," && c != '\t'
    {
      if c != ' ' { AtextIsOrdinary(c); }
    }
  }

  /** Skipping spaces drops a prefix of the name only. */
  lemma {:induction false} SkipName(name: string, rest: string) returns (shorter: string)
    requires IsName(name) && rest != "" && rest[0] == '<'
    ensures IsName(shorter) && SkipSpace(name + rest) == shorter + rest
  {
    if name != "" && name[0] == ' ' {
      assert (name + rest)[1..] == name[1..] + rest;
      shorter := SkipName(name[1..], rest);
    } else {
      shorter := name;
      if name != "" { AtextIsOrdinary(name[0]); }
      assert SkipSpace(name + rest) == name + rest;
    }
  }

  lemma MailboxIsAngled(name: string, angled: string)
    requires IsName(name) && angled != "" && angled[0] == '<'
    ensures ParseMailbox(name + angled) == ReadAngled(name, angled)
  {
    NamesHaveNoStops(name);
    SpanIs(name, angled, "<,");
    assert (name + angled)[..|name|] == name && (name + angled)[|name|..] == angled;
  }

  lemma AngledIsRead(name: string, email: string, rest: string)
    requires IsName(name) && IsAddress(email)
    requires forall c | c in email :: c !in "<,> \t"
    ensures ReadAngled(name, "<" + email + ">" + rest) == Some((email, rest))
  {
    var angled := "<" + email + ">" + rest;
    AngledSpan(email, rest);
    assert angled[1..1 + |email|] == email && angled[|email| + 2..] == rest;
  }

  lemma AngledSpan(email: string, rest: string)
    requires forall c | c in email :: c !in "<,> \t"
    ensures Span("<" + email + ">" + rest, ">") == 1 + |email|
  {
    assert "<" + email + ">" + rest == ("<" + email) + (">" + rest);
    SpanIs("<" + email, ">" + rest, ">");
  }

  lemma NameThenAngled(name: string, email: string, rest: string)
    ensures name + " <" + email + ">" + rest == (name + " ") + ("<" + email + ">" + rest)
  {}

  lemma ParseNamed(name: string, email: string, rest: string)
    requires IsName(name) && IsAddress(email)
    requires forall c | c in email :: c !in "<,> \t"
    ensures ParseMailbox(SkipSpace(name + " <" + email + ">" + rest)) == Some((email, rest))
  {
    var angled := "<" + email + ">" + rest;
    NameThenAngled(name, email, rest);
    var shorter := SkipName(name + " ", angled);
    MailboxIsAngled(shorter, angled);
    AngledIsRead(shorter, email, rest);
  }

  predicate ArePlain(addresses: seq<Address>) {
    addresses == [] || (IsPlain(addresses[0]) && ArePlain(addresses[1..]))
  }

  lemma ParseListLast(s: string, address: string)
    requires ParseMailbox(SkipSpace(s)) == Some((address, ""))
    ensures ParseList(s) == Some([address])
  {}

  lemma ParseListNext(s: string, address: string, rest: string, addresses: seq<string>)
    requires ParseMailbox(SkipSpace(s)) == Some((address, "," + rest))
    requires ParseList(rest) == Some(addresses)
    ensures ParseList(s) == Some([address] + addresses)
  {
    assert ("," + rest)[1..] == rest;
    assert SkipSpace("," + rest) == "," + rest;
  }

  lemma CommaFirst(f: string, tail: string)
    ensures f + ", " + tail == f + ("," + (" " + tail))
  {}

  lemma FirstPrinted(parts: seq<string>)
    requires |parts| > 1
    ensures Join(parts, ", ") == parts[0] + ("," + (" " + Join(parts[1..], ", ")))
  {
    CommaFirst(parts[0], Join(parts[1..], ", "));
  }

  lemma FormatsRest(addresses: seq<Address>)
    requires addresses != []
    ensures |Formats(addresses)| == |addresses|
    ensures Formats(addresses)[0] == FormatAddress(Some(addresses[0]))
    ensures Formats(addresses)[1..] == Formats(addresses[1..])
  {}

  lemma SkipIndent(indent: string, s: string)
    requires indent in {"", " "}
    ensures SkipSpace(indent + s) == SkipSpace(s)
  {
    assert (" " + s)[1..] == s && "" + s == s;
  }

  lemma ParseOne(a: Address, indent: string)
    requires IsPlain(a) && indent in {"", " "}
    ensures ParseList(indent + FormatAddress(Some(a))) == Some([Email(a)])
  {
    SkipIndent(indent, FormatAddress(Some(a)));
    assert FormatAddress(Some(a)) + "" == FormatAddress(Some(a));
    ParsePrinted(a, "");
    ParseListLast(indent + FormatAddress(Some(a)), Email(a));
  }

  lemma ParseMore(a: Address, indent: string, tail: string, emails: seq<string>)
    requires IsPlain(a) && indent in {"", " "} && ParseList(" " + tail) == Some(emails)
    ensures ParseList(indent + (FormatAddress(Some(a)) + ("," + (" " + tail)))) == Some([Email(a)] + emails)
  {
    var s := FormatAddress(Some(a)) + ("," + (" " + tail));
    SkipIndent(indent, s);
    ParsePrinted(a, "," + (" " + tail));
    ParseListNext(indent + s, Email(a), " " + tail, emails);
  }

  lemma PrintedAlone(addresses: seq<Address>)
    requires |addresses| == 1
    ensures Join(Formats(addresses), ", ") == FormatAddress(Some(addresses[0]))
    ensures Emails(addresses) == [Email(addresses[0])]
  {
    FormatsRest(addresses);
  }

  /** Reading a printed list gives the addresses in order. */
  lemma {:induction false} ParsePrintedList(addresses: seq<Address>, indent: string)
    requires addresses != [] && ArePlain(addresses) && indent in {"", " "}
    ensures ParseList(indent + Join(Formats(addresses), ", ")) == Some(Emails(addresses))
  {
    var a := addresses[0];
    FormatsRest(addresses);
    if |addresses| == 1 {
      PrintedAlone(addresses);
      ParseOne(a, indent);
    } else {
      FirstPrinted(Formats(addresses));
      ParsePrintedList(addresses[1..], " ");
      ParseMore(a, indent, Join(Formats(addresses[1..]), ", "), Emails(addresses[1..]));
    }
  }

  /** What is displayed as From, To or Cc reads back as the complete addresses, in order. */
  lemma FormattedAddressesReadBack(addresses: seq<Option<Address>>)
    requires ArePlain(Complete(addresses)) && Complete(addresses) != []
    ensures ParseList(Join(Formats(Complete(addresses)), ", ")) == Some(Emails(Complete(addresses)))
  {
    ParsePrintedList(Complete(addresses), "");
    assert "" + Join(Formats(Complete(addresses)), ", ") == Join(Formats(Complete(addresses)), ", ");
  }
}
