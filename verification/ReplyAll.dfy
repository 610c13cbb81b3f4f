/**
 * Who a reply goes to: the primary recipient, the Cc of a reply-all, and the
 * envelope recipients that come out when the printed form is sent unedited.
 */
module ReplyAll {
  import opened Prelude
  import opened Strings
  import opened Addresses

  /** The display fields of a received message that replies look at. */
  datatype Original = Original(from: string, replyTo: string, to: string, cc: string)

  /** What the proofs need of the parser: lists of plain addresses joined with ", " read back in order. */
  ghost predicate ReadsPlainLists(lib: Lib) {
    forall addresses: seq<string> | addresses != [] && AllAddresses(addresses) ::
      lib.parseList(Join(addresses, ", ")) == Some(addresses)
  }

  predicate All(texts: seq<string>, p: string -> bool) {
    forall i | 0 <= i < |texts| :: p(texts[i])
  }

  predicate AllAddresses(texts: seq<string>) {
    All(texts, IsAddress)
  }

  /** The small grammar's parser has that property. */
  lemma GrammarReadsPlainLists(lower: string -> string)
    ensures ReadsPlainLists(Lib(ParseList, lower))
  {
    forall addresses: seq<string> | addresses != [] && AllAddresses(addresses)
      ensures ParseList(Join(addresses, ", ")) == Some(addresses)
    {
      var parsed := AsAddresses(addresses);
      ParsePrintedList(parsed, "");
      assert "" + Join(addresses, ", ") == Join(addresses, ", ");
    }
  }

  lemma AddressParts(text: string) returns (a: Address)
    requires IsAddress(text)
    ensures IsPlain(a) && Email(a) == text == FormatAddress(Some(a))
  {
    var at := Find(text, "@").value;
    a := Address("", text[..at], text[at + 1..]);
    assert Email(a) == text by {
      assert text == text[..at] + text[at..at + 1] + text[at + 1..];
    }
  }

  lemma {:induction false} AsAddresses(texts: seq<string>) returns (addresses: seq<Address>)
    requires AllAddresses(texts)
    ensures |addresses| == |texts| && ArePlain(addresses) && Formats(addresses) == texts == Emails(addresses)
  {
    if texts == [] {
      addresses := [];
    } else {
      var rest := AsAddresses(texts[1..]);
      var a := AddressParts(texts[0]);
      addresses := [a] + rest;
      assert addresses[0] == a && addresses[1..] == rest;
      assert texts == [texts[0]] + texts[1..];
    }
  }

  // ----- The primary recipient -----

  function ReplyAddress(lib: Lib, value: string): string {
    match lib.parseList(value)
    case None => value
    case Some(addresses) => if addresses == [] then value else addresses[0]
  }

  function ReplyRecipient(lib: Lib, original: Original): string {
    ReplyAddress(lib, if original.replyTo != "" then original.replyTo else original.from)
  }

  /** A From, To or Cc header as the IMAP side displays it. */
  function Displayed(addresses: seq<Option<Address>>): string {
    Join(Formats(Complete(addresses)), ", ")
  }

  /** firstAddress: the display of a Reply-To header. */
  function DisplayedFirst(addresses: seq<Option<Address>>): string {
    if addresses == [] then "" else FormatAddress(addresses[0])
  }

  /** Whom a reply should go to: the first Reply-To address if it is complete, else the first complete sender. */
  function Primary(replyTo: seq<Option<Address>>, senders: seq<Option<Address>>): Option<Address> {
    if replyTo != [] && IsComplete(replyTo[0]) then replyTo[0]
    else if Complete(senders) != [] then Some(Complete(senders)[0])
    else None
  }

  predicate PlainFirst(replyTo: seq<Option<Address>>) {
    replyTo != [] && IsComplete(replyTo[0]) ==> IsPlain(replyTo[0].value)
  }

  lemma CompleteIsDisplayed(a: Option<Address>)
    ensures FormatAddress(a) != "" <==> IsComplete(a)
  {
    if IsComplete(a) {
      assert a.value.mailboxName[0] == Email(a.value)[0];
    }
  }

  /** From a message's addresses through their display to the recipient of a reply. */
  lemma ReplyGoesToPrimary(lib: Lib, replyTo: seq<Option<Address>>, senders: seq<Option<Address>>, original: Original)
    requires lib.parseList == ParseList && PlainFirst(replyTo) && ArePlain(Complete(senders))
    requires original.replyTo == DisplayedFirst(replyTo) && original.from == Displayed(senders)
    ensures ReplyRecipient(lib, original) ==
            match Primary(replyTo, senders)
            case None => ""
            case Some(a) => Email(a)
  {
    if replyTo != [] {
      CompleteIsDisplayed(replyTo[0]);
    }
    if original.replyTo != "" {
      var a := replyTo[0].value;
      ParseOne(a, "");
      assert "" + FormatAddress(Some(a)) == FormatAddress(Some(a));
    } else if Complete(senders) != [] {
      FormattedAddressesReadBack(senders);
    } else {
      NothingDisplayed();
    }
  }

  lemma NothingDisplayed()
    ensures ParseList("") == None
  {
    assert Span("", "<,") == 0;
  }

  // ----- The Cc list -----

  /** The addresses kept: non-empty keys not seen before, in order. */
  function Fresh(lib: Lib, addresses: seq<string>, seen: set<string>): seq<string> {
    if addresses == [] then []
    else
      var key := lib.lower(addresses[0]);
      if key == "" || key in seen then Fresh(lib, addresses[1..], seen)
      else [addresses[0]] + Fresh(lib, addresses[1..], seen + {key})
  }

  function Keys(lib: Lib, addresses: seq<string>): (r: set<string>) {
    set a | a in addresses && lib.lower(a) != "" :: lib.lower(a)
  }

  function Parsed(lib: Lib, value: string): seq<string> {
    match lib.parseList(value)
    case None => []
    case Some(addresses) => addresses
  }

  /** The excluded map of a reply-all, shared and filled by the calls below. */
  class Excluded {
    var keys: set<string>

    constructor ()
      ensures keys == {}
    {
      keys := {};
    }
  }

  function AddressKeys(lib: Lib, addresses: seq<string>): set<string> {
    set a | a in addresses && a != "" :: lib.lower(a)
  }

  /** addExcludedAddress. */
  method AddExcludedAddress(lib: Lib, excluded: Excluded, value: string)
    modifies excluded
    ensures excluded.keys == old(excluded.keys) + AddressKeys(lib, Parsed(lib, value))
    ensures lib.parseList(value).None? ==> excluded.keys == old(excluded.keys)
    ensures lib.parseList(value).Some? ==>
              && old(excluded.keys) <= excluded.keys
              && forall a | a in lib.parseList(value).value && a != "" :: lib.lower(a) in excluded.keys
  {
    var addresses := lib.parseList(value);
    if addresses.None? {
      return;
    }
    for i := 0 to |addresses.value|
      invariant excluded.keys == old(excluded.keys) + AddressKeys(lib, addresses.value[..i])
    {
      if addresses.value[i] != "" {
        excluded.keys := excluded.keys + {lib.lower(addresses.value[i])};
      }
      assert addresses.value[..i + 1] == addresses.value[..i] + [addresses.value[i]];
    }
    assert addresses.value[..|addresses.value|] == addresses.value;
  }

  lemma {:induction false} FreshAppend(lib: Lib, addresses: seq<string>, more: seq<string>, seen: set<string>)
    ensures Fresh(lib, addresses + more, seen)
         == Fresh(lib, addresses, seen) + Fresh(lib, more, seen + Keys(lib, addresses))
  {
    if addresses == [] {
      assert addresses + more == more && seen + Keys(lib, addresses) == seen;
    } else {
      var key := lib.lower(addresses[0]);
      var seen' := if key == "" then seen else seen + {key};
      assert (addresses + more)[1..] == addresses[1..] + more;
      FreshAppend(lib, addresses[1..], more, seen');
      assert addresses == [addresses[0]] + addresses[1..];
      assert seen' + Keys(lib, addresses[1..]) == seen + Keys(lib, addresses);
      if key in seen { assert seen' == seen; }
    }
  }

  /** appendReplyAllAddresses: appends to out and marks what it appended as seen. */
  method AppendReplyAllAddresses(lib: Lib, out: seq<string>, excluded: Excluded, value: string) returns (r: seq<string>)
    modifies excluded
    ensures r == out + Fresh(lib, Parsed(lib, value), old(excluded.keys))
    ensures excluded.keys == old(excluded.keys) + Keys(lib, Parsed(lib, value))
    ensures lib.parseList(value).None? ==> r == out && excluded.keys == old(excluded.keys)
  {
    var addresses := lib.parseList(value);
    if addresses.None? {
      return out;
    }
    r := out;
    for i := 0 to |addresses.value|
      invariant r == out + Fresh(lib, addresses.value[..i], old(excluded.keys))
      invariant excluded.keys == old(excluded.keys) + Keys(lib, addresses.value[..i])
    {
      var address := addresses.value[i];
      var key := lib.lower(address);
      assert addresses.value[..i + 1] == addresses.value[..i] + [address];
      FreshAppend(lib, addresses.value[..i], [address], old(excluded.keys));
      if key != "" && key !in excluded.keys {
        r := r + [address];
        excluded.keys := excluded.keys + {key};
      }
    }
    assert addresses.value[..|addresses.value|] == addresses.value;
  }

  /** The keys a reply-all never copies: the account's own and the primary recipient's. */
  function ExcludedKeys(lib: Lib, self: string, to: string): set<string> {
    AddressKeys(lib, Parsed(lib, self)) + AddressKeys(lib, Parsed(lib, to))
  }

  function CcAddresses(lib: Lib, original: Original, self: string): seq<string> {
    Fresh(lib, Parsed(lib, original.to) + Parsed(lib, original.cc), ExcludedKeys(lib, self, ReplyRecipient(lib, original)))
  }

  /** replyAllRecipients: the To and Cc of a reply-all form. */
  method ReplyAllRecipients(lib: Lib, original: Original, self: string) returns (to: string, cc: string)
    ensures to == ReplyRecipient(lib, original)
    ensures cc == Join(CcAddresses(lib, original, self), ", ")
  {
    to := ReplyRecipient(lib, original);
    var excluded := new Excluded();
    AddExcludedAddress(lib, excluded, self);
    AddExcludedAddress(lib, excluded, to);
    ghost var seen := excluded.keys;
    var ccAddresses := [];
    ccAddresses := AppendReplyAllAddresses(lib, ccAddresses, excluded, original.to);
    ccAddresses := AppendReplyAllAddresses(lib, ccAddresses, excluded, original.cc);
    FreshAppend(lib, Parsed(lib, original.to), Parsed(lib, original.cc), seen);
    assert seen == ExcludedKeys(lib, self, to);
    assert ccAddresses == Fresh(lib, Parsed(lib, original.to) + Parsed(lib, original.cc), seen);
    return to, Join(ccAddresses, ", ");
  }

  // ----- What the filter keeps -----

  /** The i-th address is kept: its key is non-empty, not excluded, and occurs here first. */
  ghost predicate Kept(lib: Lib, addresses: seq<string>, seen: set<string>, i: nat)
    requires i < |addresses|
  {
    && lib.lower(addresses[i]) != ""
    && lib.lower(addresses[i]) !in seen
    && forall j | 0 <= j < i :: lib.lower(addresses[j]) != lib.lower(addresses[i])
  }

  /** The kept addresses among the first n, in order. */
  ghost function KeptAmong(lib: Lib, addresses: seq<string>, seen: set<string>, n: nat): seq<string>
    requires n <= |addresses|
  {
    if n == 0 then []
    else KeptAmong(lib, addresses, seen, n - 1) + if Kept(lib, addresses, seen, n - 1) then [addresses[n - 1]] else []
  }

  lemma KeyAmongEarlier(lib: Lib, addresses: seq<string>, seen: set<string>, i: nat)
    requires i < |addresses|
    ensures var key := lib.lower(addresses[i]);
            Kept(lib, addresses, seen, i) <==> key != "" && key !in seen + Keys(lib, addresses[..i])
  {
    var key, before := lib.lower(addresses[i]), addresses[..i];
    if key != "" && key in Keys(lib, before) {
      var a :| a in before && lib.lower(a) == key;
      var j :| 0 <= j < i && before[j] == a;
      assert lib.lower(addresses[j]) == key;
    }
    if j :| 0 <= j < i && lib.lower(addresses[j]) == key {
      assert addresses[j] in before;
    }
  }

  /** The filter keeps exactly the first occurrences, in order. */
  lemma {:induction false} FreshKeepsFirstOccurrences(lib: Lib, addresses: seq<string>, seen: set<string>, n: nat)
    requires n <= |addresses|
    ensures Fresh(lib, addresses[..n], seen) == KeptAmong(lib, addresses, seen, n)
  {
    if n > 0 {
      var before, address := addresses[..n - 1], addresses[n - 1];
      FreshKeepsFirstOccurrences(lib, addresses, seen, n - 1);
      assert addresses[..n] == before + [address];
      FreshAppend(lib, before, [address], seen);
      KeyAmongEarlier(lib, addresses, seen, n - 1);
    }
  }

  /** The kept keys are all the keys there are, less the excluded, and no two kept addresses share one. */
  lemma {:induction false} FreshKeys(lib: Lib, addresses: seq<string>, seen: set<string>)
    ensures Keys(lib, Fresh(lib, addresses, seen)) == Keys(lib, addresses) - seen
    ensures forall a | a in Fresh(lib, addresses, seen) :: a in addresses && lib.lower(a) != "" && lib.lower(a) !in seen
    ensures var r := Fresh(lib, addresses, seen);
            forall i, j | 0 <= i < j < |r| :: lib.lower(r[i]) != lib.lower(r[j])
  {
    if addresses != [] {
      var key := lib.lower(addresses[0]);
      var kept := key != "" && key !in seen;
      var seen' := if kept then seen + {key} else seen;
      FreshKeys(lib, addresses[1..], seen');
      assert addresses == [addresses[0]] + addresses[1..];
      var r, rest := Fresh(lib, addresses, seen), Fresh(lib, addresses[1..], seen');
      assert Keys(lib, addresses) == Keys(lib, addresses[1..]) + if key != "" then {key} else {};
      assert Keys(lib, r) == Keys(lib, rest) + if kept then {key} else {};
    }
  }

  // ----- The sending side -----

  /** messageRecipients: To, then Cc if there is one; None on a parse error or if nobody is named. */
  function MessageRecipients(lib: Lib, to: string, cc: string): Option<seq<string>> {
    match lib.parseList(to)
    case None => None
    case Some(recipients) =>
      var all := if cc == "" then Some(recipients)
                 else match lib.parseList(cc)
                      case None => None
                      case Some(copies) => Some(recipients + copies);
      if all == Some([]) then None else all
  }

  /** Everybody in To and then everybody in Cc, or nobody at all. */
  lemma RecipientsExactly(lib: Lib, to: string, cc: string)
    ensures var r, named, copied := MessageRecipients(lib, to, cc), lib.parseList(to), lib.parseList(cc);
            && (r.None? <==>
                || named.None?
                || (cc != "" && copied.None?)
                || (named.value == [] && (cc == "" || copied.value == [])))
            && (r.Some? ==> r.value == named.value + if cc == "" then [] else copied.value)
  {
    assert lib.parseList(to).Some? ==> lib.parseList(to).value + [] == lib.parseList(to).value;
  }

  /** Printed lists of plain addresses are sent to as they are, whatever their lengths. */
  lemma PrintedListsAreRecipients(lib: Lib, to: seq<string>, cc: seq<string>)
    requires ReadsPlainLists(lib) && to != [] && AllAddresses(to) && AllAddresses(cc)
    ensures MessageRecipients(lib, Join(to, ", "), Join(cc, ", ")) == Some(to + cc)
  {
    RecipientsExactly(lib, Join(to, ", "), Join(cc, ", "));
    if cc == [] {
      assert Join(cc, ", ") == "" && to + cc == to;
    } else {
      JoinedAddressesNotEmpty(cc);
    }
  }

  /** A value that is no address list, or an empty one, is replied to as it stands. */
  lemma UnreadableRecipientIsKept(lib: Lib, original: Original)
    ensures var shown := if original.replyTo == "" then original.from else original.replyTo;
            lib.parseList(shown) in {None, Some([])} ==> ReplyRecipient(lib, original) == shown
    ensures var shown := if original.replyTo == "" then original.from else original.replyTo;
            lib.parseList(shown).Some? && lib.parseList(shown).value != [] ==>
              ReplyRecipient(lib, original) == lib.parseList(shown).value[0]
  {}

  lemma FreshAll(lib: Lib, addresses: seq<string>, seen: set<string>, p: string -> bool)
    requires All(addresses, p)
    ensures All(Fresh(lib, addresses, seen), p)
  {
    FreshKeys(lib, addresses, seen);
    var r := Fresh(lib, addresses, seen);
    forall i | 0 <= i < |r|
      ensures p(r[i])
    {
      assert r[i] in addresses;
    }
  }

  lemma JoinedAddressesNotEmpty(addresses: seq<string>)
    requires addresses != [] && AllAddresses(addresses)
    ensures Join(addresses, ", ") != ""
  {
    assert IsAddress(addresses[0]);
  }

  /** lower keeps addresses non-empty, as strings.ToLower does. */
  ghost predicate KeepsText(lib: Lib) {
    forall s :: s != "" ==> lib.lower(s) != ""
  }

  lemma PrintedRecipients(lib: Lib, to: string, cc: seq<string>)
    requires ReadsPlainLists(lib) && IsAddress(to) && AllAddresses(cc)
    ensures MessageRecipients(lib, to, Join(cc, ", ")) == Some([to] + cc)
  {
    PlainAlone(lib, to);
    if cc == [] {
      assert [to] + cc == [to];
    } else {
      JoinedAddressesNotEmpty(cc);
    }
  }

  lemma WithPrimary(lib: Lib, to: string, cc: seq<string>, named: seq<string>, self: string)
    requires lib.lower(to) != "" && cc == Fresh(lib, named, {lib.lower(self), lib.lower(to)})
    ensures Keys(lib, [to] + cc) == {lib.lower(to)} + (Keys(lib, named) - {lib.lower(self)})
    ensures forall i, j | 0 <= i < j < |[to] + cc| :: lib.lower(([to] + cc)[i]) != lib.lower(([to] + cc)[j])
    ensures forall a | a in cc :: lib.lower(a) != lib.lower(self)
  {
    FreshKeys(lib, named, {lib.lower(self), lib.lower(to)});
    var all := [to] + cc;
    assert Keys(lib, all) == {lib.lower(to)} + Keys(lib, cc);
    forall i, j | 0 <= i < j < |all|
      ensures lib.lower(all[i]) != lib.lower(all[j])
    {
      assert all[j] == cc[j - 1] && cc[j - 1] in cc;
      if i > 0 { assert all[i] == cc[i - 1]; }
    }
  }

  /**
   * A reply-all sent as printed goes to the primary recipient and then to
   * exactly the other addressees, each once whatever its case, and never to
   * the account itself in Cc.
   */
  lemma UneditedReplyAllRecipients(lib: Lib, original: Original, self: string)
    requires ReadsPlainLists(lib) && KeepsText(lib)
    requires IsAddress(self) && IsAddress(ReplyRecipient(lib, original))
    requires AllAddresses(Parsed(lib, original.to)) && AllAddresses(Parsed(lib, original.cc))
    ensures var to, cc := ReplyRecipient(lib, original), CcAddresses(lib, original, self);
            var named := Parsed(lib, original.to) + Parsed(lib, original.cc);
            && MessageRecipients(lib, to, Join(cc, ", ")) == Some([to] + cc)
            && cc == KeptAmong(lib, named, {lib.lower(self), lib.lower(to)}, |named|)
            && Keys(lib, [to] + cc) == {lib.lower(to)} + (Keys(lib, named) - {lib.lower(self)})
            && (forall i, j | 0 <= i < j < |[to] + cc| :: lib.lower(([to] + cc)[i]) != lib.lower(([to] + cc)[j]))
            && (forall a | a in cc :: lib.lower(a) != lib.lower(self))
  {
    var to, cc := ReplyRecipient(lib, original), CcAddresses(lib, original, self);
    var named := Parsed(lib, original.to) + Parsed(lib, original.cc);
    var seen := {lib.lower(self), lib.lower(to)};
    TwoExcluded(lib, self, to);
    PlainAlone(lib, to);
    FreshAll(lib, named, seen, IsAddress);
    PrintedRecipients(lib, to, cc);
    FreshKeepsFirstOccurrences(lib, named, seen, |named|);
    assert named[..|named|] == named;
    WithPrimary(lib, to, cc, named, self);
  }

  lemma TwoExcluded(lib: Lib, self: string, to: string)
    requires ReadsPlainLists(lib) && IsAddress(self) && IsAddress(to)
    ensures ExcludedKeys(lib, self, to) == {lib.lower(self), lib.lower(to)}
  {
    PlainAlone(lib, self);
    PlainAlone(lib, to);
  }

  lemma PlainAlone(lib: Lib, a: string)
    requires ReadsPlainLists(lib) && IsAddress(a)
    ensures lib.parseList(a) == Some([a]) && a != ""
  {
    var alone := [a];
    assert All(alone, IsAddress);
    assert Join(alone, ", ") == a;
  }

  lemma ParsedDisplay(lib: Lib, addresses: seq<Option<Address>>)
    requires lib.parseList == ParseList && ArePlain(Complete(addresses))
    ensures Parsed(lib, Displayed(addresses)) == Emails(Complete(addresses))
    ensures AllAddresses(Emails(Complete(addresses)))
  {
    var complete := Complete(addresses);
    if complete == [] {
      NothingDisplayed();
    } else {
      FormattedAddressesReadBack(addresses);
    }
    EmailsAreAddresses(complete);
  }

  lemma {:induction false} EmailsAreAddresses(addresses: seq<Address>)
    requires ArePlain(addresses)
    ensures AllAddresses(Emails(addresses))
  {
    if addresses != [] {
      EmailIsAddress(addresses[0]);
      EmailsAreAddresses(addresses[1..]);
    }
  }

  /**
   * From the addresses of a received message, through its display and the
   * reply-all form, to the recipients of the SMTP session: the primary one,
   * and then the addresses of To and Cc in order of first occurrence, less
   * the account and that primary one.
   */
  lemma DisplayedReplyAllRecipients(lib: Lib, replyTo: seq<Option<Address>>, senders: seq<Option<Address>>,
                                    to: seq<Option<Address>>, cc: seq<Option<Address>>, self: string)
    requires lib.parseList == ParseList && KeepsText(lib) && IsAddress(self)
    requires PlainFirst(replyTo) && ArePlain(Complete(senders)) && Primary(replyTo, senders).Some?
    requires ArePlain(Complete(to)) && ArePlain(Complete(cc))
    ensures var original := Original(Displayed(senders), DisplayedFirst(replyTo), Displayed(to), Displayed(cc));
            var first, named := Email(Primary(replyTo, senders).value), Emails(Complete(to)) + Emails(Complete(cc));
            && ReplyRecipient(lib, original) == first
            && MessageRecipients(lib, first, Join(CcAddresses(lib, original, self), ", "))
            == Some([first] + KeptAmong(lib, named, {lib.lower(self), lib.lower(first)}, |named|))
  {
    var original := Original(Displayed(senders), DisplayedFirst(replyTo), Displayed(to), Displayed(cc));
    ReplyGoesToPrimary(lib, replyTo, senders, original);
    PrimaryIsPlain(replyTo, senders);
    EmailIsAddress(Primary(replyTo, senders).value);
    ParsedDisplay(lib, to);
    ParsedDisplay(lib, cc);
    GrammarReadsPlainLists(lib.lower);
    UneditedReplyAllRecipients(lib, original, self);
  }

  lemma PrimaryIsPlain(replyTo: seq<Option<Address>>, senders: seq<Option<Address>>)
    requires PlainFirst(replyTo) && ArePlain(Complete(senders)) && Primary(replyTo, senders).Some?
    ensures IsPlain(Primary(replyTo, senders).value)
  {}
}
