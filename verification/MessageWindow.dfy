/**
 * The message list: which messages are asked for, and the order they are shown in.
 */
module MessageWindow {
  import opened Prelude
  import opened Strings
  import A = Addresses

  /** Go's uint32. Arithmetic on it must be proved not to wrap around. */
  newtype uint32 = x: int | 0 <= x < 0x1_0000_0000

  const DEFAULT_LIMIT: uint32 := 100

  /** date is None when the Date header is missing or unreadable. */
  datatype Headers = Headers(subject: string, from: seq<Option<A.Address>>, date: Option<int>)

  datatype Fetched = Fetched(uid: uint32, size: uint32, internalDate: int, flags: seq<string>, headers: Option<Headers>)

  datatype Summary = Summary(uid: uint32, subject: string, from: string, date: int, size: int, answered: bool, forwarded: bool)

  datatype Error = ConnectFailed | SelectFailed | FetchFailed

  /** strings.EqualFold. */
  type Fold = (string, string) -> bool

  /** hasFlag. */
  method HasFlag(fold: Fold, flags: seq<string>, want: string) returns (r: bool)
    ensures r <==> IsFlagged(fold, flags, want)
  {
    for i := 0 to |flags|
      invariant !IsFlagged(fold, flags[..i], want)
    {
      assert flags[..i + 1] == flags[..i] + [flags[i]];
      if fold(flags[i], want) {
        return true;
      }
    }
    assert flags[..|flags|] == flags;
    return false;
  }

  ghost predicate IsFlagged(fold: Fold, flags: seq<string>, want: string) {
    exists flag | flag in flags :: fold(flag, want)
  }

  /** What the list shows of one message. */
  ghost predicate Summarises(fold: Fold, s: Summary, m: Fetched) {
    && s.uid == m.uid
    && s.size == m.size as int
    && (s.answered <==> IsFlagged(fold, m.flags, "\\Answered"))
    && (s.forwarded <==> IsFlagged(fold, m.flags, "$Forwarded"))
    && (match m.headers
        case None => s.subject == "" && s.from == "" && s.date == m.internalDate
        case Some(h) =>
          && s.subject == h.subject
          && s.from == Join(A.Formats(A.Complete(h.from)), ", ")
          && s.date == if h.date.Some? then h.date.value else m.internalDate)
  }

  /** s lists the messages in their order. */
  ghost predicate Listed(fold: Fold, s: seq<Summary>, messages: seq<Fetched>) {
    |s| == |messages| && forall k | 0 <= k < |s| :: Summarises(fold, s[k], messages[k])
  }

  /** s is the last |s| messages, newest first. */
  ghost predicate NewestFirst(fold: Fold, s: seq<Summary>, mailbox: seq<Fetched>) {
    |s| <= |mailbox| && forall k | 0 <= k < |s| :: Summarises(fold, s[k], mailbox[|mailbox| - 1 - k])
  }

  lemma ReversedListIsNewestFirst(fold: Fold, s: seq<Summary>, r: seq<Summary>, messages: seq<Fetched>)
    requires Listed(fold, s, messages)
    requires |r| == |s| && forall k | 0 <= k < |r| :: r[k] == s[|s| - 1 - k]
    ensures NewestFirst(fold, r, messages)
  {
    forall k | 0 <= k < |r|
      ensures Summarises(fold, r[k], messages[|messages| - 1 - k])
    {
      var i := |s| - 1 - k;
      assert Summarises(fold, s[i], messages[i]);
    }
  }

  lemma LastOfTailAreLast(fold: Fold, mailbox: seq<Fetched>, start: nat)
    requires start <= |mailbox|
    ensures forall s | NewestFirst(fold, s, mailbox[start..]) :: NewestFirst(fold, s, mailbox)
  {
    forall s | NewestFirst(fold, s, mailbox[start..])
      ensures NewestFirst(fold, s, mailbox)
    {
      var tail := mailbox[start..];
      forall k | 0 <= k < |s|
        ensures Summarises(fold, s[k], mailbox[|mailbox| - 1 - k])
      {
        assert tail[|tail| - 1 - k] == mailbox[|mailbox| - 1 - k];
      }
    }
  }

  method Summarise(fold: Fold, m: Fetched) returns (s: Summary)
    ensures Summarises(fold, s, m)
  {
    var answered := HasFlag(fold, m.flags, "\\Answered");
    var forwarded := HasFlag(fold, m.flags, "$Forwarded");
    s := Summary(m.uid, "", "", m.internalDate, m.size as int, answered, forwarded);
    if m.headers.Some? {
      var from := A.FormatAddresses(m.headers.value.from);
      s := s.(subject := m.headers.value.subject, from := from);
      if m.headers.value.date.Some? {
        s := s.(date := m.headers.value.date.value);
      }
    }
  }

  /** The loop of ListMessages over the fetched messages. */
  method SummariseAll(fold: Fold, messages: seq<Fetched>) returns (summaries: array<Summary>)
    ensures fresh(summaries) && Listed(fold, summaries[..], messages)
  {
    summaries := new Summary[|messages|];
    for i := 0 to |messages|
      invariant forall k | 0 <= k < i :: Summarises(fold, summaries[k], messages[k])
    {
      var s := Summarise(fold, messages[i]);
      summaries[i] := s;
    }
  }

  /** reverseSummaries. */
  method ReverseSummaries(summaries: array<Summary>)
    modifies summaries
    ensures forall k | 0 <= k < summaries.Length :: summaries[k] == old(summaries[summaries.Length - 1 - k])
  {
    var i, j := 0, summaries.Length - 1;
    while i < j
      invariant 0 <= i <= summaries.Length && j == summaries.Length - 1 - i && i <= j + 2
      invariant forall k | 0 <= k < i || j < k < summaries.Length :: summaries[k] == old(summaries[summaries.Length - 1 - k])
      invariant forall k | i <= k <= j :: summaries[k] == old(summaries[k])
    {
      summaries[i], summaries[j] := summaries[j], summaries[i];
      i, j := i + 1, j - 1;
    }
  }

  /** The end of ListMessages, once the messages are fetched. */
  method SummariseNewestFirst(fold: Fold, messages: seq<Fetched>) returns (summaries: array<Summary>)
    ensures summaries.Length == |messages| && NewestFirst(fold, summaries[..], messages)
  {
    summaries := SummariseAll(fold, messages);
    ghost var ascending := summaries[..];
    ReverseSummaries(summaries);
    ReversedListIsNewestFirst(fold, ascending, summaries[..], messages);
  }

  /** FETCH first:last of the selected mailbox, in ascending order; sequence numbers start at 1. */
  function Fetch(mailbox: seq<Fetched>, first: uint32, last: uint32): seq<Fetched>
    requires 1 <= first <= last && last as int <= |mailbox|
  {
    mailbox[first as int - 1..last as int]
  }

  function Min(a: int, b: int): int {
    if a < b then a else b
  }

  /** What goes wrong on the way, if anything. */
  datatype Faults = Faults(connect: bool, select: bool, fetch: bool)

  /** ListMessages: the last messages of the mailbox, newest first. */
  method ListMessages(fold: Fold, mailbox: seq<Fetched>, limit: uint32, faults: Faults)
    returns (r: Result<seq<Summary>, Error>)
    requires |mailbox| < 0x1_0000_0000
    ensures r.Failure? <==> faults.connect || faults.select || (faults.fetch && mailbox != [])
    ensures r.Success? ==>
              && |r.value| == Min(|mailbox|, if limit == 0 then 100 else limit as int)
              && NewestFirst(fold, r.value, mailbox)
  {
    var limit := if limit == 0 then DEFAULT_LIMIT else limit;
    if faults.connect {
      return Failure(ConnectFailed);
    }
    if faults.select {
      return Failure(SelectFailed);
    }
    var selected := |mailbox| as uint32;
    if selected == 0 {
      return Success([]);
    }
    var start: uint32 := 1;
    if selected > limit {
      start := selected - limit + 1;
    }
    if faults.fetch {
      return Failure(FetchFailed);
    }
    var messages := Fetch(mailbox, start, selected);
    assert messages == mailbox[start as int - 1..];
    LastOfTailAreLast(fold, mailbox, start as int - 1);
    var summaries := SummariseNewestFirst(fold, messages);
    return Success(summaries[..]);
  }
}
