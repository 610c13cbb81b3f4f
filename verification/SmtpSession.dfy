/**
 * Sending one message over SMTP. The client library is foreign: a session is
 * the sequence of calls made on it, each accepted or refused by whatever the
 * server, the network and the library do.
 */
module SmtpSession {
  import opened Prelude
  import opened Strings
  import opened MessageText
  import opened Addresses
  import opened ReplyAll

  datatype Call = StartTls | Auth | Mail(from: string) | Rcpt(to: string) | Data | Write(content: string) | EndData | Quit

  datatype Security = Plain | StartTlsMode | Smtps | Unsupported

  datatype Account = Account(security: Security, username: string, password: string)

  /** How the outside world answers: accepts may depend on everything called so far. */
  datatype World = World(
    lib: Lib, parsesAsAddress: string -> bool,
    cancelled: bool, connects: bool, greets: bool, advertisesStartTls: bool,
    accepts: seq<Call> -> bool)

  datatype SendError = InvalidMessage | NotConnected | NoCredentials | NoStartTls | Refused

  /** The client object: what was called on it, and what came back. */
  class Client {
    const accepts: seq<Call> -> bool
    var calls: seq<Call>
    var accepted: seq<bool>

    /** Each call was answered as the world answers what had been called by then. */
    ghost predicate Valid()
      reads this
    {
      |calls| == |accepted| && forall i | 0 <= i < |calls| :: accepted[i] <==> accepts(calls[..i + 1])
    }

    constructor (accepts: seq<Call> -> bool)
      ensures Valid() && calls == [] && accepted == [] && this.accepts == accepts
    {
      this.accepts := accepts;
      calls := [];
      accepted := [];
    }

    method Do(call: Call) returns (ok: bool)
      requires Valid()
      modifies this
      ensures Valid() && calls == old(calls) + [call]
      ensures accepted == old(accepted) + [ok]
      ensures ok == accepts(calls)
    {
      calls := calls + [call];
      ok := accepts(calls);
      accepted := accepted + [ok];
      assert calls[..|calls|] == calls;
      assert forall i | 0 <= i < |old(calls)| :: accepted[i] == old(accepted)[i] && calls[..i + 1] == old(calls)[..i + 1];
    }
  }

  function Recipients(lib: Lib, m: Message): Option<seq<string>> {
    MessageRecipients(lib, m.to, m.cc)
  }

  /** validateMessage. */
  predicate ValidMessage(w: World, m: Message) {
    m.from != "" && w.parsesAsAddress(m.from) && m.to != "" && Recipients(w.lib, m).Some?
  }

  function Rcpts(recipients: seq<string>): (r: seq<Call>)
    ensures |r| == |recipients|
    ensures forall i | 0 <= i < |r| :: r[i] == Rcpt(recipients[i])
  {
    if recipients == [] then [] else [Rcpt(recipients[0])] + Rcpts(recipients[1..])
  }

  function Opening(account: Account): seq<Call> {
    if account.security == StartTlsMode then [StartTls] else []
  }

  function Content(m: Message): string {
    Print(Fields(m), NormalizeBody(m.body))
  }

  /** The whole session (section 3.3 of RFC 5321). */
  function FullSession(account: Account, m: Message, recipients: seq<string>): seq<Call> {
    Opening(account) + [Auth, Mail(m.from)] + Rcpts(recipients) + [Data, Write(Content(m)), EndData, Quit]
  }

  ghost predicate AllAccepted(accepted: seq<bool>) {
    forall i | 0 <= i < |accepted| :: accepted[i]
  }

  /**
   * How far a session got: always a prefix of the whole one, stopping at the
   * first refusal, except that a refused write is still followed by EndData.
   */
  ghost predicate Follows(full: seq<Call>, calls: seq<Call>, accepted: seq<bool>) {
    && |accepted| == |calls| <= |full|
    && calls == full[..|calls|]
    && forall i | 0 <= i < |calls| - 1 && !accepted[i] :: calls[i].Write? && i == |calls| - 2
  }

  /** Some call was refused: the last, or the write before a closing EndData. */
  ghost predicate Stopped(calls: seq<Call>, accepted: seq<bool>)
    requires |calls| == |accepted|
  {
    exists i | 0 <= i < |calls| :: !accepted[i]
  }

  /** A connection to the server can be made and is answered. */
  predicate Reachable(w: World, account: Account) {
    !w.cancelled && account.security != Unsupported && w.connects && w.greets
  }

  predicate OffersTls(w: World, account: Account) {
    account.security == StartTlsMode ==> w.advertisesStartTls
  }

  predicate HasCredentials(account: Account) {
    account.username != "" && account.password != ""
  }

  /** The world would accept these calls, one after the other. */
  ghost predicate AcceptsAll(accepts: seq<Call> -> bool, calls: seq<Call>) {
    forall i | 0 < i <= |calls| :: accepts(calls[..i])
  }

  /** When Send reports success. */
  ghost predicate Succeeds(w: World, account: Account, m: Message) {
    && ValidMessage(w, m)
    && Reachable(w, account) && OffersTls(w, account) && HasCredentials(account)
    && AcceptsAll(w.accepts, FullSession(account, m, Recipients(w.lib, m).value))
  }

  /** connect. */
  method Connect(w: World, account: Account) returns (error: Option<SendError>, client: Client)
    ensures fresh(client) && client.accepts == w.accepts && client.Valid()
    ensures Follows(Opening(account), client.calls, client.accepted)
    ensures error.None? ==> client.calls == Opening(account) && AllAccepted(client.accepted) && !Stopped(client.calls, client.accepted)
    ensures error.Some? ==> error.value != InvalidMessage && (error == Some(Refused) <==> Stopped(client.calls, client.accepted))
    ensures error == Some(NotConnected) <==> !Reachable(w, account)
    ensures error == Some(NoStartTls) <==> Reachable(w, account) && !OffersTls(w, account)
    ensures error != Some(NoCredentials)
    ensures error.None? <==> Reachable(w, account) && OffersTls(w, account) && AcceptsAll(w.accepts, Opening(account))
  {
    client := new Client(w.accepts);
    if w.cancelled || account.security == Unsupported || !w.connects || !w.greets {
      return Some(NotConnected), client;
    }
    if account.security == StartTlsMode {
      if !w.advertisesStartTls {
        return Some(NoStartTls), client;
      }
      var ok := client.Do(StartTls);
      if !ok {
        assert !client.accepted[0] && client.calls == Opening(account) == Opening(account)[..1];
        return Some(Refused), client;
      }
      assert client.calls == Opening(account) == Opening(account)[..1];
    }
    return None, client;
  }

  /** What Send's error says about the session of a valid message. */
  ghost predicate Reports(full: seq<Call>, calls: seq<Call>, accepted: seq<bool>, error: Option<SendError>) {
    && Follows(full, calls, accepted)
    && (error.None? <==> calls == full && AllAccepted(accepted))
    && (error == Some(Refused) <==> Stopped(calls, accepted))
    && (error.Some? && error != Some(Refused) ==> |calls| <= 1)
    && Closed(calls)
  }

  /** Whatever was written was also ended. */
  ghost predicate Closed(calls: seq<Call>) {
    calls != [] ==> !calls[|calls| - 1].Write?
  }

  /** Send. The client is returned so that its session can be spoken about. */
  method Send(w: World, account: Account, m: Message) returns (error: Option<SendError>, client: Client)
    ensures fresh(client) && client.accepts == w.accepts && client.Valid()
    ensures error == Some(InvalidMessage) <==> !ValidMessage(w, m)
    ensures error == Some(InvalidMessage) ==> client.calls == []
    ensures ValidMessage(w, m) ==>
              Reports(FullSession(account, m, Recipients(w.lib, m).value), client.calls, client.accepted, error)
    ensures ValidMessage(w, m) ==> BeforeAuth(w, account, error)
    ensures error.None? <==> Succeeds(w, account, m)
    ensures error == Some(InvalidMessage) <==>
            || m.from == "" || !w.parsesAsAddress(m.from) || m.to == ""
            || w.lib.parseList(m.to).None?
            || (m.cc != "" && w.lib.parseList(m.cc).None?)
            || (w.lib.parseList(m.to) == Some([]) && (m.cc == "" || w.lib.parseList(m.cc) == Some([])))
    ensures error.None? ==>
              && w.lib.parseList(m.to).Some? && (m.cc != "" ==> w.lib.parseList(m.cc).Some?)
              && var cc := if m.cc == "" then [] else w.lib.parseList(m.cc).value;
              && IsWholeSession(account, m, w.lib.parseList(m.to).value + cc, client.calls)
  {
    RecipientsExactly(w.lib, m.to, m.cc);
    if m.from == "" || !w.parsesAsAddress(m.from) || m.to == "" || Recipients(w.lib, m).None? {
      client := new Client(w.accepts);
      return Some(InvalidMessage), client;
    }
    var recipients := Recipients(w.lib, m).value;
    error, client := SendValid(w, account, m, recipients);
    RefusedByTheWorld(FullSession(account, m, recipients), client);
    FullSessionParts(account, m, recipients);
    OpeningAccepted(w, account, m, recipients);
    WholeSession(account, m, recipients);
    assert error.Some? && error != Some(Refused) ==> error.value.NotConnected? || error.value.NoStartTls? || error.value.NoCredentials?;
  }

  /** The whole session call by call, with one RCPT for each recipient. */
  ghost predicate IsWholeSession(account: Account, m: Message, recipients: seq<string>, calls: seq<Call>) {
    var n := if account.security == StartTlsMode then 1 else 0;
    && |calls| == n + 2 + |recipients| + 4
    && (n == 1 ==> calls[0] == StartTls)
    && calls[n] == Auth && calls[n + 1] == Mail(m.from)
    && (forall i | 0 <= i < |recipients| :: calls[n + 2 + i] == Rcpt(recipients[i]))
    && calls[|calls| - 4..] == [Data, Write(Print(Fields(m), NormalizeBody(m.body))), EndData, Quit]
  }

  lemma WholeSession(account: Account, m: Message, recipients: seq<string>)
    ensures IsWholeSession(account, m, recipients, FullSession(account, m, recipients))
  {
    FullSessionParts(account, m, recipients);
    var full, n := FullSession(account, m, recipients), |Opening(account)|;
    assert n == 1 ==> full[0] == full[..n][0];
  }

  /** A session that stops does so where the world refuses the whole one. */
  lemma RefusedByTheWorld(full: seq<Call>, client: Client)
    requires client.Valid() && Follows(full, client.calls, client.accepted)
    ensures Stopped(client.calls, client.accepted) ==> !AcceptsAll(client.accepts, full)
    ensures client.calls == full && AllAccepted(client.accepted) ==> AcceptsAll(client.accepts, full)
  {
    if Stopped(client.calls, client.accepted) {
      var i :| 0 <= i < |client.calls| && !client.accepted[i];
      assert client.calls[..i + 1] == full[..i + 1];
    }
    if client.calls == full && AllAccepted(client.accepted) {
      forall i | 0 < i <= |full|
        ensures client.accepts(full[..i])
      {
        assert client.accepted[i - 1] && full[..i - 1 + 1] == full[..i];
      }
    }
  }

  lemma OpeningAccepted(w: World, account: Account, m: Message, recipients: seq<string>)
    ensures AcceptsAll(w.accepts, FullSession(account, m, recipients)) ==> AcceptsAll(w.accepts, Opening(account))
  {
    FullSessionParts(account, m, recipients);
    var full, n := FullSession(account, m, recipients), |Opening(account)|;
    forall i | 0 < i <= n
      ensures Opening(account)[..i] == full[..i]
    {
      assert full[..n][..i] == full[..i];
    }
  }

  /** Send once the message is known to be valid. */
  method SendValid(w: World, account: Account, m: Message, recipients: seq<string>) returns (error: Option<SendError>, client: Client)
    ensures fresh(client) && client.accepts == w.accepts && client.Valid()
    ensures Reports(FullSession(account, m, recipients), client.calls, client.accepted, error)
    ensures error != Some(InvalidMessage)
    ensures BeforeAuth(w, account, error)
    ensures error.None? ==> HasCredentials(account)
  {
    error, client := Connect(w, account);
    if error.Some? {
      OpeningReports(account, m, recipients, client.calls, client.accepted, error.value);
      return;
    }
    if account.username == "" || account.password == "" {
      OpeningReports(account, m, recipients, client.calls, client.accepted, NoCredentials);
      return Some(NoCredentials), client;
    }
    var ok := RunSession(client, account, m, recipients);
    return if ok then None else Some(Refused), client;
  }

  /** What happened before AUTH is a start of the session, and not all of it. */
  lemma OpeningReports(account: Account, m: Message, recipients: seq<string>, calls: seq<Call>, accepted: seq<bool>, error: SendError)
    requires Follows(Opening(account), calls, accepted)
    requires error == Refused <==> Stopped(calls, accepted)
    ensures Reports(FullSession(account, m, recipients), calls, accepted, Some(error))
  {
    FullSessionParts(account, m, recipients);
    var full, n := FullSession(account, m, recipients), |Opening(account)|;
    assert full[..|calls|] == full[..n][..|calls|];
  }

  lemma OpeningDone(account: Account, m: Message, recipients: seq<string>, calls: seq<Call>, accepted: seq<bool>)
    requires |accepted| == |calls| && calls == Opening(account) && AllAccepted(accepted)
    ensures InOrder(FullSession(account, m, recipients), calls, accepted)
  {
    FullSessionParts(account, m, recipients);
  }

  /** Send once connected: AUTH to QUIT. */
  method RunSession(client: Client, account: Account, m: Message, recipients: seq<string>) returns (ok: bool)
    requires client.Valid() && client.calls == Opening(account) && AllAccepted(client.accepted)
    modifies client
    ensures client.Valid()
    ensures Reports(FullSession(account, m, recipients), client.calls, client.accepted, if ok then None else Some(Refused))
  {
    ghost var full := FullSession(account, m, recipients);
    OpeningDone(account, m, recipients, client.calls, client.accepted);
    FullSessionParts(account, m, recipients);
    ok := AuthToQuit(client, m, recipients, full);
  }

  method AuthToQuit(client: Client, m: Message, recipients: seq<string>, ghost full: seq<Call>) returns (ok: bool)
    requires client.Valid() && InOrder(full, client.calls, client.accepted)
    requires |full| == |client.calls| + 2 + |recipients| + 4
    requires full[|client.calls|] == Auth && full[|client.calls| + 1] == Mail(m.from)
    requires forall i | 0 <= i < |recipients| :: full[|client.calls| + 2 + i] == Rcpt(recipients[i])
    requires full[|full| - 4..] == [Data, Write(Content(m)), EndData, Quit]
    modifies client
    ensures client.Valid()
    ensures Reports(full, client.calls, client.accepted, if ok then None else Some(Refused))
  {
    ok := Next(client, Auth, full);
    if !ok {
      return;
    }
    ok := Next(client, Mail(m.from), full);
    if !ok {
      return;
    }
    ok := NameRecipients(client, recipients, full);
    if !ok {
      return;
    }
    var content := BuildMessage(m);
    ok := SendContent(client, content, full);
  }

  /** The recipient loop of Send. */
  method NameRecipients(client: Client, recipients: seq<string>, ghost full: seq<Call>) returns (ok: bool)
    requires client.Valid() && InOrder(full, client.calls, client.accepted)
    requires |client.calls| + |recipients| <= |full|
    requires forall i | 0 <= i < |recipients| :: full[|client.calls| + i] == Rcpt(recipients[i])
    modifies client
    ensures client.Valid()
    ensures Follows(full, client.calls, client.accepted)
    ensures ok ==> InOrder(full, client.calls, client.accepted) && |client.calls| == old(|client.calls|) + |recipients|
    ensures !ok <==> Stopped(client.calls, client.accepted)
    ensures |client.calls| <= old(|client.calls|) + |recipients|
    ensures !ok ==> Closed(client.calls)
  {
    for i := 0 to |recipients|
      invariant client.Valid() && |client.calls| == old(|client.calls|) + i
      invariant InOrder(full, client.calls, client.accepted)
    {
      ok := Next(client, Rcpt(recipients[i]), full);
      if !ok {
        return;
      }
    }
    return true;
  }

  /** The end of Send, from DATA to QUIT. */
  method SendContent(client: Client, content: string, ghost full: seq<Call>) returns (ok: bool)
    requires client.Valid() && InOrder(full, client.calls, client.accepted)
    requires |client.calls| + 4 == |full|
    requires full[|full| - 4..] == [Data, Write(content), EndData, Quit]
    modifies client
    ensures client.Valid()
    ensures Follows(full, client.calls, client.accepted)
    ensures ok <==> client.calls == full && AllAccepted(client.accepted)
    ensures ok <==> !Stopped(client.calls, client.accepted)
    ensures Closed(client.calls)
  {
    ghost var n := |client.calls|;
    assert full[n] == full[n..][0] && full[n + 1] == full[n..][1] && full[n + 2] == full[n..][2] && full[n + 3] == full[n..][3];
    ok := Next(client, Data, full);
    if !ok {
      return;
    }
    ok := Next(client, Write(content), full);
    if !ok {
      var _ := client.Do(EndData);
      assert !client.accepted[n + 1];
      assert full[..n + 3] == full[..n + 2] + [EndData];
      return;
    }
    ok := Next(client, EndData, full);
    if !ok {
      return;
    }
    ok := Next(client, Quit, full);
  }

  /** Everything so far is as it should be. */
  ghost predicate InOrder(full: seq<Call>, calls: seq<Call>, accepted: seq<bool>) {
    |accepted| == |calls| <= |full| && calls == full[..|calls|] && AllAccepted(accepted)
  }

  /** The next call of the session. */
  method Next(client: Client, call: Call, ghost full: seq<Call>) returns (ok: bool)
    requires client.Valid() && InOrder(full, client.calls, client.accepted)
    requires |client.calls| < |full| && full[|client.calls|] == call
    modifies client
    ensures client.Valid()
    ensures client.calls == old(client.calls) + [call] && client.accepted == old(client.accepted) + [ok]
    ensures Follows(full, client.calls, client.accepted)
    ensures ok ==> InOrder(full, client.calls, client.accepted)
    ensures !ok <==> Stopped(client.calls, client.accepted)
  {
    ok := client.Do(call);
    assert full[..|client.calls|] == full[..|client.calls| - 1] + [call];
    assert client.accepted[|client.accepted| - 1] == ok;
  }

  // ----- What following the session means -----

  /** The server took responsibility for what had been written by then. */
  ghost predicate Delivered(calls: seq<Call>, accepted: seq<bool>)
    requires |calls| == |accepted|
  {
    exists i | 0 <= i < |calls| :: calls[i] == EndData && accepted[i]
  }

  lemma Concatenated(opening: seq<Call>, auth: Call, mail: Call, rcpts: seq<Call>, tail: seq<Call>)
    ensures var full, n := opening + [auth, mail] + rcpts + tail, |opening|;
            && |full| == n + 2 + |rcpts| + |tail|
            && full[..n] == opening
            && full[n] == auth && full[n + 1] == mail
            && (forall i | 0 <= i < |rcpts| :: full[n + 2 + i] == rcpts[i])
            && full[|full| - |tail|..] == tail
  {}

  lemma FullSessionParts(account: Account, m: Message, recipients: seq<string>)
    ensures var full, n := FullSession(account, m, recipients), |Opening(account)|;
            && |full| == n + 2 + |recipients| + 4
            && full[..n] == Opening(account)
            && full[n] == Auth && full[n + 1] == Mail(m.from)
            && (forall i | 0 <= i < |recipients| :: full[n + 2 + i] == Rcpt(recipients[i]))
            && full[|full| - 4..] == [Data, Write(Content(m)), EndData, Quit]
  {
    Concatenated(Opening(account), Auth, Mail(m.from), Rcpts(recipients), [Data, Write(Content(m)), EndData, Quit]);
  }

  /** Where the calls of a session sit in it. */
  lemma PlaceInSession(account: Account, m: Message, recipients: seq<string>, k: nat)
    requires k < |FullSession(account, m, recipients)|
    ensures var full, n := FullSession(account, m, recipients), |Opening(account)|;
            && (full[k] == StartTls <==> account.security == StartTlsMode && k == 0)
            && (full[k] == Auth <==> k == n)
            && (full[k] == Data <==> k == |full| - 4)
            && (full[k].Write? <==> k == |full| - 3)
            && (full[k] == EndData <==> k == |full| - 2)
            && (full[k] == Quit <==> k == |full| - 1)
  {
    FullSessionParts(account, m, recipients);
    var full, n := FullSession(account, m, recipients), |Opening(account)|;
    assert k >= |full| - 4 ==> full[k] == full[|full| - 4..][k - (|full| - 4)];
    assert k < n ==> full[k] == full[..n][k];
    assert n + 2 <= k < n + 2 + |recipients| ==> full[k] == Rcpt(recipients[k - n - 2]);
  }

  /**
   * DATA is called only after the server accepted the sender and every
   * recipient, in To-then-Cc order, and TLS was started first in that mode.
   */
  lemma DataOnlyAfterEveryRecipient(account: Account, m: Message, recipients: seq<string>, calls: seq<Call>, accepted: seq<bool>)
    requires Follows(FullSession(account, m, recipients), calls, accepted) && Data in calls
    ensures var n := |Opening(account)|;
            && n + 2 + |recipients| < |calls|
            && (account.security == StartTlsMode ==> calls[0] == StartTls && accepted[0])
            && calls[n] == Auth && accepted[n]
            && calls[n + 1] == Mail(m.from) && accepted[n + 1]
            && forall i | 0 <= i < |recipients| :: calls[n + 2 + i] == Rcpt(recipients[i]) && accepted[n + 2 + i]
  {
    FullSessionParts(account, m, recipients);
    var full, n := FullSession(account, m, recipients), |Opening(account)|;
    var k :| 0 <= k < |calls| && calls[k] == Data;
    PlaceInSession(account, m, recipients, k);
    assert n > 0 ==> full[..n][0] == full[0];
    forall i | 0 <= i < |recipients|
      ensures calls[n + 2 + i] == Rcpt(recipients[i]) && accepted[n + 2 + i]
    {
      assert full[n + 2 + i] == Rcpt(recipients[i]);
    }
  }

  /** In STARTTLS mode no credentials are sent before TLS has started, and TLS is started in no other mode. */
  lemma AuthOnlyAfterTls(account: Account, m: Message, recipients: seq<string>, calls: seq<Call>, accepted: seq<bool>)
    requires Follows(FullSession(account, m, recipients), calls, accepted)
    ensures StartTls in calls <==> account.security == StartTlsMode && calls != []
    ensures Auth in calls && account.security == StartTlsMode ==> calls[0] == StartTls && accepted[0]
  {
    FullSessionParts(account, m, recipients);
    if StartTls in calls {
      var k :| 0 <= k < |calls| && calls[k] == StartTls;
      PlaceInSession(account, m, recipients, k);
    }
    if calls != [] {
      PlaceInSession(account, m, recipients, 0);
    }
    if Auth in calls {
      var k :| 0 <= k < |calls| && calls[k] == Auth;
      PlaceInSession(account, m, recipients, k);
    }
  }

  /** A completed session delivered the whole message. */
  lemma CompletedIsDelivered(account: Account, m: Message, recipients: seq<string>, calls: seq<Call>, accepted: seq<bool>)
    requires calls == FullSession(account, m, recipients) && |accepted| == |calls| && AllAccepted(accepted)
    ensures Delivered(calls, accepted) && calls[|calls| - 3] == Write(Content(m))
  {
    FullSessionParts(account, m, recipients);
    var tail := calls[|calls| - 4..];
    assert calls[|calls| - 2] == tail[2] && calls[|calls| - 3] == tail[1];
  }

  /** EndData comes right before QUIT, and right after the whole message was written. */
  lemma EndDataPlace(account: Account, m: Message, recipients: seq<string>, k: nat)
    requires var full := FullSession(account, m, recipients); k < |full| && full[k] == EndData
    ensures var full := FullSession(account, m, recipients); k == |full| - 2 && full[k - 1] == Write(Content(m))
  {
    PlaceInSession(account, m, recipients, k);
    FullSessionParts(account, m, recipients);
    var full := FullSession(account, m, recipients);
    assert full[|full| - 3] == full[|full| - 4..][1];
  }

  ghost predicate OnlyQuitRefused(full: seq<Call>, calls: seq<Call>, accepted: seq<bool>) {
    calls == full && |accepted| == |full| && forall i | 0 <= i < |full| :: accepted[i] <==> i != |full| - 1
  }

  /** Writing the content failed, but ending it was accepted: what the server took may be a truncated message. */
  ghost predicate OnlyWriteRefused(full: seq<Call>, calls: seq<Call>, accepted: seq<bool>) {
    |calls| == |accepted| == |full| - 1 && forall i | 0 <= i < |full| - 1 :: accepted[i] <==> i != |full| - 3
  }

  /**
   * The server took what was written although Send reports a refusal, exactly when
   * nothing but QUIT was refused, or nothing but the write was.
   */
  lemma DeliveredButReportedAsFailed(account: Account, m: Message, recipients: seq<string>, calls: seq<Call>, accepted: seq<bool>)
    requires Follows(FullSession(account, m, recipients), calls, accepted)
    ensures var full := FullSession(account, m, recipients);
            Delivered(calls, accepted) && Stopped(calls, accepted) <==>
            OnlyQuitRefused(full, calls, accepted) || OnlyWriteRefused(full, calls, accepted)
  {
    var full := FullSession(account, m, recipients);
    FullSessionParts(account, m, recipients);
    assert full[|full| - 2] == full[|full| - 4..][2] == EndData;
    if Delivered(calls, accepted) && Stopped(calls, accepted) {
      var k :| 0 <= k < |calls| && calls[k] == EndData && accepted[k];
      EndDataPlace(account, m, recipients, k);
      StoppedAt(full, calls, accepted, k);
    }
    if OnlyQuitRefused(full, calls, accepted) {
      assert calls[|full| - 2] == EndData && !accepted[|full| - 1];
    }
    if OnlyWriteRefused(full, calls, accepted) {
      assert calls[|full| - 2] == EndData && !accepted[|full| - 3];
    }
  }

  /** The world accepts the whole session up to QUIT, and refuses that. */
  ghost predicate RefusesOnlyQuit(accepts: seq<Call> -> bool, full: seq<Call>) {
    forall i | 0 < i <= |full| :: accepts(full[..i]) <==> i != |full|
  }

  /** The write fails, but all before it and the end of the data after it are accepted. */
  ghost predicate RefusesOnlyWrite(accepts: seq<Call> -> bool, full: seq<Call>) {
    forall i | 0 < i < |full| :: accepts(full[..i]) <==> i != |full| - 2
  }

  lemma AnswersOfTheWorld(full: seq<Call>, client: Client)
    requires client.Valid() && Follows(full, client.calls, client.accepted)
    ensures forall i | 0 <= i < |client.calls| :: client.accepted[i] <==> client.accepts(full[..i + 1])
  {
    forall i | 0 <= i < |client.calls|
      ensures client.accepted[i] <==> client.accepts(full[..i + 1])
    {
      assert client.calls[..i + 1] == full[..i + 1];
    }
  }

  lemma OnlyQuit(full: seq<Call>, client: Client)
    requires client.Valid() && Follows(full, client.calls, client.accepted) && full != []
    ensures OnlyQuitRefused(full, client.calls, client.accepted) ==> RefusesOnlyQuit(client.accepts, full)
    ensures RefusesOnlyQuit(client.accepts, full) && Stopped(client.calls, client.accepted) ==>
              OnlyQuitRefused(full, client.calls, client.accepted)
  {
    AnswersOfTheWorld(full, client);
    if OnlyQuitRefused(full, client.calls, client.accepted) {
      forall i | 0 < i <= |full|
        ensures client.accepts(full[..i]) <==> i != |full|
      {
        assert client.accepted[i - 1] <==> client.accepts(full[..i - 1 + 1]);
      }
    }
    if RefusesOnlyQuit(client.accepts, full) && Stopped(client.calls, client.accepted) {
      var i :| 0 <= i < |client.calls| && !client.accepted[i];
      assert full[..|full|] == full;
    }
  }

  lemma OnlyWrite(full: seq<Call>, client: Client)
    requires client.Valid() && Follows(full, client.calls, client.accepted) && Closed(client.calls)
    requires |full| >= 3 && forall i | 0 <= i < |full| :: full[i].Write? <==> i == |full| - 3
    ensures OnlyWriteRefused(full, client.calls, client.accepted) ==> RefusesOnlyWrite(client.accepts, full)
    ensures RefusesOnlyWrite(client.accepts, full) && Stopped(client.calls, client.accepted) && |client.calls| < |full| ==>
              OnlyWriteRefused(full, client.calls, client.accepted)
    ensures RefusesOnlyWrite(client.accepts, full) ==> |client.calls| < |full|
  {
    AnswersOfTheWorld(full, client);
    if OnlyWriteRefused(full, client.calls, client.accepted) {
      forall i | 0 < i < |full|
        ensures client.accepts(full[..i]) <==> i != |full| - 2
      {
        assert client.accepted[i - 1] <==> client.accepts(full[..i - 1 + 1]);
      }
    }
    if RefusesOnlyWrite(client.accepts, full) {
      var n := |full| - 3;
      assert |client.calls| > n ==> !client.accepted[n];
      if Stopped(client.calls, client.accepted) {
        var i :| 0 <= i < |client.calls| && !client.accepted[i];
        assert i == n;
      }
    }
  }

  /** What Send's error says about what came before AUTH. */
  ghost predicate BeforeAuth(w: World, account: Account, error: Option<SendError>) {
    && (error == Some(NotConnected) <==> !Reachable(w, account))
    && (error == Some(NoStartTls) <==> Reachable(w, account) && !OffersTls(w, account))
    && (error == Some(NoCredentials) <==>
        && Reachable(w, account) && OffersTls(w, account)
        && AcceptsAll(w.accepts, Opening(account)) && !HasCredentials(account))
  }

  /**
   * In terms of the world: Send reports a refusal and yet the server took what
   * was written, exactly if AUTH is reached with credentials and the world
   * refuses nothing but QUIT, or nothing but the write before the end.
   */
  lemma SendFailsAfterDeliveryExactly(w: World, account: Account, m: Message, recipients: seq<string>, client: Client, error: Option<SendError>)
    requires client.Valid() && client.accepts == w.accepts
    requires Reports(FullSession(account, m, recipients), client.calls, client.accepted, error)
    requires BeforeAuth(w, account, error) && error != Some(InvalidMessage)
    ensures var full := FullSession(account, m, recipients);
            error == Some(Refused) && Delivered(client.calls, client.accepted) <==>
            && Reachable(w, account) && OffersTls(w, account) && HasCredentials(account)
            && (RefusesOnlyQuit(w.accepts, full) || RefusesOnlyWrite(w.accepts, full))
  {
    var full := FullSession(account, m, recipients);
    FullSessionParts(account, m, recipients);
    DeliveredButReportedAsFailed(account, m, recipients, client.calls, client.accepted);
    WritePlace(account, m, recipients);
    RefusedByTheWorld(full, client);
    OnlyQuit(full, client);
    OnlyWrite(full, client);
    OpeningAcceptedBefore(w, account, m, recipients);
    assert RefusesOnlyQuit(w.accepts, full) ==> !w.accepts(full[..|full|]);
    assert RefusesOnlyWrite(w.accepts, full) ==> !w.accepts(full[..|full| - 2]);
    assert error.Some? && error != Some(Refused) ==> error.value.NotConnected? || error.value.NoStartTls? || error.value.NoCredentials?;
  }

  lemma WritePlace(account: Account, m: Message, recipients: seq<string>)
    ensures var full := FullSession(account, m, recipients);
            |full| >= 6 && forall i | 0 <= i < |full| :: full[i].Write? <==> i == |full| - 3
  {
    var full := FullSession(account, m, recipients);
    forall i | 0 <= i < |full|
      ensures full[i].Write? <==> i == |full| - 3
    {
      PlaceInSession(account, m, recipients, i);
    }
  }

  lemma OpeningAcceptedBefore(w: World, account: Account, m: Message, recipients: seq<string>)
    ensures var full := FullSession(account, m, recipients);
            RefusesOnlyQuit(w.accepts, full) || RefusesOnlyWrite(w.accepts, full) ==> AcceptsAll(w.accepts, Opening(account))
  {
    FullSessionParts(account, m, recipients);
    var full, n := FullSession(account, m, recipients), |Opening(account)|;
    forall i | 0 < i <= n
      ensures Opening(account)[..i] == full[..i]
    {
      assert full[..n][..i] == full[..i];
    }
  }

  /** There are such worlds for every session: one that refuses QUIT, and one that fails to write. */
  lemma RefusingWorldsExist(account: Account, m: Message, recipients: seq<string>)
    ensures var full := FullSession(account, m, recipients);
            && RefusesOnlyQuit((calls: seq<Call>) => calls == [] || !calls[|calls| - 1].Quit?, full)
            && RefusesOnlyWrite((calls: seq<Call>) => calls == [] || !calls[|calls| - 1].Write?, full)
  {
    var full := FullSession(account, m, recipients);
    forall i | 0 < i <= |full|
      ensures full[..i] != [] && full[..i][|full[..i]| - 1] == full[i - 1]
      ensures full[i - 1].Quit? <==> i == |full|
      ensures full[i - 1].Write? <==> i == |full| - 2
    {
      PlaceInSession(account, m, recipients, i - 1);
    }
  }

  /** What can follow an accepted next-to-last call of a session that was stopped. */
  lemma StoppedAt(full: seq<Call>, calls: seq<Call>, accepted: seq<bool>, k: nat)
    requires Follows(full, calls, accepted) && Stopped(calls, accepted)
    requires 0 < k < |calls| && k == |full| - 2 && accepted[k] && !full[k].Write?
    ensures OnlyQuitRefused(full, calls, accepted) || OnlyWriteRefused(full, calls, accepted)
  {
    var i :| 0 <= i < |calls| && !accepted[i];
    assert |calls| == |full| ==> calls == full;
  }
}
