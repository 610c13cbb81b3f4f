/**
 * Sending from the compose forms: load the original, send, then flag the
 * original. One handler run without interruption, and runs of many handlers
 * interleaved with each other and with the mail server's own changes.
 */
module SendAndFlag {
  import opened Prelude
  import T = Threading
  import M = MessageText
  import S = SmtpSession

  datatype Mode = New | Reply | ReplyAll | Forward

  datatype Form = Form(mode: Mode, mailbox: string, uid: nat, to: string, cc: string, subject: string, body: string)

  predicate IsReply(mode: Mode) {
    mode == Reply || mode == ReplyAll
  }

  predicate RequiresOriginal(mode: Mode) {
    mode != New
  }

  function ModeNamed(name: string): Option<Mode> {
    if name == "" || name == "new" then Some(New)
    else if name == "reply" then Some(Reply)
    else if name == "reply-all" then Some(ReplyAll)
    else if name == "forward" then Some(Forward)
    else None
  }

  /** parseComposeMessageForm; uid is the result of strconv.ParseUint with 32 bits. */
  function ParseForm(mode: string, mailbox: string, uid: Option<nat>, to: string, cc: string, subject: string, body: string)
    : (r: Option<Form>)
    ensures r.None? <==>
            || to == "" || subject == "" || body == ""
            || mode !in {"", "new", "reply", "reply-all", "forward"}
            || (mode in {"reply", "reply-all", "forward"} && (mailbox == "" || uid.None? || uid.value == 0))
    ensures r.Some? ==>
              && (r.value.mode == New <==> mode in {"", "new"})
              && (r.value.mode == Reply <==> mode == "reply")
              && (r.value.mode == ReplyAll <==> mode == "reply-all")
              && (r.value.mode == Forward <==> mode == "forward")
              && r.value.mailbox == mailbox && r.value.to == to && r.value.cc == cc
              && r.value.subject == subject && r.value.body == body
              && (if r.value.mode == New then r.value.uid == 0 else Some(r.value.uid) == uid && r.value.uid > 0)
  {
    var m :- ModeNamed(mode);
    if RequiresOriginal(m) && (uid.None? || uid.value == 0 || mailbox == "") then None
    else if to == "" || subject == "" || body == "" then None
    else Some(Form(m, mailbox, if RequiresOriginal(m) then uid.value else 0, to, cc, subject, body))
  }

  datatype Flag = Answered | Forwarded

  /** A message in a mailbox. Its identity never changes, its flags do. */
  datatype Stored = Stored(original: T.Original, flags: set<Flag>)

  /** A mail account's mailbox, and a UID in it. */
  datatype Place = Place(account: string, mailbox: string, uid: nat)

  type Mailboxes = map<Place, Stored>

  function PlaceOf(account: string, form: Form): Place {
    Place(account, form.mailbox, form.uid)
  }

  function FlagFor(mode: Mode): Option<Flag> {
    match mode
    case New => None
    case Reply => Some(Answered)
    case ReplyAll => Some(Answered)
    case Forward => Some(Forwarded)
  }

  const NO_ORIGINAL := T.Original("", "", "")

  /** The message a form sends; None when a reply's original has no Message-ID. */
  function Compose(email: string, form: Form, original: T.Original): Option<M.Message> {
    var message := M.Message(email, form.to, form.cc, form.subject, form.body, "", "");
    if !IsReply(form.mode) then Some(message)
    else if original.messageId == "" then None
    else Some(T.Reply(original, message))
  }

  /** A UID STORE +FLAGS: missing messages are skipped without an error. */
  function AddFlag(boxes: Mailboxes, place: Place, flag: Flag): Mailboxes {
    if place in boxes then boxes[place := boxes[place].(flags := boxes[place].flags + {flag})] else boxes
  }

  // ----- One handler -----

  datatype Page = BadRequest | NotFound | InternalError | SmtpError | ImapError | Sent(warning: bool)

  datatype Account = Account(id: string, email: string, hasImap: bool, hasSmtp: bool)

  /** What can go wrong around the SMTP session itself. */
  datatype Faults = Faults(
    loadAccount: bool, imapPassword: bool, fetch: bool, smtpPassword: bool,
    imapPasswordAgain: bool, store: bool, storeAppliedAnyway: bool)

  /** The original can be had, if the mode needs one. */
  predicate Loads(boxes: Mailboxes, account: Account, form: Form, faults: Faults) {
    form.mode in {Reply, ReplyAll, Forward} ==>
      account.hasImap && !faults.imapPassword && !faults.fetch && Place(account.id, form.mailbox, form.uid) in boxes
  }

  function OriginalFor(boxes: Mailboxes, account: Account, form: Form): T.Original {
    var place := Place(account.id, form.mailbox, form.uid);
    if form.mode in {Reply, ReplyAll, Forward} && place in boxes then boxes[place].original else T.Original("", "", "")
  }

  /** When a request ends in a sent message: nothing is missing, nothing fails, and the SMTP session succeeds. */
  ghost predicate GoesOut(boxes: Mailboxes, w: S.World, found: Option<Account>, smtp: S.Account, form: Option<Form>, faults: Faults) {
    && form.Some? && !faults.loadAccount
    && found.Some? && found.value.hasSmtp
    && Loads(boxes, found.value, form.value, faults)
    && !faults.smtpPassword
    && var message := Compose(found.value.email, form.value, OriginalFor(boxes, found.value, form.value));
       message.Some? && S.Succeeds(w, smtp, message.value)
  }

  /** The flag a successful send in this mode leaves on its original, in the words of the protocol. */
  predicate Owes(mode: Mode, flag: Flag) {
    || (mode in {Reply, ReplyAll} && flag == Answered)
    || (mode == Forward && flag == Forwarded)
  }

  /** The message at this place, if there is one, gains exactly the flag; nothing else changes. */
  ghost predicate Gains(boxes: Mailboxes, boxes': Mailboxes, place: Place, flag: Flag) {
    && boxes'.Keys == boxes.Keys
    && (forall p | p in boxes && p != place :: boxes'[p] == boxes[p])
    && (place in boxes ==> boxes'[place] == Stored(boxes[place].original, boxes[place].flags + {flag}))
  }

  /** What flagging after a send may do: its flag is stored, or a warning is due and all is as before. */
  ghost predicate Flagged(boxes: Mailboxes, boxes': Mailboxes, account: Account, form: Form, warning: bool) {
    var place := Place(account.id, form.mailbox, form.uid);
    match form.mode
    case New => boxes' == boxes && !warning
    case Forward => Gains(boxes, boxes', place, Forwarded) || (warning && boxes' == boxes)
    case _ => Gains(boxes, boxes', place, Answered) || (warning && boxes' == boxes)
  }

  class MailServer {
    var boxes: Mailboxes
    var sent: seq<M.Message>

    constructor (boxes: Mailboxes)
      ensures this.boxes == boxes && sent == []
    {
      this.boxes := boxes;
      sent := [];
    }

    /** loadComposeOriginal. */
    method LoadOriginal(account: Account, form: Form, faults: Faults) returns (r: Result<T.Original, Page>)
      ensures r.Success? <==> Loads(boxes, account, form, faults)
      ensures r.Success? ==> r.value == OriginalFor(boxes, account, form)
      ensures r.Failure? ==> r.error == if account.hasImap && faults.imapPassword then InternalError else ImapError
    {
      if !RequiresOriginal(form.mode) {
        return Success(NO_ORIGINAL);
      }
      if !account.hasImap {
        return Failure(ImapError);
      }
      if faults.imapPassword {
        return Failure(InternalError);
      }
      var place := PlaceOf(account.id, form);
      if faults.fetch || place !in boxes {
        return Failure(ImapError);
      }
      return Success(boxes[place].original);
    }

    /** applyComposeSideEffect: true when the page must warn that flagging failed. */
    method ApplySideEffect(account: Account, form: Form, faults: Faults) returns (warning: bool)
      modifies this
      ensures sent == old(sent)
      ensures Flagged(old(boxes), boxes, account, form, warning)
      ensures warning <==> form.mode != New && (faults.imapPasswordAgain || faults.store)
    {
      if form.mode == New {
        return false;
      }
      if faults.imapPasswordAgain {
        return true;
      }
      if !faults.store || faults.storeAppliedAnyway {
        boxes := AddFlag(boxes, PlaceOf(account.id, form), FlagFor(form.mode).value);
      }
      return faults.store;
    }

    /** handleSendMessage, run without interruption; found is what the account store answered. */
    method HandleSend(w: S.World, found: Option<Account>, smtp: S.Account, form: Option<Form>, faults: Faults) returns (page: Page)
      modifies this
      ensures page.Sent? <==> GoesOut(old(boxes), w, found, smtp, form, faults)
      // sent lists what the SMTP session reported as sent: exactly the composed message of each Sent page.
      ensures !page.Sent? ==> sent == old(sent) && boxes == old(boxes)
      ensures page.Sent? ==>
                && var message := Compose(found.value.email, form.value, OriginalFor(old(boxes), found.value, form.value));
                && sent == old(sent) + [message.value]
                // Flagging decides the warning, never the outcome.
                && Flagged(old(boxes), boxes, found.value, form.value, page.warning)
                && (page.warning <==> form.value.mode != New && (faults.imapPasswordAgain || faults.store))
      // Which page tells what went wrong first.
      ensures page == BadRequest <==> form.None?
      ensures page == NotFound <==> form.Some? && !faults.loadAccount && found.None?
      ensures page == InternalError <==>
              && form.Some?
              && (|| faults.loadAccount
                  || (&& found.Some? && found.value.hasSmtp
                      && if Loads(old(boxes), found.value, form.value, faults) then faults.smtpPassword
                         else found.value.hasImap && faults.imapPassword))
    {
      if form.None? {
        return BadRequest;
      }
      if faults.loadAccount {
        return InternalError;
      }
      if found.None? {
        return NotFound;
      }
      var account := found.value;
      if !account.hasSmtp {
        return SmtpError;
      }
      var original := LoadOriginal(account, form.value, faults);
      if original.Failure? {
        return original.error;
      }
      if faults.smtpPassword {
        return InternalError;
      }
      var message := Compose(account.email, form.value, original.value);
      if message.None? {
        return ImapError;
      }
      var error, _ := S.Send(w, smtp, message.value);
      if error.Some? {
        return SmtpError;
      }
      sent := sent + [message.value];
      var warning := ApplySideEffect(account, form.value, faults);
      return Sent(warning);
    }
  }

  /** A composed reply carries its original's non-empty Message-ID; nothing else carries any. */
  lemma ComposedThreading(email: string, form: Form, original: T.Original)
    ensures var m := Compose(email, form, original);
            && (m.None? <==> form.mode in {Reply, ReplyAll} && original.messageId == "")
            && (m.Some? ==>
                && m.value.from == email && m.value.to == form.to && m.value.cc == form.cc
                && m.value.subject == form.subject && m.value.body == form.body
                && (if form.mode in {Reply, ReplyAll}
                    then m.value.inReplyTo == original.messageId != "" && m.value.references == T.ReplyReferences(original)
                    else m.value.inReplyTo == "" == m.value.references))
  {}

  // ----- Interleaved handlers -----

  /** A handler in progress: which message it concerns, and what it loaded. */
  datatype Job = Job(email: string, account: string, form: Form, original: T.Original)

  datatype State = State(boxes: Mailboxes, loaded: multiset<Job>, sent: multiset<Job>, used: set<Place>)

  /**
   * Arrive, Expunge and Outside are the mail server's and other clients' doing.
   * A store may be applied although it is reported as failed.
   */
  datatype Event =
    | Arrive(place: Place, message: Stored)
    | Expunge(place: Place)
    | Outside(place: Place, flags: set<Flag>)
    | Load(job: Job)
    | SendMessage(job: Job, mail: M.Message, ok: bool)
    | StoreFlag(job: Job, flag: Flag, ok: bool, applied: bool)
    | Abandon(job: Job)

  function JobPlace(job: Job): Place {
    PlaceOf(job.account, job.form)
  }

  ghost predicate Step(s: State, e: Event, s': State) {
    match e
    case Arrive(place, message) =>
      // UIDs are not reused (section 2.3.1.1 of RFC 3501).
      place !in s.used && s' == s.(boxes := s.boxes[place := message], used := s.used + {place})
    case Expunge(place) => s' == s.(boxes := s.boxes - {place})
    case Outside(place, flags) =>
      place in s.boxes && s' == s.(boxes := s.boxes[place := s.boxes[place].(flags := flags)])
    case Load(job) =>
      && (if RequiresOriginal(job.form.mode)
          then JobPlace(job) in s.boxes && job.original == s.boxes[JobPlace(job)].original
          else job.original == NO_ORIGINAL)
      && s' == s.(loaded := s.loaded + multiset{job})
    case SendMessage(job, message, ok) =>
      && job in s.loaded
      && Compose(job.email, job.form, job.original) == Some(message)
      && s' == s.(loaded := s.loaded - multiset{job}, sent := if ok then s.sent + multiset{job} else s.sent)
    case StoreFlag(job, flag, ok, applied) =>
      && job in s.sent
      && FlagFor(job.form.mode) == Some(flag)
      && (ok ==> applied)
      && s' == s.(sent := s.sent - multiset{job}, boxes := if applied then AddFlag(s.boxes, JobPlace(job), flag) else s.boxes)
    case Abandon(job) =>
      && job in s.loaded + s.sent
      && s' == if job in s.loaded then s.(loaded := s.loaded - multiset{job}) else s.(sent := s.sent - multiset{job})
  }

  const INITIAL := State(map[], multiset{}, multiset{}, {})

  ghost predicate Run(states: seq<State>, events: seq<Event>) {
    && |states| == |events| + 1
    && states[0] == INITIAL
    && forall i | 0 <= i < |events| :: Step(states[i], events[i], states[i + 1])
  }

  /** This original arrived at this place. */
  ghost predicate Arrived(events: seq<Event>, place: Place, original: T.Original) {
    exists i | 0 <= i < |events| :: IsArrival(events[i], place, original)
  }

  predicate IsArrival(e: Event, place: Place, original: T.Original) {
    e.Arrive? && e.place == place && e.message.original == original
  }

  /** A successful send in a mode with this flag, for this place, answering this original. */
  ghost predicate SentFor(events: seq<Event>, place: Place, flag: Flag, original: T.Original) {
    exists i | 0 <= i < |events| :: IsSendFor(events[i], place, flag, original)
  }

  predicate IsSendFor(e: Event, place: Place, flag: Flag, original: T.Original) {
    && e.SendMessage? && e.ok
    && place == Place(e.job.account, e.job.form.mailbox, e.job.form.uid)
    && Owes(e.job.form.mode, flag)
    && (flag == Answered ==>
        && e.mail.inReplyTo == original.messageId != ""
        && e.mail.references == T.ReplyReferences(original))
  }

  /** The flag was there on arrival, or another client set it. */
  ghost predicate SetByOthers(events: seq<Event>, place: Place, flag: Flag) {
    exists i | 0 <= i < |events| :: IsOutsideFlag(events[i], place, flag)
  }

  predicate IsOutsideFlag(e: Event, place: Place, flag: Flag) {
    || (e.Arrive? && e.place == place && flag in e.message.flags)
    || (e.Outside? && e.place == place && flag in e.flags)
  }

  ghost predicate Explained(events: seq<Event>, boxes: Mailboxes) {
    forall place, flag | place in boxes && flag in boxes[place].flags ::
      SetByOthers(events, place, flag) || SentFor(events, place, flag, boxes[place].original)
  }

  /** What is known of a job that loaded an original: it is the message that arrived there. */
  ghost predicate KnowsItsOriginal(events: seq<Event>, s: State, job: Job) {
    RequiresOriginal(job.form.mode) ==>
      && Arrived(events, JobPlace(job), job.original)
      && JobPlace(job) in s.used
      && (JobPlace(job) in s.boxes ==> s.boxes[JobPlace(job)].original == job.original)
  }

  ghost predicate SentWasLogged(events: seq<Event>, job: Job) {
    forall flag | FlagFor(job.form.mode) == Some(flag) :: SentFor(events, JobPlace(job), flag, job.original)
  }

  ghost predicate Sound(events: seq<Event>, s: State) {
    && s.boxes.Keys <= s.used
    && Explained(events, s.boxes)
    && (forall place | place in s.boxes :: Arrived(events, place, s.boxes[place].original))
    && (forall job | job in s.loaded || job in s.sent :: KnowsItsOriginal(events, s, job))
    && (forall job | job in s.sent :: SentWasLogged(events, job))
  }

  lemma HistoryGrows(events: seq<Event>, e: Event, place: Place, flag: Flag, original: T.Original)
    ensures SetByOthers(events, place, flag) ==> SetByOthers(events + [e], place, flag)
    ensures SentFor(events, place, flag, original) ==> SentFor(events + [e], place, flag, original)
    ensures IsOutsideFlag(e, place, flag) ==> SetByOthers(events + [e], place, flag)
    ensures IsSendFor(e, place, flag, original) ==> SentFor(events + [e], place, flag, original)
    ensures Arrived(events, place, original) || IsArrival(e, place, original) ==> Arrived(events + [e], place, original)
  {
    var more := events + [e];
    assert more[|events|] == e;
    if SetByOthers(events, place, flag) {
      var i :| 0 <= i < |events| && IsOutsideFlag(events[i], place, flag);
      assert more[i] == events[i];
    }
    if SentFor(events, place, flag, original) {
      var i :| 0 <= i < |events| && IsSendFor(events[i], place, flag, original);
      assert more[i] == events[i];
    }
    if Arrived(events, place, original) {
      var i :| 0 <= i < |events| && IsArrival(events[i], place, original);
      assert more[i] == events[i];
    }
  }

  lemma ArrivalsStayKnown(events: seq<Event>, s: State, e: Event, s': State, place: Place)
    requires Sound(events, s) && Step(s, e, s') && place in s'.boxes
    ensures Arrived(events + [e], place, s'.boxes[place].original)
  {
    HistoryGrows(events, e, place, Answered, s'.boxes[place].original);
  }

  lemma FlagStaysExplained(events: seq<Event>, s: State, e: Event, s': State, place: Place, flag: Flag)
    requires Sound(events, s) && Step(s, e, s')
    requires place in s'.boxes && flag in s'.boxes[place].flags
    ensures SetByOthers(events + [e], place, flag) || SentFor(events + [e], place, flag, s'.boxes[place].original)
  {
    HistoryGrows(events, e, place, flag, s'.boxes[place].original);
    if e.StoreFlag? && e.applied && JobPlace(e.job) == place && e.flag == flag {
      assert SentWasLogged(events, e.job) && KnowsItsOriginal(events, s, e.job);
    }
  }

  lemma StaysExplained(events: seq<Event>, s: State, e: Event, s': State)
    requires Sound(events, s) && Step(s, e, s')
    ensures Explained(events + [e], s'.boxes)
  {
    forall place, flag | place in s'.boxes && flag in s'.boxes[place].flags
      ensures SetByOthers(events + [e], place, flag) || SentFor(events + [e], place, flag, s'.boxes[place].original)
    {
      FlagStaysExplained(events, s, e, s', place, flag);
    }
  }

  lemma JobsStayKnown(events: seq<Event>, s: State, e: Event, s': State, job: Job)
    requires Sound(events, s) && Step(s, e, s') && (job in s'.loaded || job in s'.sent)
    ensures KnowsItsOriginal(events + [e], s', job)
  {
    PlacesKeepTheirMessage(s, e, s', JobPlace(job));
    HistoryGrows(events, e, JobPlace(job), Answered, job.original);
    if !(e.Load? && e.job == job) {
      JobsComeFromLoads(s, e, s', job);
    }
  }

  lemma JobsComeFromLoads(s: State, e: Event, s': State, job: Job)
    requires Step(s, e, s') && (job in s'.loaded || job in s'.sent) && !(e.Load? && e.job == job)
    ensures job in s.loaded || job in s.sent
  {}

  /** A used place keeps the message it had, or loses it. */
  lemma PlacesKeepTheirMessage(s: State, e: Event, s': State, place: Place)
    requires Step(s, e, s')
    ensures s.used <= s'.used
    ensures place in s'.boxes && place in s.used ==> place in s.boxes && s'.boxes[place].original == s.boxes[place].original
  {}

  lemma SendsStayLogged(events: seq<Event>, s: State, e: Event, s': State, job: Job)
    requires Sound(events, s) && Step(s, e, s') && job in s'.sent
    ensures SentWasLogged(events + [e], job)
  {
    forall flag | FlagFor(job.form.mode) == Some(flag)
      ensures SentFor(events + [e], JobPlace(job), flag, job.original)
    {
      HistoryGrows(events, e, JobPlace(job), flag, job.original);
      if job !in s.sent {
        ComposedThreading(job.email, job.form, job.original);
        assert IsSendFor(e, JobPlace(job), flag, job.original);
      } else {
        assert SentWasLogged(events, job);
      }
    }
  }

  lemma StepKeepsSound(events: seq<Event>, s: State, e: Event, s': State)
    requires Sound(events, s) && Step(s, e, s')
    ensures Sound(events + [e], s')
  {
    StaysExplained(events, s, e, s');
    forall place | place in s'.boxes
      ensures Arrived(events + [e], place, s'.boxes[place].original)
    {
      ArrivalsStayKnown(events, s, e, s', place);
    }
    forall job | job in s'.loaded || job in s'.sent
      ensures KnowsItsOriginal(events + [e], s', job)
    {
      JobsStayKnown(events, s, e, s', job);
    }
    forall job | job in s'.sent
      ensures SentWasLogged(events + [e], job)
    {
      SendsStayLogged(events, s, e, s', job);
    }
  }

  /**
   * In every interleaving of send handlers with each other, with failures and
   * with the mail server's own changes: a message carries \Answered or
   * $Forwarded only if others set it, or after a successful send in the
   * matching mode for that very mailbox and UID, whose In-Reply-To (for
   * replies) is that message's non-empty Message-ID; and what a handler took
   * for the original is the message that arrived at that place.
   */
  lemma {:induction false} FlagsFollowSends(states: seq<State>, events: seq<Event>, n: nat)
    requires Run(states, events) && n <= |events|
    ensures SoundAt(states, events, n)
  {
    if n == 0 {
      NothingYet();
      assert events[..0] == [];
    } else {
      FlagsFollowSends(states, events, n - 1);
      SoundStep(states, events, n - 1);
    }
  }

  ghost predicate SoundAt(states: seq<State>, events: seq<Event>, n: nat)
    requires n <= |events| && n < |states|
  {
    Sound(events[..n], states[n])
  }

  lemma SoundStep(states: seq<State>, events: seq<Event>, i: nat)
    requires Run(states, events) && i < |events| && SoundAt(states, events, i)
    ensures SoundAt(states, events, i + 1)
  {
    StepKeepsSound(events[..i], states[i], events[i], states[i + 1]);
    assert events[..i + 1] == events[..i] + [events[i]];
  }

  lemma NothingYet()
    ensures Sound([], INITIAL)
  {}

  /** No handler step removes a flag, or a message, or touches any other place. */
  lemma HandlersOnlyAddTheirFlag(s: State, e: Event, s': State, place: Place)
    requires Step(s, e, s') && !e.Arrive? && !e.Expunge? && !e.Outside?
    ensures s'.boxes.Keys == s.boxes.Keys
    ensures place in s.boxes ==>
              && s'.boxes[place].original == s.boxes[place].original
              && s.boxes[place].flags <= s'.boxes[place].flags
              && (s'.boxes[place].flags != s.boxes[place].flags ==>
                    && e.StoreFlag? && JobPlace(e.job) == place
                    && s'.boxes[place].flags == s.boxes[place].flags + {e.flag})
  {
    if e.StoreFlag? {
      assert s'.boxes == if e.applied then AddFlag(s.boxes, JobPlace(e.job), e.flag) else s.boxes;
    } else {
      assert s'.boxes == s.boxes;
    }
  }

  lemma FlagGained(events: seq<Event>, s: State, e: Event, s': State, place: Place, flag: Flag)
    requires Sound(events, s) && Step(s, e, s')
    requires place in s'.boxes && flag in s'.boxes[place].flags
    requires place !in s.boxes || flag !in s.boxes[place].flags
    ensures IsOutsideFlag(e, place, flag) || FlaggedAfterSend(events, e, place, flag, s'.boxes[place].original)
  {
    if !IsOutsideFlag(e, place, flag) {
      assert e.StoreFlag? && SentWasLogged(events, e.job) && KnowsItsOriginal(events, s, e.job);
    }
  }

  /** A handler stores the flag, having sent a message in the matching mode for that very message. */
  ghost predicate FlaggedAfterSend(events: seq<Event>, e: Event, place: Place, flag: Flag, original: T.Original) {
    e.StoreFlag? && JobPlace(e.job) == place && e.flag == flag && SentFor(events, place, flag, original)
  }

  /**
   * A flag that is on a message after a step and was not before comes from that
   * step: from the mail server or another client, or from a handler after its
   * successful send.
   */
  lemma FlagGainsFollowSends(states: seq<State>, events: seq<Event>, i: nat, place: Place, flag: Flag)
    requires Run(states, events) && i < |events|
    requires place in states[i + 1].boxes && flag in states[i + 1].boxes[place].flags
    requires place !in states[i].boxes || flag !in states[i].boxes[place].flags
    ensures || IsOutsideFlag(events[i], place, flag)
            || FlaggedAfterSend(events[..i], events[i], place, flag, states[i + 1].boxes[place].original)
  {
    FlagsFollowSends(states, events, i);
    FlagGained(events[..i], states[i], events[i], states[i + 1], place, flag);
  }
}
