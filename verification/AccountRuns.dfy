/**
 * Runs of many concurrent account handlers. A save is two steps, its snapshot
 * read and its commit, and any other step may come between them. A committed
 * transaction is one step: touching the account row locks it against the other
 * writers of the same account.
 */
module AccountRuns {
  import opened Prelude
  import opened Envelope
  import opened Store
  import opened AccountHandlers
  import AccountId

  datatype Env = Env(crypto: Crypto, kek: Bytes)

  datatype Key = Key(p: Protocol, user: User, id: Id)

  /** A save between its snapshot and its commit: what it saw, and what it will write. */
  datatype Save = Save(key: Key, before: Option<Row>, password: Bytes, row: Row)

  datatype State = State(db: Directory, waiting: seq<Save>)

  /** applied says whether the change reached the database; an error reply does not tell. */
  datatype Event =
    | Create(user: User, id: Id, email: string, outcome: Outcome)
    | DeleteAccount(user: User, id: Id, outcome: Outcome, applied: bool)
    | RemoveChannel(key: Key, outcome: Outcome, applied: bool)
    | ReadSnapshot(key: Key, form: Form, found: Option<Detail>, keyFileRead: bool, random: Randomness)
    | CommitSave(save: Save, outcome: Outcome, applied: bool)
    | Abandon(save: Save)

  const INITIAL := State(map[], [])

  function RowAt(db: Directory, key: Key): Option<Row> {
    ChannelAt(db, key.user, key.id, key.p)
  }

  function KeyFile(env: Env, read: bool): Option<Bytes> {
    if read then Some(env.kek) else None
  }

  ghost predicate WriteApplied(db: Directory, db': Directory, key: Key, row: Option<Row>, o: Outcome, applied: bool) {
    && WriteStep(db, db', key.p, key.user, key.id, row, o)
    && (o == Ok ==> applied)
    && (applied ==> (key.user, key.id) in db)
    && db' == if applied then Put(db, key.user, key.id, key.p, row) else db
  }

  function Without<T>(s: seq<T>, i: nat): seq<T>
    requires i < |s|
  {
    s[..i] + s[i + 1..]
  }

  ghost predicate Step(env: Env, s: State, e: Event, s': State) {
    match e
    case Create(user, id, email, o) =>
      InsertStep(s.db, s'.db, user, id, Record(email, None, None), o) && s'.waiting == s.waiting
    case DeleteAccount(user, id, o, applied) =>
      && DeleteStep(s.db, s'.db, user, id, o)
      && (o == Ok ==> applied)
      && s' == if applied then s.(db := s.db - {(user, id)}) else s
    case RemoveChannel(key, o, applied) =>
      WriteApplied(s.db, s'.db, key, None, o, applied) && s'.waiting == s.waiting
    case ReadSnapshot(key, form, found, keyFileRead, random) =>
      && Answers(found, s.db, key.user, key.id)
      && Possible(random)
      && s' == (match Prepare(env.crypto, KeyFile(env, keyFileRead), key.p, key.user, found, form, random)
                case Refused(_) => s
                case Ready(id, row) =>
                  s.(waiting := s.waiting + [Save(key.(id := id), RowAt(s.db, key), form.password, row)]))
    case CommitSave(save, o, applied) =>
      && WriteApplied(s.db, s'.db, save.key, Some(save.row), o, applied)
      && exists i | 0 <= i < |s.waiting| :: s.waiting[i] == save && s'.waiting == Without(s.waiting, i)
    case Abandon(save) =>
      && s'.db == s.db
      && exists i | 0 <= i < |s.waiting| :: s.waiting[i] == save && s'.waiting == Without(s.waiting, i)
  }

  ghost predicate Run(env: Env, states: seq<State>, events: seq<Event>) {
    && |states| == |events| + 1
    && states[0] == INITIAL
    && forall i | 0 <= i < |events| :: Step(env, states[i], events[i], states[i + 1])
  }

  ghost predicate Usable(env: Env) {
    Lawful(env.crypto.aead) && |env.kek| == KEY_SIZE
  }

  // ----- Every stored password was submitted -----

  /** Some save of this user, account and protocol submitted this password. */
  ghost predicate Submitted(events: seq<Event>, key: Key, password: Bytes) {
    exists i | 0 <= i < |events| ::
      events[i].ReadSnapshot? && events[i].key == key && events[i].form.password == password != ""
  }

  function Decrypted(env: Env, key: Key, secret: Secret): Option<Bytes> {
    ReadPassword(env.crypto.aead, Some(env.kek), key.p, key.user, key.id, secret)
  }

  ghost predicate Recovers(env: Env, events: seq<Event>, key: Key, row: Option<Row>) {
    row.Some? ==>
      var password := Decrypted(env, key, row.value.secret);
      password.Some? && Submitted(events, key, password.value)
  }

  ghost predicate RowsRecover(env: Env, events: seq<Event>, db: Directory) {
    forall key :: Recovers(env, events, key, RowAt(db, key))
  }

  ghost predicate QueueRecovers(env: Env, events: seq<Event>, waiting: seq<Save>) {
    forall save | save in waiting :: Recovers(env, events, save.key, Some(save.row))
  }

  ghost predicate Sound(env: Env, events: seq<Event>, s: State) {
    WellKeyed(s.db) && RowsRecover(env, events, s.db) && QueueRecovers(env, events, s.waiting)
  }

  lemma SubmittedGrows(events: seq<Event>, e: Event, key: Key, password: Bytes)
    requires Submitted(events, key, password)
    ensures Submitted(events + [e], key, password)
  {
    var i :| 0 <= i < |events| && events[i].ReadSnapshot? && events[i].key == key && events[i].form.password == password;
    assert (events + [e])[i] == events[i];
  }

  lemma RecoversGrows(env: Env, events: seq<Event>, e: Event, key: Key, row: Option<Row>)
    requires Recovers(env, events, key, row)
    ensures Recovers(env, events + [e], key, row)
  {
    if row.Some? {
      SubmittedGrows(events, e, key, Decrypted(env, key, row.value.secret).value);
    }
  }

  /** A snapshot read queues a row that reads back as the new password, or keeps the stored secret. */
  lemma SnapshotQueues(env: Env, s: State, e: Event, s': State)
    requires Usable(env) && Step(env, s, e, s') && e.ReadSnapshot?
    ensures s'.db == s.db
    ensures s'.waiting != s.waiting ==>
              && |s'.waiting| == |s.waiting| + 1
              && s'.waiting[..|s.waiting|] == s.waiting
              && var save := s'.waiting[|s.waiting|];
              && save.key == e.key
              && save.before == RowAt(s.db, e.key)
              && save.password == e.form.password
              && KeepsOrEncrypts(env, save)
  {
    PreparedIsSaved(env.crypto, KeyFile(env, e.keyFileRead), s.db, e.key.p, e.key.user, e.key.id, e.found, e.form, e.random);
    var r := Prepare(env.crypto, KeyFile(env, e.keyFileRead), e.key.p, e.key.user, e.found, e.form, e.random);
    if r.Ready? && e.form.password != "" {
      assert e.keyFileRead;
    }
  }

  ghost predicate KeepsOrEncrypts(env: Env, save: Save) {
    && (save.password == "" ==> save.before.Some? && save.row.secret == save.before.value.secret)
    && (save.password != "" ==> Decrypted(env, save.key, save.row.secret) == Some(save.password))
    && (save.before.Some? ==> WrappedOf(save.row.secret) == WrappedOf(save.before.value.secret))
  }

  function WrappedOf(secret: Secret): WrappedKey {
    WrappedKey(secret.wrappedDek, secret.kekVersion)
  }

  lemma RowAfterWrite(db: Directory, db': Directory, k: Key, row: Option<Row>, o: Outcome, applied: bool, key: Key)
    requires WellKeyed(db) && WriteApplied(db, db', k, row, o, applied)
    ensures WellKeyed(db')
    ensures RowAt(db', key) == if applied && k == key then row else RowAt(db, key)
  {
    WritesKeepKeys(db, db', k.p, k.user, k.id, row, o);
  }

  lemma RowAfterCreate(db: Directory, db': Directory, user: User, id: Id, email: string, o: Outcome, key: Key)
    requires WellKeyed(db) && InsertStep(db, db', user, id, Record(email, None, None), o)
    ensures WellKeyed(db')
    ensures RowAt(db', key) == RowAt(db, key)
  {
    assert !IdTaken(db, id) ==> (user, id) !in db;
    InsertsKeepKeys(db, db', user, id, Record(email, None, None), o);
  }

  /** An event moves a row only as its constructor says. */
  lemma RowAfter(env: Env, s: State, e: Event, s': State, key: Key)
    requires Step(env, s, e, s') && WellKeyed(s.db)
    ensures WellKeyed(s'.db)
    ensures RowAt(s'.db, key) ==
            match e
            case CommitSave(save, _, true) => if save.key == key then Some(save.row) else RowAt(s.db, key)
            case RemoveChannel(k, _, true) => if k == key then None else RowAt(s.db, key)
            case DeleteAccount(user, id, _, true) =>
              if (user, id) == (key.user, key.id) then None else RowAt(s.db, key)
            case _ => RowAt(s.db, key)
  {
    match e
    case Create(user, id, email, o) => RowAfterCreate(s.db, s'.db, user, id, email, o, key);
    case RemoveChannel(k, o, applied) => RowAfterWrite(s.db, s'.db, k, None, o, applied, key);
    case CommitSave(save, o, applied) => RowAfterWrite(s.db, s'.db, save.key, Some(save.row), o, applied, key);
    case _ =>
  }

  lemma StoredRowsRecover(env: Env, events: seq<Event>, s: State, e: Event, s': State, key: Key)
    requires Sound(env, events, s) && Step(env, s, e, s')
    ensures WellKeyed(s'.db) && Recovers(env, events + [e], key, RowAt(s'.db, key))
  {
    RowAfter(env, s, e, s', key);
    RecoversGrows(env, events, e, key, RowAt(s.db, key));
    if e.CommitSave? && e.save.key == key {
      assert e.save in s.waiting;
      RecoversGrows(env, events, e, key, Some(e.save.row));
    }
  }

  lemma QueuedRowsRecover(env: Env, events: seq<Event>, s: State, e: Event, s': State, save: Save)
    requires Usable(env) && Sound(env, events, s) && Step(env, s, e, s') && save in s'.waiting
    ensures Recovers(env, events + [e], save.key, Some(save.row))
  {
    if save in s.waiting {
      RecoversGrows(env, events, e, save.key, Some(save.row));
    } else {
      SnapshotQueues(env, s, e, s');
      assert save == s'.waiting[|s.waiting|];
      if save.password == "" {
        assert Recovers(env, events, e.key, RowAt(s.db, e.key));
        RecoversGrows(env, events, e, save.key, save.before);
      } else {
        assert (events + [e])[|events|] == e;
      }
    }
  }

  lemma AllStoredRowsRecover(env: Env, events: seq<Event>, s: State, e: Event, s': State)
    requires Sound(env, events, s) && Step(env, s, e, s')
    ensures RowsRecover(env, events + [e], s'.db)
  {
    var events', db' := events + [e], s'.db;
    forall key: Key
      ensures Recovers(env, events', key, RowAt(db', key))
    {
      StoredRowsRecover(env, events, s, e, s', key);
    }
  }

  lemma StepKeepsSound(env: Env, events: seq<Event>, s: State, e: Event, s': State)
    requires Usable(env) && Sound(env, events, s) && Step(env, s, e, s')
    ensures Sound(env, events + [e], s')
  {
    RowAfter(env, s, e, s', Key(Imap, "", ""));
    AllStoredRowsRecover(env, events, s, e, s');
    forall save | save in s'.waiting
      ensures Recovers(env, events + [e], save.key, Some(save.row))
    {
      QueuedRowsRecover(env, events, s, e, s', save);
    }
  }

  /**
   * In every interleaving, with any statement failing, every stored row opens
   * under its owner's additional data and decrypts to a password that some save
   * submitted for that same user, account and protocol.
   */
  lemma {:induction false} StoredPasswordsWereSubmitted(env: Env, states: seq<State>, events: seq<Event>)
    requires Usable(env) && Run(env, states, events)
    ensures Sound(env, events, states[|events|])
  {
    if events != [] {
      var n := |events| - 1;
      StoredPasswordsWereSubmitted(env, states[..n + 1], events[..n]);
      StepKeepsSound(env, events[..n], states[n], events[n], states[n + 1]);
      assert events == events[..n] + [events[n]];
    }
  }

  // ----- Which submitted password is stored -----

  function StoredPassword(env: Env, db: Directory, key: Key): Option<Bytes> {
    match RowAt(db, key)
    case None => None
    case Some(row) => Decrypted(env, key, row.secret)
  }

  predicate Removes(e: Event, key: Key) {
    || (e.RemoveChannel? && e.applied && e.key == key)
    || (e.DeleteAccount? && e.applied && (e.user, e.id) == (key.user, key.id))
  }

  predicate Writes(e: Event, key: Key) {
    e.CommitSave? && e.applied && e.save.key == key
  }

  function PasswordAfter(last: Option<Bytes>, e: Event, key: Key): Option<Bytes> {
    if Removes(e, key) then None
    else if Writes(e, key) && e.save.password != "" then Some(e.save.password)
    else last
  }

  /** The last non-empty password committed for this channel since it was created. */
  function LastPassword(events: seq<Event>, key: Key): Option<Bytes> {
    if events == [] then None
    else PasswordAfter(LastPassword(events[..|events| - 1], key), events[|events| - 1], key)
  }

  function CreatedAfter(created: Option<WrappedKey>, e: Event, key: Key): Option<WrappedKey> {
    if Removes(e, key) then None
    else if Writes(e, key) && created.None? then Some(WrappedOf(e.save.row.secret))
    else created
  }

  /** The wrapped key and version written when this channel was created. */
  function CreatedKey(events: seq<Event>, key: Key): Option<WrappedKey> {
    if events == [] then None
    else CreatedAfter(CreatedKey(events[..|events| - 1], key), events[|events| - 1], key)
  }

  lemma Unfold(events: seq<Event>, i: nat, key: Key)
    requires i < |events|
    ensures LastPassword(events[..i + 1], key) == PasswordAfter(LastPassword(events[..i], key), events[i], key)
    ensures CreatedKey(events[..i + 1], key) == CreatedAfter(CreatedKey(events[..i], key), events[i], key)
  {
    var prefix := events[..i + 1];
    assert prefix[|prefix| - 1] == events[i] && prefix[..|prefix| - 1] == events[..i];
  }

  /** Every queued save either keeps the secret it saw or holds its new password. */
  lemma {:induction false} QueuedSaves(env: Env, states: seq<State>, events: seq<Event>, i: nat)
    requires Usable(env) && Run(env, states, events) && i <= |events|
    ensures forall save | save in states[i].waiting :: KeepsOrEncrypts(env, save)
  {
    if i > 0 {
      QueuedSaves(env, states, events, i - 1);
      if events[i - 1].ReadSnapshot? {
        SnapshotQueues(env, states[i - 1], events[i - 1], states[i]);
      }
    }
  }

  /** What a commit is known to write. */
  ghost predicate KnownCommit(env: Env, e: Event) {
    e.CommitSave? ==> KeepsOrEncrypts(env, e.save) && Decrypted(env, e.save.key, e.save.row.secret).Some?
  }

  lemma AlongRun(env: Env, states: seq<State>, events: seq<Event>, i: nat)
    requires Usable(env) && Run(env, states, events) && i < |events|
    ensures Step(env, states[i], events[i], states[i + 1])
    ensures WellKeyed(states[i].db) && KnownCommit(env, events[i])
  {
    assert Run(env, states[..i + 1], events[..i]);
    StoredPasswordsWereSubmitted(env, states[..i + 1], events[..i]);
    QueuedSaves(env, states, events, i);
    if events[i].CommitSave? {
      assert Step(env, states[i], events[i], states[i + 1]);
      assert events[i].save in states[i].waiting;
    }
  }

  lemma StoredAfter(env: Env, s: State, e: Event, s': State, key: Key)
    requires Step(env, s, e, s') && WellKeyed(s.db) && KnownCommit(env, e)
    ensures StoredPassword(env, s'.db, key) ==
            if Removes(e, key) then None
            else if Writes(e, key) then
              if e.save.password != "" then Some(e.save.password) else Decrypted(env, key, e.save.before.value.secret)
            else StoredPassword(env, s.db, key)
    ensures Writes(e, key) ==> StoredPassword(env, s'.db, key).Some?
  {
    RowAfter(env, s, e, s', key);
  }

  /** An empty-password save writes back the password that is stored at that moment. */
  ghost predicate KeepsPassword(env: Env, s: State, e: Event, key: Key) {
    Writes(e, key) && e.save.password == "" ==>
      && e.save.before.Some?
      && RowAt(s.db, key).Some?
      && Decrypted(env, key, e.save.before.value.secret) == StoredPassword(env, s.db, key)
  }

  lemma LastPasswordStep(env: Env, states: seq<State>, events: seq<Event>, key: Key, i: nat)
    requires Usable(env) && Run(env, states, events) && i < |events|
    requires StoredPassword(env, states[i].db, key) == LastPassword(events[..i], key)
    ensures StoredPassword(env, states[i + 1].db, key) == LastPassword(events[..i + 1], key) <==>
            KeepsPassword(env, states[i], events[i], key)
  {
    AlongRun(env, states, events, i);
    StoredAfter(env, states[i], events[i], states[i + 1], key);
    Unfold(events, i, key);
  }

  ghost predicate LastPasswordStored(env: Env, states: seq<State>, events: seq<Event>, key: Key, i: nat)
    requires i <= |events| < |states|
  {
    StoredPassword(env, states[i].db, key) == LastPassword(events[..i], key)
  }

  lemma {:induction false} KeptUpTo(env: Env, states: seq<State>, events: seq<Event>, key: Key, n: nat)
    requires Usable(env) && Run(env, states, events) && n <= |events|
    requires forall i | 0 <= i < n :: KeepsPassword(env, states[i], events[i], key)
    ensures LastPasswordStored(env, states, events, key, n)
  {
    if n > 0 {
      KeptUpTo(env, states, events, key, n - 1);
      LastPasswordStep(env, states, events, key, n - 1);
    }
  }

  /**
   * The stored password is the last non-empty one saved, all along a run, if
   * and only if no empty-password save writes back a password other than the
   * one stored when it commits.
   */
  lemma LastPasswordExactly(env: Env, states: seq<State>, events: seq<Event>, key: Key)
    requires Usable(env) && Run(env, states, events)
    ensures (forall i | 0 <= i <= |events| :: LastPasswordStored(env, states, events, key, i))
       <==> (forall i | 0 <= i < |events| :: KeepsPassword(env, states[i], events[i], key))
  {
    if forall i | 0 <= i <= |events| :: LastPasswordStored(env, states, events, key, i) {
      forall i | 0 <= i < |events|
        ensures KeepsPassword(env, states[i], events[i], key)
      {
        assert LastPasswordStored(env, states, events, key, i) && LastPasswordStored(env, states, events, key, i + 1);
        LastPasswordStep(env, states, events, key, i);
      }
    }
    if forall i | 0 <= i < |events| :: KeepsPassword(env, states[i], events[i], key) {
      forall i | 0 <= i <= |events|
        ensures LastPasswordStored(env, states, events, key, i)
      {
        KeptUpTo(env, states, events, key, i);
      }
    }
  }

  function SecretOf(row: Option<Row>): Option<Secret> {
    match row
    case None => None
    case Some(r) => Some(r.secret)
  }

  /** A commit finds the secret its snapshot saw. */
  predicate Undisturbed(s: State, e: Event) {
    e.CommitSave? && e.applied ==> SecretOf(RowAt(s.db, e.save.key)) == SecretOf(e.save.before)
  }

  /** The last password wins as soon as empty-password saves are undisturbed; the others may race freely. */
  lemma LastPasswordWins(env: Env, states: seq<State>, events: seq<Event>, key: Key)
    requires Usable(env) && Run(env, states, events)
    requires forall i | 0 <= i < |events| :: events[i].CommitSave? && events[i].save.password == "" ==> Undisturbed(states[i], events[i])
    ensures StoredPassword(env, states[|events|].db, key) == LastPassword(events, key)
  {
    forall i | 0 <= i < |events|
      ensures KeepsPassword(env, states[i], events[i], key)
    {
      AlongRun(env, states, events, i);
      assert events[i].CommitSave? && events[i].save.password == "" ==> Undisturbed(states[i], events[i]);
    }
    KeptUpTo(env, states, events, key, |events|);
    assert events[..|events|] == events;
  }

  /** A write to this channel that finds a row writes that row's wrapped key and version. */
  predicate KeepsKey(s: State, e: Event, key: Key) {
    Writes(e, key) && RowAt(s.db, key).Some? ==> WrappedOf(e.save.row.secret) == WrappedOf(RowAt(s.db, key).value.secret)
  }

  /** The stored wrapped key and version are those the channel was created with. */
  predicate CreatedKeyStored(states: seq<State>, events: seq<Event>, key: Key, i: nat)
    requires i <= |events| < |states|
  {
    match RowAt(states[i].db, key)
    case None => CreatedKey(events[..i], key).None?
    case Some(row) => CreatedKey(events[..i], key) == Some(WrappedOf(row.secret))
  }

  lemma CreatedKeyStep(env: Env, states: seq<State>, events: seq<Event>, key: Key, i: nat)
    requires Usable(env) && Run(env, states, events) && i < |events|
    requires CreatedKeyStored(states, events, key, i)
    ensures CreatedKeyStored(states, events, key, i + 1) <==> KeepsKey(states[i], events[i], key)
  {
    AlongRun(env, states, events, i);
    RowAfter(env, states[i], events[i], states[i + 1], key);
    Unfold(events, i, key);
  }

  lemma {:induction false} KeyKeptUpTo(env: Env, states: seq<State>, events: seq<Event>, key: Key, n: nat)
    requires Usable(env) && Run(env, states, events) && n <= |events|
    requires forall i | 0 <= i < n :: KeepsKey(states[i], events[i], key)
    ensures CreatedKeyStored(states, events, key, n)
  {
    if n > 0 {
      KeyKeptUpTo(env, states, events, key, n - 1);
      CreatedKeyStep(env, states, events, key, n - 1);
    }
  }

  /**
   * A channel has the wrapped key and version it was created with, all along a
   * run, if and only if every write that finds a row writes that row's key.
   */
  lemma WrappedKeyExactly(env: Env, states: seq<State>, events: seq<Event>, key: Key)
    requires Usable(env) && Run(env, states, events)
    ensures (forall i | 0 <= i <= |events| :: CreatedKeyStored(states, events, key, i))
       <==> (forall i | 0 <= i < |events| :: KeepsKey(states[i], events[i], key))
  {
    if forall i | 0 <= i <= |events| :: CreatedKeyStored(states, events, key, i) {
      forall i | 0 <= i < |events|
        ensures KeepsKey(states[i], events[i], key)
      {
        assert CreatedKeyStored(states, events, key, i) && CreatedKeyStored(states, events, key, i + 1);
        CreatedKeyStep(env, states, events, key, i);
      }
    }
    if forall i | 0 <= i < |events| :: KeepsKey(states[i], events[i], key) {
      forall i | 0 <= i <= |events|
        ensures CreatedKeyStored(states, events, key, i)
      {
        KeyKeptUpTo(env, states, events, key, i);
      }
    }
  }

  /** A commit to this channel that finds a row started from one with the same wrapped key. */
  predicate KeyUndisturbed(s: State, e: Event, key: Key) {
    Writes(e, key) && RowAt(s.db, key).Some? ==>
      e.save.before.Some? && WrappedOf(e.save.before.value.secret) == WrappedOf(RowAt(s.db, key).value.secret)
  }

  /** That is so when saves start from the key they find, even if password changes of an existing channel race. */
  lemma WrappedKeyIsStable(env: Env, states: seq<State>, events: seq<Event>, key: Key)
    requires Usable(env) && Run(env, states, events)
    requires forall i | 0 <= i < |events| :: KeyUndisturbed(states[i], events[i], key)
    ensures forall i | 0 <= i <= |events| :: CreatedKeyStored(states, events, key, i)
  {
    forall i | 0 <= i < |events|
      ensures KeepsKey(states[i], events[i], key)
    {
      AlongRun(env, states, events, i);
      assert KeyUndisturbed(states[i], events[i], key);
    }
    WrappedKeyExactly(env, states, events, key);
  }

  /** Handlers run one at a time: a commit directly follows its own snapshot read. */
  ghost predicate OneAtATime(states: seq<State>, events: seq<Event>)
    requires |states| == |events| + 1
  {
    forall i | 0 <= i < |events| && events[i].CommitSave? ::
      && i > 0
      && events[i - 1].ReadSnapshot?
      && |states[i].waiting| == |states[i - 1].waiting| + 1
      && events[i].save == states[i].waiting[|states[i].waiting| - 1]
  }

  /** Both results hold when handlers run one at a time. */
  lemma OneAtATimeIsUndisturbed(env: Env, states: seq<State>, events: seq<Event>, key: Key)
    requires Usable(env) && Run(env, states, events) && OneAtATime(states, events)
    ensures forall i | 0 <= i < |events| :: Undisturbed(states[i], events[i]) && KeyUndisturbed(states[i], events[i], key)
  {
    forall i | 0 <= i < |events|
      ensures Undisturbed(states[i], events[i]) && KeyUndisturbed(states[i], events[i], key)
    {
      if events[i].CommitSave? {
        SnapshotQueues(env, states[i - 1], events[i - 1], states[i]);
      }
    }
  }

  // ----- The interleaving that brings an old password back -----

  lemma Extend(env: Env, states: seq<State>, events: seq<Event>, e: Event, s': State, key: Key)
    returns (states': seq<State>, events': seq<Event>)
    requires Run(env, states, events) && Step(env, states[|events|], e, s')
    ensures Run(env, states', events') && states'[|events'|] == s'
    ensures LastPassword(events', key) == PasswordAfter(LastPassword(events, key), e, key)
    ensures CreatedKey(events', key) == CreatedAfter(CreatedKey(events, key), e, key)
  {
    states', events' := states + [s'], events + [e];
    forall i | 0 <= i < |events'|
      ensures Step(env, states'[i], events'[i], states'[i + 1])
    {
      if i < |events| {
        assert states'[i] == states[i] && states'[i + 1] == states[i + 1] && events'[i] == events[i];
      }
    }
    assert events'[..|events|] == events;
  }

  function ShownChannel(row: Option<Row>): ChannelDetail {
    match row
    case None => ABSENT
    case Some(r) => ChannelDetail(true, r.host, r.port, r.security, r.username, r.secret)
  }

  const ZEROS: Bytes := seq(KEY_SIZE, i => '0')
  const ONES: Bytes := seq(KEY_SIZE, i => '1')

  function DataKey(env: Env, key: Key, secret: Secret): Result<Bytes, CryptoError> {
    OpenEnvelope(env.crypto.aead, env.kek, WrappedOf(secret), AccountId.EnvelopeAad(key.user, key.id))
  }

  /** A save whose envelope opens, or is new, can be queued. */
  lemma CanQueue(env: Env, s: State, key: Key, password: Bytes, dek: Bytes) returns (e: Event, s': State)
    requires Usable(env) && |dek| == KEY_SIZE && (key.user, key.id) in s.db
    requires RowAt(s.db, key).Some? ==> StoredPassword(env, s.db, key).Some?
    requires RowAt(s.db, key).None? ==> password != ""
    ensures Step(env, s, e, s') && e.ReadSnapshot?
    ensures s'.db == s.db && |s'.waiting| == |s.waiting| + 1 && s'.waiting[..|s.waiting|] == s.waiting
    ensures var save := s'.waiting[|s.waiting|];
            && save.key == key && save.before == RowAt(s.db, key) && save.password == password
            && KeepsOrEncrypts(env, save)
            && (save.before.None? ==> DataKey(env, key, save.row.secret) == Success(dek))
  {
    var record := s.db[(key.user, key.id)];
    var found := Some(Detail(key.id, record.email, ShownChannel(record.imapPart), ShownChannel(record.smtpPart)));
    var form := Form("host", 993, "imaps", "user", password);
    var random := Randomness(Some(dek), Some(seq(NONCE_SIZE, i => '0')), Some(seq(NONCE_SIZE, i => '0')));
    e := ReadSnapshot(key, form, found, true, random);
    PreparedRefusals(env.crypto, Some(env.kek), key.p, key.user, found, form, random);
    PreparedSecret(env.crypto, Some(env.kek), key.p, key.user, found, form, random);
    var ready := Prepare(env.crypto, Some(env.kek), key.p, key.user, found, form, random);
    assert ready.Ready?;
    EnvelopeRoundTrip(env.crypto.aead, env.kek, env.crypto.kekVersion, AccountId.EnvelopeAad(key.user, key.id), random.dek, random.wrapNonce);
    s' := s.(waiting := s.waiting + [Save(key, RowAt(s.db, key), password, ready.row)]);
    SnapshotQueues(env, s, e, s');
  }

  lemma CanCommit(env: Env, s: State, i: nat) returns (e: Event, s': State)
    requires i < |s.waiting| && WellKeyed(s.db)
    requires (s.waiting[i].key.user, s.waiting[i].key.id) in s.db
    ensures e == CommitSave(s.waiting[i], Ok, true) && Step(env, s, e, s')
    ensures s'.waiting == Without(s.waiting, i)
    ensures (s.waiting[i].key.user, s.waiting[i].key.id) in s'.db && WellKeyed(s'.db)
    ensures RowAt(s'.db, s.waiting[i].key) == Some(s.waiting[i].row)
  {
    var save := s.waiting[i];
    e := CommitSave(save, Ok, true);
    s' := State(Put(s.db, save.key.user, save.key.id, save.key.p, Some(save.row)), Without(s.waiting, i));
    assert WriteApplied(s.db, s'.db, save.key, Some(save.row), Ok, true);
    RowAfter(env, s, e, s', save.key);
  }

  /** A run in which the account exists, without channels. */
  lemma EmptyAccount(env: Env, key: Key) returns (states: seq<State>, events: seq<Event>)
    ensures Run(env, states, events) && CreatedKey(events, key) == None
    ensures var s := states[|events|];
            s.waiting == [] && WellKeyed(s.db) && (key.user, key.id) in s.db && RowAt(s.db, key) == None
  {
    var s1 := State(map[(key.user, key.id) := Record("a@example.test", None, None)], []);
    states, events := Extend(env, [INITIAL], [], Create(key.user, key.id, "a@example.test", Ok), s1, key);
  }

  lemma DifferentKeys(env: Env, key: Key, a: Secret, b: Secret)
    requires DataKey(env, key, a) == Success(ZEROS) && DataKey(env, key, b) == Success(ONES)
    ensures WrappedOf(a) != WrappedOf(b)
  {
    assert ZEROS[0] != ONES[0];
  }

  /** A run in which the account exists and its channel holds exactly the submitted password. */
  lemma StoredOnce(env: Env, key: Key, password: Bytes) returns (states: seq<State>, events: seq<Event>)
    requires Usable(env) && password != ""
    ensures Run(env, states, events)
    ensures var s := states[|events|];
            && s.waiting == [] && WellKeyed(s.db) && (key.user, key.id) in s.db
            && StoredPassword(env, s.db, key) == Some(password)
  {
    states, events := EmptyAccount(env, key);
    var e2, s2 := CanQueue(env, states[|events|], key, password, ZEROS);
    states, events := Extend(env, states, events, e2, s2, key);
    var e3, s3 := CanCommit(env, s2, 0);
    states, events := Extend(env, states, events, e3, s3, key);
  }

  /**
   * A settings change with an empty password, started before a password
   * change and committed after it, silently restores the old password.
   */
  lemma OldPasswordCanReturn(env: Env, key: Key, older: Bytes, newer: Bytes)
    requires Usable(env) && older != "" && newer != "" && older != newer
    ensures exists states: seq<State>, events: seq<Event> ::
              && Run(env, states, events)
              && LastPassword(events, key) == Some(newer)
              && StoredPassword(env, states[|events|].db, key) == Some(older)
  {
    var states, events := StoredOnce(env, key, older);
    var e1, s1 := CanQueue(env, states[|events|], key, "", ZEROS);
    states, events := Extend(env, states, events, e1, s1, key);
    var e2, s2 := CanQueue(env, s1, key, newer, ZEROS);
    states, events := Extend(env, states, events, e2, s2, key);
    var e3, s3 := CanCommit(env, s2, 1);
    states, events := Extend(env, states, events, e3, s3, key);
    var e4, s4 := CanCommit(env, s3, 0);
    states, events := Extend(env, states, events, e4, s4, key);
    assert StoredPassword(env, s4.db, key) == Some(older);
  }

  lemma OneFirstSave(env: Env, key: Key, first: Bytes) returns (states: seq<State>, events: seq<Event>, s: State)
    requires Usable(env) && first != ""
    ensures Run(env, states, events) && CreatedKey(events, key) == None && s == states[|events|]
    ensures |s.waiting| == 1 && WellKeyed(s.db) && (key.user, key.id) in s.db && RowAt(s.db, key) == None
    ensures s.waiting[0].key == key && DataKey(env, key, s.waiting[0].row.secret) == Success(ZEROS)
  {
    states, events := EmptyAccount(env, key);
    var e: Event;
    e, s := CanQueue(env, states[|events|], key, first, ZEROS);
    states, events := Extend(env, states, events, e, s, key);
  }

  /** Two first saves are waiting, neither of which has seen the other. */
  lemma TwoFirstSaves(env: Env, key: Key, first: Bytes, second: Bytes) returns (states: seq<State>, events: seq<Event>)
    requires Usable(env) && first != "" && second != ""
    ensures Run(env, states, events) && CreatedKey(events, key) == None
    ensures var s := states[|events|];
            && |s.waiting| == 2 && WellKeyed(s.db) && (key.user, key.id) in s.db && RowAt(s.db, key) == None
            && (forall i | 0 <= i < 2 :: s.waiting[i].key == key)
            && WrappedOf(s.waiting[0].row.secret) != WrappedOf(s.waiting[1].row.secret)
  {
    var s2: State;
    states, events, s2 := OneFirstSave(env, key, first);
    var e3, s3 := CanQueue(env, s2, key, second, ONES);
    states, events := Extend(env, states, events, e3, s3, key);
    assert s3.waiting[0] == s3.waiting[..1][0] == s2.waiting[0];
    DifferentKeys(env, key, s3.waiting[0].row.secret, s3.waiting[1].row.secret);
  }

  /** Two first saves that both see no channel give it two different data keys, and the second replaces the first. */
  lemma FirstSavesCanRace(env: Env, key: Key, first: Bytes, second: Bytes)
    requires Usable(env) && first != "" && second != ""
    ensures exists states: seq<State>, events: seq<Event> ::
              Run(env, states, events) && !CreatedKeyStored(states, events, key, |events|)
  {
    var states, events := TwoFirstSaves(env, key, first, second);
    var e4, s4 := CanCommit(env, states[|events|], 0);
    states, events := Extend(env, states, events, e4, s4, key);
    var e5, s5 := CanCommit(env, s4, 0);
    states, events := Extend(env, states, events, e5, s5, key);
    assert events[..|events|] == events;
  }
}
