/**
 * The handlers that save an account's IMAP or SMTP settings, and the reading
 * side that recovers the password. The two save handlers are the same code
 * with the names changed, as are the two readers.
 */
module AccountHandlers {
  import opened Prelude
  import opened Envelope
  import opened AccountId
  import opened Store

  datatype Form = Form(host: string, port: int, security: string, username: string, password: Bytes)

  /** The server's encryption settings. */
  datatype Crypto = Crypto(aead: Aead, kekVersion: int)

  /** The random bytes one request draws; any read may fail. */
  datatype Randomness = Randomness(dek: Option<Bytes>, wrapNonce: Option<Bytes>, fieldNonce: Option<Bytes>)

  predicate Possible(r: Randomness) {
    RandomRead(r.dek, KEY_SIZE) && RandomRead(r.wrapNonce, NONCE_SIZE) && RandomRead(r.fieldNonce, NONCE_SIZE)
  }

  function FieldOf(p: Protocol): string {
    match p
    case Imap => FIELD_IMAP_PASSWORD
    case Smtp => FIELD_SMTP_PASSWORD
  }

  function SecurityNames(p: Protocol): set<string> {
    match p
    case Imap => {"imaps", "imap"}
    case Smtp => {"starttls", "smtps", "plain"}
  }

  /** parseIMAPForm and parseSMTPForm; the port is the result of strconv.Atoi. */
  function ParseForm(p: Protocol, host: string, port: Option<int>, security: string, username: string, password: Bytes)
    : (r: Option<Form>)
    ensures r.None? <==>
            || port.None? || !(1 <= port.value < 0x1_0000)
            || host == "" || username == ""
            || (p == Imap && security != "imaps" && security != "imap")
            || (p == Smtp && security != "starttls" && security != "smtps" && security != "plain")
    ensures r.Some? ==>
              && r.value.host == host && Some(r.value.port) == port
              && r.value.security == security && r.value.username == username && r.value.password == password
  {
    if port.None? then None
    else if security !in SecurityNames(p) then None
    else if host == "" || port.value <= 0 || port.value > 65535 || username == "" then None
    else Some(Form(host, port.value, security, username, password))
  }

  /** decryptIMAPPassword and decryptSMTPPassword. kekFile is None when the key file cannot be read. */
  function ReadPassword(aead: Aead, kekFile: Option<Bytes>, p: Protocol, user: User, id: Id, secret: Secret)
    : Option<Bytes>
  {
    match kekFile
    case None => None
    case Some(kek) =>
      match OpenEnvelope(aead, kek, WrappedKey(secret.wrappedDek, secret.kekVersion), EnvelopeAad(user, id))
      case Failure(_) => None
      case Success(dek) =>
        match DecryptBlob(aead, dek, secret.encryptedPassword, FieldAad(user, id, FieldOf(p)))
        case Failure(_) => None
        case Success(password) => Some(password)
  }

  /** Version 1, a 12-byte nonce and the sealed text. */
  predicate IsBlob(aead: Aead, key: Bytes, nonce: Bytes, text: Bytes, aad: Bytes, blob: Bytes) {
    |key| == 32 && |nonce| == 12 && blob == [1 as char] + nonce + aead.seal(key, nonce, text, aad)
  }

  /** The stored secret, in terms of the primitive alone. */
  predicate IsSecretOf(aead: Aead, kek: Bytes, p: Protocol, user: User, id: Id, secret: Secret, password: Bytes,
                       dek: Bytes, wrapNonce: Bytes, fieldNonce: Bytes)
  {
    var field := if p == Imap then "imap_password" else "smtp_password";
    && |dek| == 32
    && IsBlob(aead, kek, wrapNonce, dek, user + ":" + id, secret.wrappedDek)
    && IsBlob(aead, dek, fieldNonce, password, user + ":" + id + ":" + field, secret.encryptedPassword)
  }

  lemma DecryptsBlob(aead: Aead, key: Bytes, blob: Bytes, text: Bytes, aad: Bytes)
    requires Lawful(aead)
    ensures DecryptBlob(aead, key, blob, aad) == Success(text) <==> exists nonce :: IsBlob(aead, key, nonce, text, aad, blob)
  {
    DecryptsExactlyEncryptions(aead, key, blob, text, aad);
    if nonce: Bytes :| |nonce| == NONCE_SIZE && EncryptBlob(aead, key, Some(nonce), text, aad) == Success(blob) {
      assert IsBlob(aead, key, nonce, text, aad, blob);
    }
    if nonce :| IsBlob(aead, key, nonce, text, aad, blob) {
      assert EncryptBlob(aead, key, Some(nonce), text, aad) == Success(blob);
    }
  }

  /**
   * A password reads back exactly from the secrets that hold it: sealed under a
   * 32-byte data key that is itself sealed under the key file's key, each bound
   * to its owner.
   */
  lemma ReadsBackExactly(aead: Aead, kek: Bytes, p: Protocol, user: User, id: Id, secret: Secret, password: Bytes)
    requires Lawful(aead)
    ensures ReadPassword(aead, Some(kek), p, user, id, secret) == Some(password) <==>
            exists dek, wrapNonce, fieldNonce :: IsSecretOf(aead, kek, p, user, id, secret, password, dek, wrapNonce, fieldNonce)
  {
    var wrapAad, fieldAad := EnvelopeAad(user, id), FieldAad(user, id, FieldOf(p));
    if ReadPassword(aead, Some(kek), p, user, id, secret) == Some(password) {
      var dek := DecryptBlob(aead, kek, secret.wrappedDek, wrapAad).value;
      DecryptsBlob(aead, kek, secret.wrappedDek, dek, wrapAad);
      DecryptsBlob(aead, dek, secret.encryptedPassword, password, fieldAad);
      var wrapNonce :| IsBlob(aead, kek, wrapNonce, dek, wrapAad, secret.wrappedDek);
      var fieldNonce :| IsBlob(aead, dek, fieldNonce, password, fieldAad, secret.encryptedPassword);
      assert IsSecretOf(aead, kek, p, user, id, secret, password, dek, wrapNonce, fieldNonce);
    }
    if dek, wrapNonce, fieldNonce :| IsSecretOf(aead, kek, p, user, id, secret, password, dek, wrapNonce, fieldNonce) {
      DecryptsBlob(aead, kek, secret.wrappedDek, dek, wrapAad);
      DecryptsBlob(aead, dek, secret.encryptedPassword, password, fieldAad);
    }
  }

  /** The primitive seals two texts to the same bytes under these additional data. */
  ghost predicate Collides(aead: Aead, x: Bytes, y: Bytes) {
    exists k, n, a, b :: aead.seal(k, n, a, x) == aead.seal(k, n, b, y)
  }

  lemma BothDecrypt(aead: Aead, key: Bytes, blob: Bytes, x: Bytes, y: Bytes)
    requires Lawful(aead) && DecryptBlob(aead, key, blob, x).Success? && DecryptBlob(aead, key, blob, y).Success?
    ensures Collides(aead, x, y)
  {
    var nonce, a, b := blob[1..1 + NONCE_SIZE], DecryptBlob(aead, key, blob, x).value, DecryptBlob(aead, key, blob, y).value;
    assert aead.seal(key, nonce, a, x) == blob[1 + NONCE_SIZE..] == aead.seal(key, nonce, b, y);
  }

  function PasswordOf(p: Protocol, user: User, id: Id): Binding {
    match p
    case Imap => ImapPasswordOf(user, id)
    case Smtp => SmtpPasswordOf(user, id)
  }

  /** The two decryptions behind a password that reads back. */
  lemma ReadParts(aead: Aead, kekFile: Option<Bytes>, p: Protocol, user: User, id: Id, secret: Secret) returns (dek: Bytes)
    requires ReadPassword(aead, kekFile, p, user, id, secret).Some?
    ensures kekFile.Some? && DecryptBlob(aead, kekFile.value, secret.wrappedDek, EnvelopeAad(user, id)) == Success(dek)
    ensures DecryptBlob(aead, dek, secret.encryptedPassword, Aad(PasswordOf(p, user, id))).Success?
  {
    dek := OpenEnvelope(aead, kekFile.value, WrappedKey(secret.wrappedDek, secret.kekVersion), EnvelopeAad(user, id)).value;
  }

  lemma OtherChannelNeedsCollision(aead: Aead, kekFile: Option<Bytes>, secret: Secret, p: Protocol, q: Protocol, user: User, id: Id)
    requires Lawful(aead)
    requires ReadPassword(aead, kekFile, p, user, id, secret).Some? && ReadPassword(aead, kekFile, q, user, id, secret).Some?
    ensures Collides(aead, Aad(PasswordOf(p, user, id)), Aad(PasswordOf(q, user, id)))
  {
    var dek := ReadParts(aead, kekFile, p, user, id, secret);
    var dek' := ReadParts(aead, kekFile, q, user, id, secret);
    assert dek == dek';
    BothDecrypt(aead, dek, secret.encryptedPassword, Aad(PasswordOf(p, user, id)), Aad(PasswordOf(q, user, id)));
  }

  lemma OtherAccountNeedsCollision(aead: Aead, kekFile: Option<Bytes>, secret: Secret,
                                   p: Protocol, user: User, id: Id, q: Protocol, user': User, id': Id)
    requires Lawful(aead)
    requires ReadPassword(aead, kekFile, p, user, id, secret).Some? && ReadPassword(aead, kekFile, q, user', id', secret).Some?
    ensures Collides(aead, Aad(WrappedKeyOf(user, id)), Aad(WrappedKeyOf(user', id')))
  {
    var _ := ReadParts(aead, kekFile, p, user, id, secret);
    var _ := ReadParts(aead, kekFile, q, user', id', secret);
    BothDecrypt(aead, kekFile.value, secret.wrappedDek, Aad(WrappedKeyOf(user, id)), Aad(WrappedKeyOf(user', id')));
  }

  /**
   * A secret that reads back for one user, account and protocol reads back for
   * no other, unless the primitive collides on two different additional data.
   */
  lemma CopiedSecretNeedsCollision(aead: Aead, kekFile: Option<Bytes>, secret: Secret,
                                   p: Protocol, user: User, id: Id, q: Protocol, user': User, id': Id)
    requires Lawful(aead) && IsAccountId(id) && IsAccountId(id') && (p, user, id) != (q, user', id')
    requires ReadPassword(aead, kekFile, p, user, id, secret).Some?
    requires ReadPassword(aead, kekFile, q, user', id', secret).Some?
    ensures var same := (user, id) == (user', id');
            var x := if same then PasswordOf(p, user, id) else WrappedKeyOf(user, id);
            var y := if same then PasswordOf(q, user', id') else WrappedKeyOf(user', id');
            Aad(x) != Aad(y) && Collides(aead, Aad(x), Aad(y))
  {
    if (user, id) == (user', id') {
      AadInjective(PasswordOf(p, user, id), PasswordOf(q, user', id'));
      OtherChannelNeedsCollision(aead, kekFile, secret, p, q, user, id);
    } else {
      AadInjective(WrappedKeyOf(user, id), WrappedKeyOf(user', id'));
      OtherAccountNeedsCollision(aead, kekFile, secret, p, user, id, q, user', id');
    }
  }

  datatype Response = BadRequest | NoSuchAccount | InternalError | Redirect

  /** A save request after it has read its snapshot: refused, or ready to store a row. */
  datatype Prepared = Refused(response: Response) | Ready(id: Id, row: Row)

  function RowOf(form: Form, secret: Secret): Row {
    Row(form.host, form.port, form.security, form.username, secret)
  }

  /** The data key and wrapped key a save with a new password encrypts under. */
  function ChooseEnvelope(crypto: Crypto, kek: Bytes, user: User, id: Id, channel: ChannelDetail, random: Randomness)
    : Result<Encrypter, CryptoError>
  {
    var aad := EnvelopeAad(user, id);
    if channel.has then
      var envelope := WrappedKey(channel.secret.wrappedDek, channel.secret.kekVersion);
      var dek :- OpenEnvelope(crypto.aead, kek, envelope, aad);
      Success(Encrypter(envelope, dek))
    else
      NewEnvelope(crypto.aead, kek, crypto.kekVersion, aad, random.dek, random.wrapNonce)
  }

  function Prepare(crypto: Crypto, kekFile: Option<Bytes>, p: Protocol, user: User, found: Option<Detail>, form: Form, random: Randomness)
    : Prepared
  {
    match found
    case None => Refused(NoSuchAccount)
    case Some(account) =>
      var channel := account.Channel(p);
      if form.password == "" then
        if channel.has then Ready(account.id, RowOf(form, channel.secret)) else Refused(BadRequest)
      else if kekFile.None? then Refused(InternalError)
      else
        match ChooseEnvelope(crypto, kekFile.value, user, account.id, channel, random)
        case Failure(_) => Refused(InternalError)
        case Success(encrypter) =>
          match EncryptBlob(crypto.aead, encrypter.dek, random.fieldNonce, form.password, FieldAad(user, account.id, FieldOf(p)))
          case Failure(_) => Refused(InternalError)
          case Success(blob) =>
            Ready(account.id, RowOf(form, Secret(blob, encrypter.envelope.wrappedDek, encrypter.envelope.kekVersion)))
  }

  /**
   * What the three branches achieve: a new password reads back as submitted,
   * an empty one keeps the whole stored secret, and an existing channel keeps
   * its wrapped key either way.
   */
  lemma PreparedSecret(crypto: Crypto, kekFile: Option<Bytes>, p: Protocol, user: User, found: Option<Detail>, form: Form, random: Randomness)
    requires Lawful(crypto.aead) && Possible(random)
    ensures var r := Prepare(crypto, kekFile, p, user, found, form, random);
            r.Ready? ==>
              var channel, secret := found.value.Channel(p), r.row.secret;
              && r.id == found.value.id
              && r.row == Row(form.host, form.port, form.security, form.username, secret)
              && (form.password == "" ==> channel.has && secret == channel.secret)
              && (form.password != "" ==> ReadPassword(crypto.aead, kekFile, p, user, r.id, secret) == Some(form.password))
              && (channel.has ==> secret.wrappedDek == channel.secret.wrappedDek && secret.kekVersion == channel.secret.kekVersion)
              && (!channel.has ==> secret.kekVersion == crypto.kekVersion)
  {
    var r := Prepare(crypto, kekFile, p, user, found, form, random);
    if r.Ready? && form.password != "" {
      var account := found.value;
      var aad, field := EnvelopeAad(user, account.id), FieldAad(user, account.id, FieldOf(p));
      EnvelopeRoundTrip(crypto.aead, kekFile.value, crypto.kekVersion, aad, random.dek, random.wrapNonce);
      var encrypter := ChooseEnvelope(crypto, kekFile.value, user, account.id, account.Channel(p), random).value;
      BlobRoundTrip(crypto.aead, encrypter.dek, random.fieldNonce, form.password, field);
    }
  }

  /** Exactly when a save is refused, and how. */
  lemma PreparedRefusals(crypto: Crypto, kekFile: Option<Bytes>, p: Protocol, user: User, found: Option<Detail>, form: Form, random: Randomness)
    requires Lawful(crypto.aead) && Possible(random)
    ensures var r := Prepare(crypto, kekFile, p, user, found, form, random);
            && (r == Refused(NoSuchAccount) <==> found.None?)
            && (r == Refused(BadRequest) <==> found.Some? && !found.value.Channel(p).has && form.password == "")
            && (r == Refused(InternalError) <==>
                && found.Some?
                && form.password != ""
                && (|| kekFile.None?
                    || |kekFile.value| != KEY_SIZE
                    || random.fieldNonce.None?
                    || if found.value.Channel(p).has
                       then OpenEnvelope(crypto.aead, kekFile.value,
                                         WrappedKey(found.value.Channel(p).secret.wrappedDek, found.value.Channel(p).secret.kekVersion),
                                         EnvelopeAad(user, found.value.id)).Failure?
                       else random.dek.None? || random.wrapNonce.None?))
            && r != Refused(Redirect)
  {
    if found.Some? && kekFile.Some? {
      EnvelopeRoundTrip(crypto.aead, kekFile.value, crypto.kekVersion, EnvelopeAad(user, found.value.id), random.dek, random.wrapNonce);
    }
  }

  /** The body of the save handlers between the snapshot read and the store write. */
  method PrepareSave(crypto: Crypto, kekFile: Option<Bytes>, p: Protocol, user: User, found: Option<Detail>, form: Form, random: Randomness)
    returns (r: Prepared)
    ensures r == Prepare(crypto, kekFile, p, user, found, form, random)
  {
    if found.None? {
      return Refused(NoSuchAccount);
    }
    var account := found.value;
    var channel := account.Channel(p);
    if !channel.has && form.password == "" {
      return Refused(BadRequest);
    }
    var encryptedPassword := channel.secret.encryptedPassword;
    var wrappedDek := channel.secret.wrappedDek;
    var kekVersion := channel.secret.kekVersion;
    if form.password != "" {
      if kekFile.None? {
        return Refused(InternalError);
      }
      var dek;
      if channel.has {
        var unwrapped := OpenEnvelope(crypto.aead, kekFile.value, WrappedKey(wrappedDek, kekVersion), EnvelopeAad(user, account.id));
        if unwrapped.Failure? {
          return Refused(InternalError);
        }
        dek := unwrapped.value;
      } else {
        var created := NewEnvelope(crypto.aead, kekFile.value, crypto.kekVersion, EnvelopeAad(user, account.id), random.dek, random.wrapNonce);
        if created.Failure? {
          return Refused(InternalError);
        }
        wrappedDek := created.value.envelope.wrappedDek;
        kekVersion := created.value.envelope.kekVersion;
        dek := created.value.dek;
      }
      var encrypted := EncryptAesGcm(crypto.aead, dek, random.fieldNonce, form.password, FieldAad(user, account.id, FieldOf(p)));
      if encrypted.Failure? {
        return Refused(InternalError);
      }
      encryptedPassword := encrypted.value;
    }
    return Ready(account.id, RowOf(form, Secret(encryptedPassword, wrappedDek, kekVersion)));
  }

  function ChannelAt(d: Directory, user: User, id: Id, p: Protocol): Option<Row> {
    if (user, id) in d then d[(user, id)].Channel(p) else None
  }

  /** Other accounts, the email and the other protocol are as before. */
  ghost predicate OnlyChannelDiffers(d: Directory, d': Directory, p: Protocol, user: User, id: Id) {
    && d'.Keys == d.Keys
    && (forall k | k in d && k != (user, id) :: d'[k] == d[k])
    && ((user, id) in d ==>
        && d'[(user, id)].email == d[(user, id)].email
        && forall q: Protocol | q != p :: d'[(user, id)].Channel(q) == d[(user, id)].Channel(q))
  }

  lemma WriteStepEffect(d: Directory, d': Directory, p: Protocol, user: User, id: Id, row: Option<Row>, o: Outcome)
    requires WriteStep(d, d', p, user, id, row, o)
    ensures OnlyChannelDiffers(d, d', p, user, id)
    ensures o == Ok ==> ChannelAt(d', user, id, p) == row
    ensures ChannelAt(d', user, id, p) == ChannelAt(d, user, id, p) || (o in {Ok, Failed} && ChannelAt(d', user, id, p) == row)
  {}

  /** What a completed save means for the stored channel. */
  ghost predicate Saved(aead: Aead, kekFile: Option<Bytes>, p: Protocol, user: User, id: Id, form: Form,
                        before: Option<Row>, after: Row)
  {
    && after == RowOf(form, after.secret)
    && (form.password != "" ==> ReadPassword(aead, kekFile, p, user, id, after.secret) == Some(form.password))
    && (form.password == "" ==> before.Some? && after.secret == before.value.secret)
    && (before.Some? ==>
        && after.secret.wrappedDek == before.value.secret.wrappedDek
        && after.secret.kekVersion == before.value.secret.kekVersion)
  }

  lemma PreparedIsSaved(crypto: Crypto, kekFile: Option<Bytes>, d: Directory, p: Protocol, user: User, id: Id,
                        found: Option<Detail>, form: Form, random: Randomness)
    requires Lawful(crypto.aead) && Possible(random) && Answers(found, d, user, id)
    ensures var r := Prepare(crypto, kekFile, p, user, found, form, random);
            r.Ready? ==>
              && (user, id) in d
              && r.id == id
              && Saved(crypto.aead, kekFile, p, user, id, form, ChannelAt(d, user, id, p), r.row)
  {
    PreparedSecret(crypto, kekFile, p, user, found, form, random);
    if found.Some? {
      var channel, row := found.value.Channel(p), d[(user, id)].Channel(p);
      assert channel.has == row.Some?;
      assert row.Some? ==> channel.secret == row.value.secret;
    }
  }

  lemma RefusedBecause(crypto: Crypto, kekFile: Option<Bytes>, d: Directory, p: Protocol, user: User, id: Id,
                       found: Option<Detail>, form: Form, random: Randomness)
    requires Lawful(crypto.aead) && Possible(random) && Answers(found, d, user, id)
    ensures var r, before := Prepare(crypto, kekFile, p, user, found, form, random), ChannelAt(d, user, id, p);
            && (r == Refused(NoSuchAccount) <==> (user, id) !in d)
            && (r == Refused(BadRequest) <==> (user, id) in d && before.None? && form.password == "")
            && (r == Refused(InternalError) ==>
                && form.password != ""
                && !(&& kekFile.Some? && |kekFile.value| == KEY_SIZE
                     && random.dek.Some? && random.wrapNonce.Some? && random.fieldNonce.Some?
                     && (before.Some? ==> ReadPassword(crypto.aead, kekFile, p, user, id, before.value.secret).Some?)))
            && r != Refused(Redirect)
  {
    PreparedRefusals(crypto, kekFile, p, user, found, form, random);
    if found.Some? {
      var channel, row := found.value.Channel(p), d[(user, id)].Channel(p);
      assert channel.has == row.Some?;
      assert row.Some? ==> channel.secret == row.value.secret;
    }
  }

  /** handleSaveIMAPAccount and handleSaveSMTPAccount, run without interruption. */
  method HandleSave(store: MailAccountStore, crypto: Crypto, kekFile: Option<Bytes>, p: Protocol, user: User, id: Id,
                    form: Option<Form>, random: Randomness, getFails: bool, faults: Faults) returns (r: Response)
    requires store.Valid() && Lawful(crypto.aead) && Possible(random)
    modifies store
    ensures store.Valid()
    ensures OnlyChannelDiffers(old(store.Accounts()), store.Accounts(), p, user, id)
    ensures r == BadRequest || r == NoSuchAccount ==> store.Accounts() == old(store.Accounts())
    ensures r == Redirect ==>
              var before, after := ChannelAt(old(store.Accounts()), user, id, p), ChannelAt(store.Accounts(), user, id, p);
              && form.Some?
              && after.Some?
              && Saved(crypto.aead, kekFile, p, user, id, form.value, before, after.value)
    // Without database faults only the request or the encryption can stop a save.
    ensures form.Some? && !getFails && faults == NO_FAULTS ==>
              var before := ChannelAt(old(store.Accounts()), user, id, p);
              && (r == NoSuchAccount <==> (user, id) !in old(store.Accounts()))
              && (r == BadRequest <==> (user, id) in old(store.Accounts()) && before.None? && form.value.password == "")
              && (r == InternalError ==>
                  && form.value.password != ""
                  && !(&& kekFile.Some? && |kekFile.value| == KEY_SIZE
                       && random.dek.Some? && random.wrapNonce.Some? && random.fieldNonce.Some?
                       && (before.Some? ==> ReadPassword(crypto.aead, kekFile, p, user, id, before.value.secret).Some?)))
  {
    if form.None? {
      return BadRequest;
    }
    var found := store.Get(user, id, getFails);
    if found.Failure? {
      return InternalError;
    }
    var prepared := PrepareSave(crypto, kekFile, p, user, found.value, form.value, random);
    PreparedIsSaved(crypto, kekFile, store.Accounts(), p, user, id, found.value, form.value, random);
    if prepared.Refused? {
      RefusedBecause(crypto, kekFile, store.Accounts(), p, user, id, found.value, form.value, random);
      return prepared.response;
    }
    ghost var before := store.Accounts();
    var saved := store.Save(p, user, prepared.id, prepared.row, faults);
    WriteStepEffect(before, store.Accounts(), p, user, id, Some(prepared.row), saved);
    return if saved == Ok then Redirect else InternalError;
  }
}
