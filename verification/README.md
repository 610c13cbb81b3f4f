# Formal model of the webmail server

A Dafny model of the parts of the server where a mistake would lose or leak
mail settings, misdirect or mangle a message, or corrupt the database, with
proofs of what those parts keep in every run. The model is written in Dafny
4.11. Verify it with `dafny verify dfyconfig.toml`.

## What is modelled

- **Account store** (`Store`, `AccountHandlers`, `AccountRuns`, `Envelope`,
  `AccountId`). Three tables with their primary keys, UNIQUE, foreign keys and
  cascades; every transaction of the store with a failure possible at each
  statement, and a commit that may also succeed unseen; the three branches of
  the save handlers; and runs in which any number of save, delete and create
  requests interleave, a save being a snapshot read and a later commit. The
  IMAP and SMTP halves of this code are the same apart from names, so one
  member with a `Protocol` argument stands for both.
- **Mail text and threading** (`Strings`, `MessageText`, `Threading`,
  `Addresses`, `ReplyAll`, `MimeText`, `MessageWindow`). The message printer
  with a reader that undoes it, body normalisation, quoting, the References
  chain over whole threads, address printing with a small grammar that reads
  it back, reply-all recipients, the choice of the text to show from a MIME
  tree, and the window of the message list.
- **Protocols over whole runs** (`SmtpSession`, `SendAndFlag`, `Sessions`,
  `LoginRaces`, `Migrations`). An SMTP session against a server that may answer anything;
  send handlers that load, send and flag, interleaved with each other and with
  the mail server's own changes; login and logout over the session store, once
  with handlers run one at a time and once with every locked section a step of
  its own; and schema migrations over any number of starts with a crash anywhere.

Code that updates state is a class or a method with a loop; its contract ties
it to a function or a relation between states, and the results over all inputs
or runs are lemmas about those.

### Conventions and assumptions

- A Go `string` or `[]byte` is a `string` with one `char` per byte. Functions
  on text that depend on Unicode (`ToLower`, `TrimSpace`) are modelled on
  ASCII, except where the lower-casing is a parameter.
- AES-GCM is a record of two functions. `Lawful` states all that is assumed:
  opening undoes sealing under the same key, nonce and additional data, and
  opens nothing else. `Envelope.LawfulExists` gives a pair of functions with
  that property, so the assumption is consistent. The KEK never changes.
- Random bytes, the clock, and the results of `strconv.Atoi` and
  `strconv.ParseUint` are parameters.
- A transaction takes effect at its commit. Two transactions on one account
  are ordered by the row lock that `touchMailAccount` takes.
- `net/mail`'s list parser is a parameter (`Lib`). The proofs that need it
  assume `ReadsPlainLists`: plain addresses joined with a comma and a space
  read back in order. `ReplyAll.GrammarReadsPlainLists` shows that the small
  grammar of `Addresses.ParseList` satisfies it.
- The MIME parsers and decoders are an input: an `Entity` holds what they
  yield for its header, its encodings and its parts.
- A UID is not given to another message (section 2.3.1.1 of RFC 3501).

### Where the code does less than one might expect

Each of these is proved, most with the exact condition under which the code
does what one would expect.

- A settings save with an empty password that was started before a password
  change and is committed after it restores the old password
  (`AccountRuns.OldPasswordCanReturn`). `AccountRuns.LastPasswordExactly` says
  when the last password is the stored one; `AccountRuns.LastPasswordWins` shows
  that it is enough that the secret is unchanged between the two steps of every
  empty-password save.
- Two first saves of a channel can each make a data key, and the second then
  replaces the first (`AccountRuns.FirstSavesCanRace`);
  `AccountRuns.WrappedKeyExactly` says when a channel keeps its first one.
- The session store locks once per method, so a logout can fall between the
  steps of a login. One that falls between the check and the clearing is
  forgotten (`LoginRaces.LogoutBetweenCheckAndClearIsForgotten`); one that falls
  between the check and the storing leaves a session that its own mark would
  have refused (`LoginRaces.StaleSessionStoredAfterLogout`).
  `LoginRaces.SafeUnlessOvertaken` says that the mark is right and no session is
  stored against an unanswered logout exactly in the runs in which no login is
  overtaken by a logout. "Latest" there means the last to be marked; the time of
  a logout is read before the lock is taken.
- With handlers run one at a time a login that answers a logout clears the mark
  before a session id is drawn. If drawing it fails, a later login of any age is
  admitted (`Sessions.LostAnswerAdmitsStaleLogin`), and among such runs this is
  the only way (`Sessions.LoginsAfterLogoutAreFreshExactly`). The code has this
  error branch, but since Go 1.24 the standard random source does not return an
  error; `Sessions.FirstSessionIsFreshIfIdsAreDrawn` states the result without it.
- `Send` may report an error although the server took what was written: exactly
  when the server refuses nothing but QUIT, or when nothing but the write failed
  (`SmtpSession.SendFailsAfterDeliveryExactly`). In the second case what it took
  may be a truncated message.
- An empty text can hide others: an inline plain part decides even if it is
  empty, and a nested multipart whose chosen text is empty is passed over
  (`MimeText.EmptyNestedTextIsDropped`). `MimeText.FindsTextExactly` says for
  every readable tree when text is found, and when it is not empty.
- The last reference of a reply is its parent exactly unless the references
  before it already named the parent's id before their end
  (`Threading.LastReferenceIsTheParent`, `Threading.LastAncestorIsTheParent`).
- A quoted reply loses line structure exactly when the original has a CR
  inside a line (`MessageText.QuoteRoundTrip`).
- The additional data of two users could coincide if account ids were free
  text (`AccountId.AadCollidesOnFreeFormIds`); with UUID text they cannot.

## Model

| member | source | states |
|---|---|---|
| AccountRuns.StoredPasswordsWereSubmitted | internal/http/imap_account.go:98-189 | In every interleaving of create, save and delete handlers, with failures anywhere, every stored and every waiting row opens under its owner's additional data and decrypts to a password some request submitted for that same user, account and protocol; account ids stay owned by one user and emails unique per user |
| AccountRuns.LastPasswordExactly | internal/http/imap_account.go:122-186 | Along a run the stored password is always the last non-empty one committed since the channel was created, if and only if no empty-password save writes back a password other than the one stored when it commits |
| AccountRuns.LastPasswordWins | internal/http/smtp_account.go:124-188 | The last password is the stored one as soon as no empty-password save is overtaken, however other saves and deletes race |
| AccountRuns.WrappedKeyExactly | internal/http/imap_account.go:126-165 | Along a run a channel always has the wrapped data key and KEK version it was created with, if and only if every write that finds a row writes that row's wrapped key and version |
| AccountRuns.WrappedKeyIsStable | internal/http/imap_account.go:126-165 | That is so as soon as each save that finds a row has started from one with the same wrapped key, even if password changes of an existing channel race |
| AccountRuns.FirstSavesCanRace | internal/http/imap_account.go:145-165 | There is a run in which two first saves give a channel two data keys |
| AccountRuns.OneAtATimeIsUndisturbed | internal/http/imap_account.go:111-186 | Handlers that run one at a time are never overtaken, so the results above hold for them |
| AccountRuns.OldPasswordCanReturn | internal/http/imap_account.go:122-186 | For any two passwords there is a run in which the newer was committed last and the older is stored |
| AccountRuns.RowAfter | internal/mailaccount/store.go:291-386 | An event changes a stored row only by its own commit or delete taking effect on that user, account and protocol |
| AccountRuns.SnapshotQueues | internal/http/imap_account.go:111-165 | A snapshot read changes no table and prepares a row that holds the new password, or the very secret it saw |
| AccountHandlers.PreparedSecret | internal/http/imap_account.go:122-180 | Through all three branches: a new password reads back as submitted, an empty one keeps the whole stored secret, and an existing channel keeps its wrapped key and version |
| AccountHandlers.PreparedRefusals | internal/http/imap_account.go:105-165 | Exactly when a save is refused before it writes, and with which response |
| AccountHandlers.PrepareSave | internal/http/smtp_account.go:113-182 | The handler's reassignments of secret and encrypter compute the function those two results are about |
| AccountHandlers.HandleSave | internal/http/imap_account.go:98-189 | An uninterrupted save touches one channel of one account; on a redirect the stored password is the submitted one, or the old secret if none was; without faults it fails only for a missing account, a first save without a password, or failing encryption |
| AccountHandlers.ParseForm | internal/http/imap_account.go:203-222 | Exactly which forms are refused, and that accepted ones carry the submitted fields |
| AccountHandlers.ReadsBackExactly | internal/http/smtp_send.go:233-251 | A password reads back exactly from a secret made of two blobs, each version 1, a 12-byte nonce and a sealed text: the password under a 32-byte data key bound to user, account and field name, and that key under the key file's key bound to user and account |
| AccountHandlers.CopiedSecretNeedsCollision | internal/http/mailbox.go:263-281 | A stored secret that reads back for one user, account and protocol reads back for another only if the primitive collides on two different additional data |
| Store.MailAccountStore.Get | internal/mailaccount/store.go:127-204 | The row found through both LEFT JOINs describes exactly the record of that user's account in the map view, with zero values for absent channels; no row means no such record |
| Store.MailAccountStore.ExistsByUserAndEmail | internal/mailaccount/store.go:83-98 | Answers whether the user has an account with this email |
| Store.MailAccountStore.Insert | internal/mailaccount/store.go:206-249 | Adds the whole record or nothing at every failing statement; reports a duplicate exactly for a taken email under a new id |
| Store.MailAccountStore.Save | internal/mailaccount/store.go:291-331 | Replaces one channel of the owner's record or nothing; not found exactly when the account is not the user's |
| Store.MailAccountStore.DeleteChannel | internal/mailaccount/store.go:346-386 | Removes one channel of the owner's record or nothing; not found exactly when the account is not the user's |
| Store.MailAccountStore.Delete | internal/mailaccount/store.go:333-344 | Removes the owner's record with both channels, and nothing of another user |
| Store.Touch | internal/mailaccount/store.go:392-412 | Succeeds exactly if the statement and its row count succeed and the account is the user's |
| Store.SelectedRow | internal/mailaccount/store.go:135-158 | The joined query selects one row for the owner's account, padded with NULLs where a channel is absent, and none otherwise |
| Store.ViewDeterminesTables | internal/db/migrations/001_create_mail_accounts.sql:1-34 | Under the constraints the map view determines all three tables, so no child row is without its parent |
| Store.ViewIsWellKeyed | internal/db/migrations/001_create_mail_accounts.sql:1-34 | The constraints mean one owner per account id and one account per user and email |
| Store.StepsKeepKeys | internal/mailaccount/store.go:206-386 | Every operation, failed or not, keeps that |
| Store.StepsAreLocal | internal/mailaccount/store.go:291-412 | No operation changes another account, and a channel write changes neither the email nor the other protocol |
| Store.InsertMailMeaning | internal/mailaccount/store.go:206-230 | Inserting the parent row fails exactly on a taken id or a taken email of that user, told apart |
| Store.ChannelView | internal/mailaccount/store.go:476-570 | Upserting or deleting a child row is replacing that part of one record |
| Store.DeletedView | internal/mailaccount/store.go:333-344 | Deleting the parent with its cascades is removing one record |
| Envelope.EncryptAesGcm | internal/crypto/envelope.go:114-138 | Builds version byte, nonce and sealed text step by step |
| Envelope.DecryptsExactlyEncryptions | internal/crypto/envelope.go:114-171 | A blob decrypts to a plaintext if and only if encryption of that plaintext yields it under some 12-byte nonce |
| Envelope.DecryptErrors | internal/crypto/envelope.go:140-171 | A wrong key size and an unknown version are reported as such, exactly then |
| Envelope.BlobRoundTrip | internal/crypto/envelope.go:86-171 | For any nonce, decryption inverts encryption, and the blob has its version byte and length |
| Envelope.EnvelopeRoundTrip | internal/crypto/envelope.go:38-76 | A new envelope carries its version and opens to its own 32-byte key under the same additional data |
| AccountId.NewId | internal/mailaccount/store.go:71-81 | The id is version 4, variant 1 UUID text (section 5.4 of RFC 9562) that keeps all other random bits; it fails exactly when randomness does |
| AccountId.VersionedIsV4 | internal/mailaccount/store.go:77-80 | Overwriting the version and variant bits gives version 4 text and keeps the other bits |
| AccountId.UuidTextInjective | internal/mailaccount/store.go:80-80 | Equal ids come from equal bytes |
| AccountId.UuidTextGroups | internal/mailaccount/store.go:80-80 | The text is the 16 bytes in order, in groups of 4, 2, 2, 2 and 6 between dashes |
| AccountId.HexAllAt | internal/mailaccount/store.go:80-80 | Each byte of a group is two digits, the high half first |
| AccountId.HexDigitText | internal/mailaccount/store.go:80-80 | The digits of 0 to 15 are 0 to 9 and then a to f |
| AccountId.AadInjective | internal/http/mail_account.go:161-167 | Two uses of additional data agree only when user, account and purpose agree, even if user ids contain colons; no envelope use equals a field use |
| AccountId.AadCollidesOnFreeFormIds | internal/http/mail_account.go:161-167 | That needs the fixed shape of account ids |
| MimeText.ExtractEntityText | internal/imap/client.go:430-483 | The recursive search with early exits computes the function the next rows are about |
| MimeText.LeafExactly | internal/imap/client.go:430-516 | What comes of an entity that is no multipart, told by its header: nothing for other types and attachments, else the first 2 MiB of the decoder that the transfer encoding names up to case and white space, and an error exactly when that decoder fails below the limit |
| MimeText.DecodesByHeader | internal/imap/client.go:496-505 | base64 is read from the base64 decoder, quoted-printable from its own, everything else raw |
| Strings.NamesExactly | internal/imap/client.go:496-497 | Trimming and lower-casing a header value compares it with a name up to capital letters and white space around it |
| MimeText.ExtractIsTheChoice | internal/imap/client.go:436-469 | The result of a multipart is exactly the declared choice: the first part that is inline plain text or fails decides; else a broken end fails; else the first non-empty text in order; else none |
| MimeText.ChoiceIsUnique | internal/imap/client.go:436-469 | The declared choice allows one result only |
| MimeText.TextIsALeafsDecoding | internal/imap/client.go:430-505 | Any text shown is at most 2 MiB long and comes from some inline plain text or HTML leaf of the tree, read by the decoder that the leaf's header names |
| MimeText.FindsTextExactly | internal/imap/client.go:430-483 | On every tree without malformed parts the search succeeds, and finds text, or non-empty text, if and only if the structure of the tree says so: an inline plain part decides its multipart, else a part that shows text |
| MimeText.FindsTextIffThereIsSome | internal/imap/client.go:430-483 | So on such trees without empty texts, text is found exactly when the tree has an inline text leaf at any depth |
| MimeText.LeavesAreMissedExactly | internal/imap/client.go:430-483 | Inline text is overlooked exactly when the tree has some and yet finds none, and then some text in it is empty |
| MimeText.EmptyNestedTextIsDropped | internal/imap/client.go:459-469 | A tree in which that happens: a nested multipart's empty text is passed over |
| MimeText.RestAfterPlainTextIsIrrelevant | internal/imap/client.go:451-461 | Replacing everything after the deciding part, even by malformed parts, changes nothing |
| MimeText.PlainTextIsPreferred | internal/imap/client.go:451-469 | Readable inline plain text wins over every other alternative if nothing before it fails |
| MimeText.TextBodyOfReadableTree | internal/imap/client.go:407-420 | On every tree without malformed parts the placeholder stands exactly where no text is found, and else the decoding of an inline text leaf |
| MessageText.PassesOnHead | internal/smtp/client.go:208-212 | The three replacement passes equal a one-pass line-ending automaton |
| MessageText.NormalizedLines | internal/smtp/client.go:208-212 | Normalising keeps the lines and ends each with CRLF, whatever ended it |
| MessageText.NormalizedSplit | internal/smtp/client.go:208-212 | Splitting the result at CRLF gives the original's lines |
| MessageText.NormalizedExactly | internal/smtp/client.go:208-212 | The result has no bare CR or LF, exactly such texts are unchanged, and normalising twice is normalising once |
| MessageText.Sanitize | internal/smtp/client.go:260-263 | The value keeps its length and loses every CR and LF, and nothing else changes if there is none |
| MessageText.BuildMessage | internal/smtp/client.go:185-206 | Appending header lines one by one prints the message's fields in order, then the normalised body |
| MessageText.ReadPrinted | internal/smtp/client.go:185-206 | Reading lines up to the first empty one, each split at its first colon, recovers printable fields in order and the body |
| MessageText.BuiltMessageReadsBack | internal/smtp/client.go:185-212 | So every built message reads back as its sanitised fields and normalised body, and has no bare CR or LF (sections 2.1 to 2.3 of RFC 5322) |
| MessageText.HeadersReadBack | internal/smtp/client.go:185-206 | A reader of a built message finds under From, To, Cc, Subject, In-Reply-To and References the message's values, sanitised, and the three fixed MIME headers |
| MessageText.QuotedReplyBody | internal/http/smtp_reply.go:280-289 | The loop prints two line ends, "On <date>, <sender> wrote:" and each line marked with "> " |
| MessageText.QuotableLinesOfText | internal/http/smtp_reply.go:283-287 | The quoted lines are the lines of the original, whether LF or CRLF ends them |
| MessageText.QuoteRoundTrip | internal/http/smtp_reply.go:280-289 | After normalisation, removing three lines and the marks returns every original line if and only if CRs occur at line ends only |
| Threading.SubstringIsToken | internal/http/smtp_reply.go:291-300 | For well-formed message ids the substring test decides whether the id is one of the tokens |
| Threading.ReplyReferencesTokens | internal/http/smtp_reply.go:291-300 | The References of a reply are the original's tokens, with the original's id appended unless present |
| Threading.LastReferenceIsTheParent | internal/http/smtp_reply.go:291-300 | The References header of a delivered reply ends with its In-Reply-To exactly unless the parent's references named the parent before their end |
| Threading.DeliveredReply | internal/smtp/client.go:194-199 | The threading fields survive printing, delivery and reading |
| Threading.OneReply | internal/http/smtp_send.go:106-113 | A delivered reply names its parent in In-Reply-To and lists the parent's references, and then the parent unless it is among them |
| Threading.ReferencesListAncestors | internal/http/smtp_send.go:106-113 | Along any chain of replies, repeated ids included, the n-th message's References are the root's references and then every ancestor id not yet listed, root first, and it replies to the message before it |
| Threading.NextAncestors | internal/http/smtp_reply.go:291-300 | That list grows by one application of the reply rule per message |
| Threading.AncestorElements | internal/http/smtp_reply.go:291-300 | It holds exactly the root's references and all ancestor ids |
| Threading.AncestorsOnce | internal/http/smtp_reply.go:291-300 | It has no duplicates if and only if the root's references have none |
| Threading.LastAncestorIsTheParent | internal/http/smtp_reply.go:291-300 | On the chain, References end with In-Reply-To exactly if the parent's id is new there or was the last one listed before |
| Threading.ReferencesListAllAncestors | internal/http/smtp_send.go:106-113 | With distinct ids References are the root's references and all ancestor ids, and end with In-Reply-To |
| Addresses.FormatAddresses | internal/imap/client.go:355-366 | Prints the complete addresses in order, separated by commas, and drops the others |
| Addresses.AddressText | internal/imap/client.go:375-390 | The display of one address: nothing if a half is missing, else the address, in angle brackets after the name if there is one |
| Addresses.ParsePrintedList | internal/imap/client.go:375-390 | The list grammar of section 3.4 of RFC 5322, for names of atoms and spaces and dot-atom addresses, reads a printed list back in order |
| Addresses.FormattedAddressesReadBack | internal/imap/client.go:355-390 | So what is displayed reads back as the complete addresses in order |
| ReplyAll.GrammarReadsPlainLists | internal/smtp/client.go:248-258 | The small grammar satisfies what is assumed of the library's parser |
| ReplyAll.ReplyGoesToPrimary | internal/http/smtp_reply.go:214-227 | From a received message's headers through their display: a reply goes to the first Reply-To address if it is complete, else to the first complete sender |
| ReplyAll.UnreadableRecipientIsKept | internal/http/smtp_reply.go:214-227 | The first address of the Reply-To if there is one, else of the sender; a value that is no list stands as it is |
| ReplyAll.AddExcludedAddress | internal/http/smtp_reply.go:257-267 | Adds the non-empty lower-case keys of the value's addresses, and of nothing if it does not parse |
| ReplyAll.AppendReplyAllAddresses | internal/http/smtp_reply.go:241-255 | Appends the fresh addresses in order and marks them as seen |
| ReplyAll.ReplyAllRecipients | internal/http/smtp_reply.go:229-239 | To is the reply recipient, Cc the fresh addresses of To and then Cc, the account's own and the recipient excluded |
| ReplyAll.FreshKeepsFirstOccurrences | internal/http/smtp_reply.go:241-255 | The running filter keeps exactly the first occurrences of keys that are non-empty and not excluded, in order |
| ReplyAll.FreshKeys | internal/http/smtp_reply.go:241-255 | The kept keys are all keys less the excluded ones, each once |
| ReplyAll.UneditedReplyAllRecipients | internal/smtp/client.go:230-258 | An unedited reply-all is sent to the recipient and then exactly the other addressees, in order of first occurrence, each once whatever its case, and never in Cc to the account itself |
| ReplyAll.RecipientsExactly | internal/smtp/client.go:230-258 | The recipients are all addresses of To and then all of Cc; there are none exactly if a needed list does not parse or nobody is named |
| ReplyAll.PrintedListsAreRecipients | internal/smtp/client.go:230-258 | Printed lists of plain addresses of any length give back exactly those addresses |
| ReplyAll.DisplayedReplyAllRecipients | internal/http/smtp_reply.go:214-267 | From a received message's addresses through their display and an unedited reply-all form to the SMTP recipients: that primary address, then the To and Cc addresses in order of first occurrence, less the account and the primary |
| SmtpSession.Connect | internal/smtp/client.go:134-183 | Exactly when connecting succeeds, and exactly which failure is reported otherwise; TLS is started in STARTTLS mode only |
| SmtpSession.Send | internal/smtp/client.go:58-108 | The calls are a prefix of the full session, each answered as the server answers it, stopping at the first refusal (a refused write is still closed); it succeeds exactly if the message is valid, the server can be reached as configured, credentials are there and the server accepts every call; then every address of To and of Cc got its RCPT, in order; every other error has its exact cause |
| SmtpSession.WholeSession | internal/smtp/client.go:58-108 | The full session call by call: STARTTLS in that mode, AUTH, MAIL, one RCPT for each recipient in order, DATA, the printed message, its end, QUIT |
| SmtpSession.NameRecipients | internal/smtp/client.go:83-91 | Every recipient is named in order, stopping at the first refusal |
| SmtpSession.SendContent | internal/smtp/client.go:93-107 | Succeeds exactly if DATA, the content, its end and QUIT were all accepted |
| SmtpSession.PlaceInSession | internal/smtp/client.go:58-108 | Each command has one place in the full session (section 3.3 of RFC 5321) |
| SmtpSession.DataOnlyAfterEveryRecipient | internal/smtp/client.go:58-108 | DATA is called only after TLS where required, the credentials, the sender and every recipient in To-then-Cc order were accepted |
| SmtpSession.AuthOnlyAfterTls | internal/smtp/client.go:134-183 | In STARTTLS mode no credentials are sent before TLS was accepted; STARTTLS is used in no other mode |
| SmtpSession.CompletedIsDelivered | internal/smtp/client.go:58-108 | Success means the server took the whole message |
| SmtpSession.DeliveredButReportedAsFailed | internal/smtp/client.go:93-107 | The server took what was written and Send reports a refusal if and only if QUIT alone was refused, or the write alone failed and its end was accepted; then the message may be truncated |
| SmtpSession.SendFailsAfterDeliveryExactly | internal/smtp/client.go:58-108 | The same in terms of the server: exactly if AUTH is reached with credentials and the server refuses nothing but QUIT, or nothing but the write before the end |
| SmtpSession.RefusingWorldsExist | internal/smtp/client.go:98-107 | There are such servers for every session |
| SendAndFlag.ParseForm | internal/http/smtp_send.go:253-288 | Exactly which forms are refused, and that accepted ones carry the submitted fields |
| SendAndFlag.MailServer.LoadOriginal | internal/http/smtp_send.go:124-147 | It fails exactly if the mode needs an original and it cannot be had, and else gives the message at that mailbox and UID |
| SendAndFlag.MailServer.ApplySideEffect | internal/http/smtp_send.go:149-172 | After a reply or reply-all the message at that mailbox and UID gains \Answered, after a forward $Forwarded, after a new message nothing changes; or nothing changes and the page warns; the warning says exactly whether reading the password or storing failed |
| SendAndFlag.MailServer.HandleSend | internal/http/smtp_send.go:58-122 | The sent page comes exactly when nothing is missing, nothing fails and the SMTP session succeeds; then the composed message was sent and its original flagged by its mode, and flagging decides only the warning; every other page comes with no reported send and no flag, and says what was missing |
| SendAndFlag.ComposedThreading | internal/http/smtp_send.go:98-113 | A reply is refused exactly when its original has no Message-ID, and else names it; other modes name nothing |
| SendAndFlag.FlagsFollowSends | internal/imap/client.go:228-255 | In every interleaving, a message carries \Answered only if others set it or after a successful reply or reply-all to that mailbox and UID, whose In-Reply-To is that message's non-empty Message-ID, and $Forwarded only if others set it or after a successful forward of it; the original a handler holds is the message that arrived there |
| SendAndFlag.FlagGainsFollowSends | internal/imap/client.go:228-255 | A flag gained at a step comes from the mail server or another client at that step, or from a handler after such a send |
| SendAndFlag.HandlersOnlyAddTheirFlag | internal/imap/client.go:236-255 | No handler step removes a flag or a message or touches another message |
| Sessions.SessionStore.Put | internal/auth/session.go:30-34 | Stores one session and changes no mark |
| Sessions.SessionStore.Get | internal/auth/session.go:36-41 | Returns the session stored under the id, if any |
| Sessions.SessionStore.Delete | internal/auth/session.go:43-47 | Removes one session and changes no mark |
| Sessions.SessionStore.RequireReauthAfter | internal/auth/session.go:49-56 | Marks one subject, and never the empty one |
| Sessions.SessionStore.ReauthAfterTime | internal/auth/session.go:58-66 | Returns the subject's mark, if any |
| Sessions.SessionStore.ClearReauthAfter | internal/auth/session.go:68-75 | Removes one subject's mark and no session |
| Sessions.SessionStore.HandleCallback | internal/http/auth.go:69-87 | Run without interruption, a session is created exactly if a random id was drawn and the subject has no mark, or the login time is given and not before the mark; an admitted login also removes the mark |
| Sessions.SessionStore.HandleLogout | internal/http/auth.go:89-99 | Marks the subject of the live session, then deletes the session |
| Sessions.MarkIsLatestUnansweredLogout | internal/auth/session.go:49-75 | With handlers run one at a time, the mark is always the latest logout of the subject that no fresh login has answered |
| Sessions.GuardedUnlessAnswerLost | internal/http/auth.go:69-82 | With handlers run one at a time, after a logout at T and before the next session either a mark of at least T is in force or the answer since the last logout was lost, exactly one of the two |
| Sessions.LoginsAfterLogoutAreFreshExactly | internal/http/auth.go:69-82 | In that time the store admits only logins with a time of T or later, if and only if no answer was lost since the last logout |
| Sessions.FirstSessionAfterLogoutIsFresh | internal/http/auth.go:69-95 | Then the first session created after the logout has a non-zero login time of T or later |
| Sessions.FirstSessionIsFreshIfIdsAreDrawn | internal/http/auth.go:69-95 | That is always so if every login draws its session id |
| Sessions.StaleLoginAdmittedExactly | internal/http/auth.go:69-75 | With handlers run one at a time, a login of unknown age gets a session exactly when no logout is unanswered |
| Sessions.LostAnswerAdmitsStaleLogin | internal/http/auth.go:74-82 | There is a run in which a random source that fails loses an answer and so lets a login of unknown age in after a logout |
| Sessions.LiveSessionsWereDrawn | internal/http/auth.go:78-84 | Every live session id was drawn by an earlier login |
| Sessions.DeletedIdsStayDead | internal/auth/session.go:43-47 | With fresh random ids a deleted session id never becomes live again |
| LoginRaces.UninterruptedLogin | internal/http/auth.go:69-84 | A login's check, clearing and storing in a row are the uninterrupted callback |
| LoginRaces.UninterruptedLogout | internal/http/auth.go:89-95 | A logout's lookup, mark and deletion in a row are the uninterrupted logout |
| LoginRaces.CheckAdmitsExactly | internal/http/auth.go:69-73 | A check lets a login go on exactly if there is no mark, or the login time is given and not before it |
| LoginRaces.SessionsAfter | internal/auth/session.go:30-47 | A step changes the sessions only by storing a checked login or by a logout's removal |
| LoginRaces.MarkIsDueExactly | internal/auth/session.go:49-75 | In every interleaving of these steps the mark always is the latest unanswered logout, if and only if every login is still admitted when it clears the mark |
| LoginRaces.LoginsAreSafeExactly | internal/http/auth.go:69-84 | In every interleaving, the mark always is right and no session is stored against an unanswered logout, if and only if every login is still admitted when it clears and when it stores |
| LoginRaces.NoLongerAdmittedExactly | internal/http/auth.go:69-84 | A login that passed its check is no longer admitted exactly when a logout marked since then, and still in force, is too recent for it |
| LoginRaces.SafeUnlessOvertaken | internal/http/auth.go:69-95 | So the guarantee holds exactly in the runs in which no login is overtaken by a logout |
| LoginRaces.FirstPastTheMark | internal/http/auth.go:69-84 | The login that first clears the mark of a logout at T, or stores a session while it is in force, has a time of T or later exactly if it is still admitted there |
| LoginRaces.LogoutBetweenCheckAndClearIsForgotten | internal/http/auth.go:69-75 | There is a run in which a logout between a login's check and its clearing leaves no mark |
| LoginRaces.StaleSessionStoredAfterLogout | internal/http/auth.go:69-84 | There is a run in which a login of unknown age, checked before a logout, stores its session after it while the mark is in force |
| Migrations.Database.ApplyMigration | internal/db/migrate.go:49-83 | Whatever fails, a migration takes effect and is recorded together or not at all, and success means it is recorded |
| Migrations.Database.Migrate | internal/db/migrate.go:18-47 | A run newly records only .sql files of the directory, in ascending byte order, and on success all of them; without failures it succeeds; what it applies are the first few of the remaining names |
| Migrations.MigrationNamesExactly | internal/db/migrate.go:32-38 | The migrations are exactly the files of the directory whose names end in .sql |
| Migrations.LessIsBefore | internal/db/migrate.go:39-39 | The order is byte order: a proper prefix, or the smaller byte at the first difference, comes first |
| Migrations.SortSorts | internal/db/migrate.go:39-39 | The sorted names are strictly ascending and the same names |
| Migrations.SortedIsUnique | internal/db/migrate.go:39-39 | There is only one such order |
| Migrations.StepEffects | internal/db/migrate.go:41-47 | A run only adds effects, of its own release's migrations |
| Migrations.EffectsAreRecordedOnce | internal/db/migrate.go:49-83 | Over any number of starts of any releases, with a crash anywhere, the migrations in effect are exactly the recorded ones, each once, and a successful start has all of its release |
| Migrations.EffectsAreAPrefix | internal/db/migrate.go:18-47 | With upgrades that add names at the end, what is in effect is a prefix of the release's sorted names, and all of it after success |
| Migrations.LaterNamesExtendTheList | internal/db/migrate.go:39-39 | New names that sort after the old ones do extend the sorted list at its end |
| Migrations.AnotherRunChangesNothing | internal/db/migrate.go:57-66 | After a success a further run of that release changes nothing |
| MessageWindow.ListMessages | internal/imap/client.go:93-151 | Returns the last messages of the mailbox, as many as the limit (100 for 0) or all, newest first, for every mailbox size and limit without a 32-bit wrap |
| MessageWindow.ReverseSummaries | internal/imap/client.go:401-405 | The swaps in place reverse the array |
| MessageWindow.Summarise | internal/imap/client.go:131-147 | A summary has the message's fields, the header date unless it is missing, and both flags |
| MessageWindow.HasFlag | internal/imap/client.go:392-399 | Tells whether some flag equals the wanted one, case folded |

## Left out

- `Store.Update`, `ListSummaries`, the list and edit pages: no handler calls the first, the others only read.
- HTML, routes, redirects, cookies, OIDC state and nonce checks, status strings, configuration loading.
- `created_at` and `updated_at` columns, and the error texts and wrapping of every operation.
- AES-GCM itself, random sources, TLS, the SQL driver and the SMTP and IMAP client libraries: parameters, or results that may be anything.
- KEK rotation: the code never chooses a key by version.
- Subject prefixes and the forward form: string constants without a deeper property.
- UIDVALIDITY changes on the mail server.
- SMTP below the client library's calls: the EHLO exchange, the choice of the authentication mechanism (it is part of how AUTH is answered), and the QUIT the library itself sends when AUTH fails.
- Header folding and other rewriting by mail servers on the way; a delivered message is what was sent with a Message-ID put in front.
- Address syntax beyond plain atoms: quoted names, comments, groups and encoded words.
- MIME header parsing, multipart splitting and transfer decoding; a decoder error exactly at the 2 MiB limit counts as unseen.
- Concurrent starts of the server: migrations run in one start at a time, and their SQL is transactional.
- MessageText.BuiltMessageReadsBack: From and To must have no CR or LF, which validation by the address parser gives in the code; that parser is not modelled.
- ReplyAll.UneditedReplyAllRecipients: assumes of the parser only `ReadsPlainLists`, and that the recipient, the account's own address and all addresses of the original are plain (dot-atoms around one "@").
- Threading.ReferencesListAncestors: assumes well-formed message ids, separated by single spaces in the root's References; ids may repeat.
- Sessions.SessionStore.HandleCallback: runs without interruption; `LoginRaces` has its locked sections as separate steps.
- MessageWindow.ListMessages: assumes the server answers the fetch in ascending sequence order.
