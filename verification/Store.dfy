/**
 * The mail account store: three tables with their constraints, the SQL
 * statements over them, and the store's transactions, which refine a plain
 * map from (user, account id) to a record with optional IMAP and SMTP parts.
 *
 * The IMAP and SMTP halves of the store are the same code with the names
 * changed, so one member with a Protocol argument stands for both.
 */
module Store {
  import opened Prelude

  type User = string
  type Id = string

  datatype Protocol = Imap | Smtp

  /** Encrypted password, wrapped data key and key version, always written together. */
  datatype Secret = Secret(encryptedPassword: Bytes, wrappedDek: Bytes, kekVersion: int)

  datatype Row = Row(host: string, port: int, security: string, username: string, secret: Secret)

  datatype MailRow = MailRow(user: User, email: string)

  datatype Tables = Tables(mail: map<Id, MailRow>, imapRows: map<Id, Row>, smtpRows: map<Id, Row>) {

    function Channel(p: Protocol): map<Id, Row> {
      match p
      case Imap => imapRows
      case Smtp => smtpRows
    }

    function WithChannel(p: Protocol, rows: map<Id, Row>): Tables {
      match p
      case Imap => this.(imapRows := rows)
      case Smtp => this.(smtpRows := rows)
    }
  }

  /** The schema's constraints; primary keys are the map keys. */
  ghost predicate Consistent(t: Tables) {
    && t.imapRows.Keys <= t.mail.Keys
    && t.smtpRows.Keys <= t.mail.Keys
    && (forall a, b | a in t.mail && b in t.mail && t.mail[a] == t.mail[b] :: a == b)
  }

  // ----- SQL statements -----

  datatype SqlError = PrimaryKeyViolation | UniqueViolation | ForeignKeyViolation

  function InsertMail(t: Tables, id: Id, user: User, email: string): Result<Tables, SqlError> {
    if id in t.mail then Failure(PrimaryKeyViolation)
    else if MailRow(user, email) in t.mail.Values then Failure(UniqueViolation)
    else Success(t.(mail := t.mail[id := MailRow(user, email)]))
  }

  /** UPDATE mail_accounts ... WHERE user_id AND id: the number of rows affected. */
  function Touched(t: Tables, user: User, id: Id): nat {
    if id in t.mail && t.mail[id].user == user then 1 else 0
  }

  function InsertChannel(t: Tables, p: Protocol, id: Id, row: Row): Result<Tables, SqlError> {
    if id in t.Channel(p) then Failure(PrimaryKeyViolation)
    else if id !in t.mail then Failure(ForeignKeyViolation)
    else Success(t.WithChannel(p, t.Channel(p)[id := row]))
  }

  function UpsertChannel(t: Tables, p: Protocol, id: Id, row: Row): Result<Tables, SqlError> {
    if id !in t.mail then Failure(ForeignKeyViolation)
    else Success(t.WithChannel(p, t.Channel(p)[id := row]))
  }

  function DeleteChannelRow(t: Tables, p: Protocol, id: Id): Tables {
    t.WithChannel(p, t.Channel(p) - {id})
  }

  /** DELETE FROM mail_accounts, with ON DELETE CASCADE to both child tables. */
  function DeleteMail(t: Tables, user: User, id: Id): Tables {
    if Touched(t, user, id) == 0 then t
    else Tables(t.mail - {id}, t.imapRows - {id}, t.smtpRows - {id})
  }

  // ----- The map the tables stand for -----

  datatype Record = Record(email: string, imapPart: Option<Row>, smtpPart: Option<Row>) {

    function Channel(p: Protocol): Option<Row> {
      match p
      case Imap => imapPart
      case Smtp => smtpPart
    }

    function WithChannel(p: Protocol, row: Option<Row>): Record {
      match p
      case Imap => this.(imapPart := row)
      case Smtp => this.(smtpPart := row)
    }
  }

  type Directory = map<(User, Id), Record>

  function Lookup<K, V>(m: map<K, V>, k: K): Option<V> {
    if k in m then Some(m[k]) else None
  }

  function View(t: Tables): Directory {
    map id | id in t.mail ::
      (t.mail[id].user, id) := Record(t.mail[id].email, Lookup(t.imapRows, id), Lookup(t.smtpRows, id))
  }

  /** What the constraints mean for the map. */
  ghost predicate WellKeyed(d: Directory) {
    && (forall j, k | j in d && k in d && j.1 == k.1 :: j == k)
    && (forall j, k | j in d && k in d && j.0 == k.0 && d[j].email == d[k].email :: j == k)
  }

  lemma ViewAt(t: Tables, user: User, id: Id)
    ensures (user, id) in View(t) <==> Touched(t, user, id) == 1
    ensures (user, id) in View(t) ==>
              View(t)[(user, id)] == Record(t.mail[id].email, Lookup(t.imapRows, id), Lookup(t.smtpRows, id))
  {
    if Touched(t, user, id) == 1 {
      assert (t.mail[id].user, id) in View(t);
    }
  }

  lemma ViewIsWellKeyed(t: Tables)
    requires Consistent(t)
    ensures WellKeyed(View(t))
  {}

  /** Nothing is lost by looking only at the map: it determines all three tables. */
  lemma ViewDeterminesTables(s: Tables, t: Tables)
    requires Consistent(s) && Consistent(t) && View(s) == View(t)
    ensures s == t
  {
    forall id
      ensures Lookup(s.mail, id) == Lookup(t.mail, id)
      ensures Lookup(s.imapRows, id) == Lookup(t.imapRows, id)
      ensures Lookup(s.smtpRows, id) == Lookup(t.smtpRows, id)
    {
      if id in s.mail { ViewAt(s, s.mail[id].user, id); ViewAt(t, s.mail[id].user, id); }
      if id in t.mail { ViewAt(s, t.mail[id].user, id); ViewAt(t, t.mail[id].user, id); }
    }
    SameLookups(s.mail, t.mail);
    SameLookups(s.imapRows, t.imapRows);
    SameLookups(s.smtpRows, t.smtpRows);
  }

  lemma SameLookups<K(!new), V>(a: map<K, V>, b: map<K, V>)
    requires forall k :: Lookup(a, k) == Lookup(b, k)
    ensures a == b
  {
    assert forall k :: k in a ==> Lookup(b, k) == Some(a[k]);
    assert forall k :: k in b ==> Lookup(a, k) == Some(b[k]);
  }

  // ----- What each operation may do to the map -----

  datatype Outcome = Ok | NotFound | Duplicate | Failed

  /** All or nothing: a failed operation left the map alone, or its commit went through unacknowledged. */
  ghost predicate AllOrNothing(d: Directory, d': Directory, target: Directory, r: Outcome) {
    match r
    case Ok => d' == target
    case Failed => d' == d || d' == target
    case _ => d' == d
  }

  function Put(d: Directory, user: User, id: Id, p: Protocol, row: Option<Row>): Directory {
    if (user, id) in d then d[(user, id) := d[(user, id)].WithChannel(p, row)] else d
  }

  ghost predicate WriteStep(d: Directory, d': Directory, p: Protocol, user: User, id: Id, row: Option<Row>, r: Outcome) {
    && AllOrNothing(d, d', Put(d, user, id, p, row), r)
    && (r == Ok ==> (user, id) in d)
    && (r == NotFound ==> (user, id) !in d)
    && r != Duplicate
  }

  ghost predicate DeleteStep(d: Directory, d': Directory, user: User, id: Id, r: Outcome) {
    AllOrNothing(d, d', d - {(user, id)}, r) && (r == Ok || r == Failed)
  }

  ghost predicate EmailTaken(d: Directory, user: User, email: string) {
    exists k :: k in d && k.0 == user && d[k].email == email
  }

  ghost predicate IdTaken(d: Directory, id: Id) {
    exists k :: k in d && k.1 == id
  }

  ghost predicate InsertStep(d: Directory, d': Directory, user: User, id: Id, record: Record, r: Outcome) {
    var applies := !IdTaken(d, id) && !EmailTaken(d, user, record.email);
    && AllOrNothing(d, d', if applies then d[(user, id) := record] else d, r)
    && (r == Ok ==> applies)
    && (r == Duplicate ==> EmailTaken(d, user, record.email) && !IdTaken(d, id))
    && r != NotFound
  }

  lemma WritesKeepKeys(d: Directory, d': Directory, p: Protocol, user: User, id: Id, row: Option<Row>, r: Outcome)
    requires WellKeyed(d) && WriteStep(d, d', p, user, id, row, r)
    ensures WellKeyed(d')
  {
    assert d'.Keys == d.Keys && forall k | k in d :: d'[k].email == d[k].email;
  }

  lemma InsertsKeepKeys(d: Directory, d': Directory, user: User, id: Id, record: Record, r: Outcome)
    requires WellKeyed(d) && InsertStep(d, d', user, id, record, r)
    ensures WellKeyed(d')
  {
    if d' != d {
      assert d' == d[(user, id) := record] && !IdTaken(d, id) && !EmailTaken(d, user, record.email);
    }
  }

  /** Every operation keeps account ids owned by one user and emails unique per user. */
  lemma StepsKeepKeys(d: Directory, d': Directory, p: Protocol, user: User, id: Id, row: Option<Row>, record: Record, r: Outcome)
    requires WellKeyed(d)
    requires WriteStep(d, d', p, user, id, row, r) || DeleteStep(d, d', user, id, r) || InsertStep(d, d', user, id, record, r)
    ensures WellKeyed(d')
  {
    if WriteStep(d, d', p, user, id, row, r) {
      WritesKeepKeys(d, d', p, user, id, row, r);
    } else if InsertStep(d, d', user, id, record, r) {
      InsertsKeepKeys(d, d', user, id, record, r);
    }
  }

  /** No operation touches another account, and a write touches only its own protocol and never the email. */
  lemma StepsAreLocal(d: Directory, d': Directory, p: Protocol, user: User, id: Id, row: Option<Row>, record: Record, r: Outcome)
    requires WriteStep(d, d', p, user, id, row, r) || DeleteStep(d, d', user, id, r) || InsertStep(d, d', user, id, record, r)
    ensures forall k | k != (user, id) :: Lookup(d', k) == Lookup(d, k)
    ensures WriteStep(d, d', p, user, id, row, r) && (user, id) in d ==>
              && (user, id) in d'
              && d'[(user, id)].email == d[(user, id)].email
              && (forall q | q != p :: d'[(user, id)].Channel(q) == d[(user, id)].Channel(q))
              && (d'[(user, id)].Channel(p) == d[(user, id)].Channel(p) || d'[(user, id)].Channel(p) == row)
    ensures WriteStep(d, d', p, user, id, row, r) && (user, id) !in d ==> d' == d && r != Ok
  {}

  // ----- SELECT through the LEFT JOINs -----

  /** Nullable columns of one joined child table. */
  datatype Columns = Columns(
    host: Option<string>, port: Option<int>, security: Option<string>, username: Option<string>,
    encryptedPassword: Option<Bytes>, wrappedDek: Option<Bytes>, kekVersion: Option<int>)

  const NULLS := Columns(None, None, None, None, None, None, None)

  function ColumnsOf(row: Row): Columns {
    Columns(Some(row.host), Some(row.port), Some(row.security), Some(row.username),
            Some(row.secret.encryptedPassword), Some(row.secret.wrappedDek), Some(row.secret.kekVersion))
  }

  /** LEFT JOIN child ON child.mail_account_id = key: unmatched rows are padded with NULLs. */
  function LeftJoin<A(==)>(left: set<A>, child: map<Id, Row>, key: A -> Id): set<(A, Columns)> {
    (set a, id | a in left && id in child.Keys && id == key(a) :: (a, ColumnsOf(child[id])))
    + (set a | a in left && key(a) !in child.Keys :: (a, NULLS))
  }

  type JoinedRow = (((Id, MailRow), Columns), Columns)

  function JoinedRows(t: Tables): set<JoinedRow> {
    LeftJoin(LeftJoin(t.mail.Items, t.imapRows, (m: (Id, MailRow)) => m.0), t.smtpRows, (j: ((Id, MailRow), Columns)) => j.0.0)
  }

  function Selected(t: Tables, user: User, id: Id): set<JoinedRow> {
    set j | j in JoinedRows(t) && j.0.0.1.user == user && j.0.0.0 == id
  }

  function Padded(child: map<Id, Row>, id: Id): Columns {
    if id in child then ColumnsOf(child[id]) else NULLS
  }

  /** The query has one row for the owner's account and none otherwise. */
  lemma SelectedRow(t: Tables, user: User, id: Id)
    ensures Selected(t, user, id) ==
            if Touched(t, user, id) == 0 then {}
            else {(((id, t.mail[id]), Padded(t.imapRows, id)), Padded(t.smtpRows, id))}
  {
    forall j: JoinedRow | j in JoinedRows(t)
      ensures j.0.0 in t.mail.Items && j.0.1 == Padded(t.imapRows, j.0.0.0) && j.1 == Padded(t.smtpRows, j.0.0.0)
    {}
    if Touched(t, user, id) == 1 {
      var m := (id, t.mail[id]);
      assert m in t.mail.Items;
      assert (m, Padded(t.imapRows, id)) in LeftJoin(t.mail.Items, t.imapRows, (m: (Id, MailRow)) => m.0);
      assert ((m, Padded(t.imapRows, id)), Padded(t.smtpRows, id)) in JoinedRows(t);
    }
  }

  /** One protocol's fields of the Detail struct, with Go's zero values when absent. */
  datatype ChannelDetail = ChannelDetail(has: bool, host: string, port: int, security: string, username: string, secret: Secret)

  datatype Detail = Detail(id: Id, email: string, imapPart: ChannelDetail, smtpPart: ChannelDetail) {
    function Channel(p: Protocol): ChannelDetail {
      match p
      case Imap => imapPart
      case Smtp => smtpPart
    }
  }

  const ABSENT := ChannelDetail(false, "", 0, "", "", Secret("", "", 0))

  function OrZero<T>(v: Option<T>, zero: T): T {
    match v
    case Some(x) => x
    case None => zero
  }

  function Scan(c: Columns): ChannelDetail {
    ChannelDetail(c.host.Some?, OrZero(c.host, ""), OrZero(c.port, 0), OrZero(c.security, ""), OrZero(c.username, ""),
                  Secret(OrZero(c.encryptedPassword, ""), OrZero(c.wrappedDek, ""), OrZero(c.kekVersion, 0)))
  }

  /** The details shown for a record: present channels verbatim, absent ones zeroed. */
  ghost predicate Describes(detail: Detail, id: Id, record: Record) {
    && detail.id == id
    && detail.email == record.email
    && forall p: Protocol ::
         match record.Channel(p)
         case None => detail.Channel(p) == ABSENT
         case Some(row) => detail.Channel(p) == ChannelDetail(true, row.host, row.port, row.security, row.username, row.secret)
  }

  /** A child row column by column, or its absence. */
  predicate ShowsRow(c: ChannelDetail, child: map<Id, Row>, id: Id) {
    && (c.has <==> id in child)
    && (c.has ==>
        && c.host == child[id].host && c.port == child[id].port && c.security == child[id].security
        && c.username == child[id].username && c.secret == child[id].secret)
    && (!c.has ==> c.host == c.security == c.username == "" && c.port == 0 && c.secret == Secret("", "", 0))
  }

  /** What Get answers for a user's account id. */
  ghost predicate Answers(found: Option<Detail>, d: Directory, user: User, id: Id) {
    match found
    case None => (user, id) !in d
    case Some(detail) => (user, id) in d && Describes(detail, id, d[(user, id)])
  }

  // ----- The store -----

  /** What happens to a COMMIT: it may also succeed without the client learning of it. */
  datatype CommitFate = Commits | Aborts | CommitsUnseen

  /** Which statements of a transaction fail (counted from BeginTx), and what the commit does. */
  datatype Faults = Faults(failing: set<nat>, commit: CommitFate)

  const NO_FAULTS := Faults({}, Commits)

  class MailAccountStore {
    var tables: Tables

    constructor ()
      ensures Valid() && Accounts() == map[]
    {
      tables := Tables(map[], map[], map[]);
    }

    ghost predicate Valid()
      reads this
    {
      Consistent(tables)
    }

    ghost function Accounts(): Directory
      reads this
    {
      View(tables)
    }

    method Get(user: User, id: Id, fails: bool) returns (r: Result<Option<Detail>, ()>)
      ensures r.Failure? <==> fails
      ensures r.Success? ==> Answers(r.value, Accounts(), user, id)
      ensures r.Success? ==> (r.value.Some? <==> id in tables.mail && tables.mail[id].user == user)
      ensures r.Success? && r.value.Some? ==>
                && r.value.value.id == id && r.value.value.email == tables.mail[id].email
                && ShowsRow(r.value.value.imapPart, tables.imapRows, id)
                && ShowsRow(r.value.value.smtpPart, tables.smtpRows, id)
    {
      if fails {
        return Failure(());
      }
      SelectedRow(tables, user, id);
      ViewAt(tables, user, id);
      var rows := Selected(tables, user, id);
      if rows == {} {
        return Success(None);
      }
      var row: JoinedRow :| row in rows;
      return Success(Some(Detail(row.0.0.0, row.0.0.1.email, Scan(row.0.1), Scan(row.1))));
    }

    method ExistsByUserAndEmail(user: User, email: string, fails: bool) returns (r: Result<bool, ()>)
      ensures r.Failure? <==> fails
      ensures r.Success? ==> (r.value <==> EmailTaken(Accounts(), user, email))
    {
      if fails {
        return Failure(());
      }
      var taken := exists id | id in tables.mail :: tables.mail[id] == MailRow(user, email);
      if taken {
        ghost var id :| id in tables.mail && tables.mail[id] == MailRow(user, email);
        ViewAt(tables, user, id);
      } else {
        forall k | k in Accounts() && k.0 == user
          ensures Accounts()[k].email != email
        {
          ViewAt(tables, k.0, k.1);
        }
      }
      return Success(taken);
    }

    method Commit(tx: Tables, fate: CommitFate) returns (r: Outcome)
      modifies this
      ensures tables == if fate == Aborts then old(tables) else tx
      ensures r == if fate == Commits then Ok else Failed
    {
      if fate != Aborts {
        tables := tx;
      }
      r := if fate == Commits then Ok else Failed;
    }

    method Insert(user: User, id: Id, record: Record, faults: Faults) returns (r: Outcome)
      requires Valid()
      modifies this
      ensures Valid() && InsertStep(old(Accounts()), Accounts(), user, id, record, r)
      ensures faults == NO_FAULTS ==>
                r == if IdTaken(old(Accounts()), id) then Failed
                     else if EmailTaken(old(Accounts()), user, record.email) then Duplicate
                     else Ok
    {
      InsertMailMeaning(tables, id, user, record.email);
      if 0 in faults.failing || 1 in faults.failing {
        return Failed;
      }
      var tx := tables;
      var inserted := InsertMail(tx, id, user, record.email);
      if inserted.Failure? {
        return if inserted.error == UniqueViolation then Duplicate else Failed;
      }
      tx := inserted.value;
      if record.imapPart.Some? {
        var added := InsertChannel(tx, Imap, id, record.imapPart.value);
        if 2 in faults.failing || added.Failure? {
          return Failed;
        }
        tx := added.value;
      }
      if record.smtpPart.Some? {
        var added := InsertChannel(tx, Smtp, id, record.smtpPart.value);
        if 3 in faults.failing || added.Failure? {
          return Failed;
        }
        tx := added.value;
      }
      assert View(tx) == View(tables)[(user, id) := record] by {
        InsertedView(tables, tx, id, user, record);
      }
      r := Commit(tx, faults.commit);
    }

    /** SaveIMAP and SaveSMTP. */
    method Save(p: Protocol, user: User, id: Id, row: Row, faults: Faults) returns (r: Outcome)
      requires Valid()
      modifies this
      ensures Valid() && WriteStep(old(Accounts()), Accounts(), p, user, id, Some(row), r)
      ensures r == Ok ==>
                && id in old(tables).mail && old(tables).mail[id].user == user
                && tables == if p == Imap then old(tables).(imapRows := old(tables).imapRows[id := row])
                             else old(tables).(smtpRows := old(tables).smtpRows[id := row])
      ensures faults == NO_FAULTS ==> r == if (user, id) in old(Accounts()) then Ok else NotFound
    {
      ViewAt(tables, user, id);
      if 0 in faults.failing {
        return Failed;
      }
      var tx := tables;
      r := Touch(tx, user, id, faults);
      if r != Ok {
        return;
      }
      var upserted := UpsertChannel(tx, p, id, row);
      if 3 in faults.failing || upserted.Failure? {
        return Failed;
      }
      tx := upserted.value;
      ChannelView(tables, tx, p, user, id, Some(row));
      r := Commit(tx, faults.commit);
    }

    /** DeleteIMAP and DeleteSMTP. */
    method DeleteChannel(p: Protocol, user: User, id: Id, faults: Faults) returns (r: Outcome)
      requires Valid()
      modifies this
      ensures Valid() && WriteStep(old(Accounts()), Accounts(), p, user, id, None, r)
      ensures r == Ok ==>
                && id in old(tables).mail && old(tables).mail[id].user == user
                && tables == if p == Imap then old(tables).(imapRows := old(tables).imapRows - {id})
                             else old(tables).(smtpRows := old(tables).smtpRows - {id})
      ensures faults == NO_FAULTS ==> r == if (user, id) in old(Accounts()) then Ok else NotFound
    {
      ViewAt(tables, user, id);
      if 0 in faults.failing {
        return Failed;
      }
      var tx := tables;
      r := Touch(tx, user, id, faults);
      if r != Ok {
        return;
      }
      if 3 in faults.failing {
        return Failed;
      }
      tx := DeleteChannelRow(tx, p, id);
      ChannelView(tables, tx, p, user, id, None);
      r := Commit(tx, faults.commit);
    }

    /** Delete: one statement outside a transaction, which cascades. */
    method Delete(user: User, id: Id, fate: CommitFate) returns (r: Outcome)
      requires Valid()
      modifies this
      ensures Valid() && DeleteStep(old(Accounts()), Accounts(), user, id, r)
      ensures r == Ok ==>
                tables == if id in old(tables).mail && old(tables).mail[id].user == user
                          then Tables(old(tables).mail - {id}, old(tables).imapRows - {id}, old(tables).smtpRows - {id})
                          else old(tables)
      ensures fate == Commits ==> r == Ok
    {
      var tx := DeleteMail(tables, user, id);
      DeletedView(tables, user, id);
      r := Commit(tx, fate);
    }
  }

  /** touchMailAccount: an UPDATE, then its affected-row count. */
  method Touch(tx: Tables, user: User, id: Id, faults: Faults) returns (r: Outcome)
    ensures r == if 1 in faults.failing || 2 in faults.failing then Failed
                 else if Touched(tx, user, id) == 0 then NotFound else Ok
  {
    if 1 in faults.failing {
      return Failed;
    }
    var affected := Touched(tx, user, id);
    if 2 in faults.failing {
      return Failed;
    }
    return if affected == 0 then NotFound else Ok;
  }

  lemma InsertMailMeaning(t: Tables, id: Id, user: User, email: string)
    requires Consistent(t)
    ensures var r := InsertMail(t, id, user, email);
            && (r.Success? <==> !IdTaken(View(t), id) && !EmailTaken(View(t), user, email))
            && (r == Failure(UniqueViolation) <==> !IdTaken(View(t), id) && EmailTaken(View(t), user, email))
  {
    if id in t.mail {
      ViewAt(t, t.mail[id].user, id);
      assert (t.mail[id].user, id) in View(t);
    }
    if MailRow(user, email) in t.mail.Values {
      var other :| other in t.mail && t.mail[other] == MailRow(user, email);
      ViewAt(t, user, other);
      assert (user, other) in View(t);
    }
    if EmailTaken(View(t), user, email) {
      var k :| k in View(t) && k.0 == user && View(t)[k].email == email;
      ViewAt(t, k.0, k.1);
      assert t.mail[k.1] == MailRow(user, email);
    }
  }

  lemma InsertedView(t: Tables, tx: Tables, id: Id, user: User, record: Record)
    requires Consistent(t) && id !in t.mail
    requires tx.mail == t.mail[id := MailRow(user, record.email)]
    requires Lookup(tx.imapRows, id) == record.imapPart && Lookup(tx.smtpRows, id) == record.smtpPart
    requires forall other | other != id ::
               Lookup(tx.imapRows, other) == Lookup(t.imapRows, other) && Lookup(tx.smtpRows, other) == Lookup(t.smtpRows, other)
    ensures View(tx) == View(t)[(user, id) := record]
  {
    var target := View(t)[(user, id) := record];
    forall k
      ensures Lookup(View(tx), k) == Lookup(target, k)
    {
      ViewAt(t, k.0, k.1);
      ViewAt(tx, k.0, k.1);
    }
    SameLookups(View(tx), target);
  }

  lemma ChannelView(t: Tables, tx: Tables, p: Protocol, user: User, id: Id, row: Option<Row>)
    requires Consistent(t) && Touched(t, user, id) == 1
    requires match row
             case None => tx == DeleteChannelRow(t, p, id)
             case Some(r) => UpsertChannel(t, p, id, r) == Success(tx)
    ensures Consistent(tx) && View(tx) == Put(View(t), user, id, p, row)
  {
    var before, after, target := View(t), View(tx), Put(View(t), user, id, p, row);
    forall k: (User, Id)
      ensures Lookup(after, k) == Lookup(target, k)
    {
      ChannelViewAt(t, tx, p, user, id, row, k);
    }
    SameLookups(after, target);
  }

  lemma ChannelViewAt(t: Tables, tx: Tables, p: Protocol, user: User, id: Id, row: Option<Row>, k: (User, Id))
    requires Touched(t, user, id) == 1
    requires match row
             case None => tx == DeleteChannelRow(t, p, id)
             case Some(r) => UpsertChannel(t, p, id, r) == Success(tx)
    ensures Lookup(View(tx), k) == Lookup(Put(View(t), user, id, p, row), k)
  {
    ViewAt(t, user, id);
    ViewAt(t, k.0, k.1);
    ViewAt(tx, k.0, k.1);
    assert k == (k.0, k.1);
  }

  lemma DeletedView(t: Tables, user: User, id: Id)
    requires Consistent(t)
    ensures Consistent(DeleteMail(t, user, id))
    ensures View(DeleteMail(t, user, id)) == View(t) - {(user, id)}
  {
    var before, after := View(t), View(DeleteMail(t, user, id));
    forall k: (User, Id)
      ensures Lookup(after, k) == Lookup(before - {(user, id)}, k)
    {
      DeletedViewAt(t, user, id, k);
    }
    SameLookups(after, before - {(user, id)});
  }

  lemma DeletedViewAt(t: Tables, user: User, id: Id, k: (User, Id))
    ensures Lookup(View(DeleteMail(t, user, id)), k) == if k == (user, id) then None else Lookup(View(t), k)
  {
    ViewAt(t, k.0, k.1);
    ViewAt(DeleteMail(t, user, id), k.0, k.1);
    assert k == (k.0, k.1);
  }
}
