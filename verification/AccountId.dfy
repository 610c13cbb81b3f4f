/**
 * Account ids (version 4 UUID text) and the additional authenticated data
 * that binds an envelope or a password to its user, account and field.
 */
module AccountId {
  import opened Prelude

  const DIGITS := "0123456789abcdef"

  function HexDigit(n: bv8): (c: char)
    requires n < 16
    ensures c in DIGITS
  {
    DIGITS[n as int]
  }

  lemma HexDigitInjective(m: bv8, n: bv8)
    requires m < 16 && n < 16 && HexDigit(m) == HexDigit(n)
    ensures m == n
  {
    assert m as int == n as int;
  }

  function Hex(b: bv8): (s: string)
    ensures |s| == 2 && s[0] in DIGITS && s[1] in DIGITS
  {
    [HexDigit(b >> 4), HexDigit(b & 0x0f)]
  }

  lemma HexInjective(a: bv8, b: bv8)
    requires Hex(a) == Hex(b)
    ensures a == b
  {
    assert Hex(a)[0] == Hex(b)[0] && Hex(a)[1] == Hex(b)[1];
    HexDigitInjective(a >> 4, b >> 4);
    HexDigitInjective(a & 0x0f, b & 0x0f);
  }

  function HexAll(bytes: seq<bv8>): (s: string)
    ensures |s| == 2 * |bytes|
    ensures forall c <- s :: c in DIGITS
  {
    if bytes == [] then "" else Hex(bytes[0]) + HexAll(bytes[1..])
  }

  lemma {:induction false} HexAllInjective(a: seq<bv8>, b: seq<bv8>)
    requires HexAll(a) == HexAll(b)
    ensures a == b
  {
    if a != [] {
      assert |a| == |b|;
      assert HexAll(a)[..2] == Hex(a[0]) && HexAll(b)[..2] == Hex(b[0]);
      HexInjective(a[0], b[0]);
      assert HexAll(a)[2..] == HexAll(a[1..]) && HexAll(b)[2..] == HexAll(b[1..]);
      HexAllInjective(a[1..], b[1..]);
      assert a == [a[0]] + a[1..] && b == [b[0]] + b[1..];
    }
  }

  function Dashed(g: seq<string>): string
    requires |g| == 5
  {
    g[0] + "-" + g[1] + "-" + g[2] + "-" + g[3] + "-" + g[4]
  }

  lemma DashedGroups(g: seq<string>)
    requires |g| == 5 && |g[0]| == 8 && |g[1]| == |g[2]| == |g[3]| == 4 && |g[4]| == 12
    ensures var s := Dashed(g);
            && |s| == 36
            && s[..8] == g[0] && s[9..13] == g[1] && s[14..18] == g[2] && s[19..23] == g[3] && s[24..] == g[4]
            && s[8] == s[13] == s[18] == s[23] == '-'
  {}

  function HexGroups(b: seq<bv8>): (g: seq<string>)
    requires |b| == 16
    ensures |g| == 5 && |g[0]| == 8 && |g[1]| == |g[2]| == |g[3]| == 4 && |g[4]| == 12
  {
    [HexAll(b[0..4]), HexAll(b[4..6]), HexAll(b[6..8]), HexAll(b[8..10]), HexAll(b[10..16])]
  }

  /** The five dash-separated groups of UUID text. */
  function UuidText(b: seq<bv8>): string
    requires |b| == 16
  {
    Dashed(HexGroups(b))
  }

  /** An account id as the database returns it: 36 lower-case hex digits and dashes. */
  predicate IsAccountId(id: string) {
    |id| == 36 && forall i | 0 <= i < 36 :: if i in {8, 13, 18, 23} then id[i] == '-' else id[i] in DIGITS
  }

  /** A version 4, variant 1 UUID (section 5.4 of RFC 9562). */
  predicate IsUuidV4(id: string) {
    IsAccountId(id) && id[14] == '4' && id[19] in "89ab"
  }

  /** The random bits a UUID keeps: everything but the version and variant bits. */
  predicate SameRandomBits(a: seq<bv8>, b: seq<bv8>)
    requires |a| == |b| == 16
  {
    && (forall i | 0 <= i < 16 && i != 6 && i != 8 :: a[i] == b[i])
    && a[6] & 0x0f == b[6] & 0x0f
    && a[8] & 0x3f == b[8] & 0x3f
  }

  /** NewID: overwrites the version and variant bits of 16 random bytes in place, then prints them. */
  method NewId(random: Option<seq<bv8>>) returns (r: Option<string>)
    requires random.Some? ==> |random.value| == 16
    ensures r.None? <==> random.None?
    ensures r.Some? ==> IsUuidV4(r.value)
    ensures r.Some? ==> exists b: seq<bv8> ::
              |b| == 16 && r.value == UuidText(b) && SameRandomBits(b, random.value)
  {
    if random.None? {
      return None;
    }
    var b := new bv8[16](i requires 0 <= i < 16 => random.value[i]);
    b[6] := (b[6] & 0x0f) | 0x40;
    b[8] := (b[8] & 0x3f) | 0x80;
    assert b[..] == Versioned(random.value);
    VersionedIsV4(random.value);
    return Some(UuidText(b[..]));
  }

  function Versioned(b: seq<bv8>): (r: seq<bv8>)
    requires |b| == 16
    ensures |r| == 16
  {
    b[6 := (b[6] & 0x0f) | 0x40][8 := (b[8] & 0x3f) | 0x80]
  }

  lemma VersionedIsV4(b: seq<bv8>)
    requires |b| == 16
    ensures IsUuidV4(UuidText(Versioned(b)))
    ensures SameRandomBits(Versioned(b), b)
  {
    VersionBits(b[6]);
    VariantBits(b[8]);
    UuidTextShape(Versioned(b));
  }

  lemma VersionBits(x: bv8)
    ensures ((x & 0x0f) | 0x40) & 0x0f == x & 0x0f
    ensures ((x & 0x0f) | 0x40) >> 4 == 4
  {}

  lemma VariantBits(x: bv8)
    ensures ((x & 0x3f) | 0x80) & 0x3f == x & 0x3f
    ensures ((x & 0x3f) | 0x80) >> 4 in [8, 9, 10, 11]
  {}

  lemma UuidTextShape(b: seq<bv8>)
    requires |b| == 16
    ensures IsAccountId(UuidText(b))
    ensures UuidText(b)[14] == HexDigit(b[6] >> 4)
    ensures UuidText(b)[19] == HexDigit(b[8] >> 4)
  {
    var g, s := HexGroups(b), UuidText(b);
    DashedGroups(g);
    assert s[14] == g[2][0] == Hex(b[6])[0] && s[19] == g[3][0] == Hex(b[8])[0];
    forall i | 0 <= i < 36
      ensures if i in {8, 13, 18, 23} then s[i] == '-' else s[i] in DIGITS
    {
      if i < 8 { assert s[i] == g[0][i]; }
      else if 8 < i < 13 { assert s[i] == g[1][i - 9]; }
      else if 13 < i < 18 { assert s[i] == g[2][i - 14]; }
      else if 18 < i < 23 { assert s[i] == g[3][i - 19]; }
      else if 23 < i { assert s[i] == g[4][i - 24]; }
    }
  }

  /** The digit of a half-byte. */
  lemma HexDigitText(n: bv8)
    requires n < 16
    ensures HexDigit(n) as int == if n < 10 then 48 + n as int else 87 + n as int
  {
    var i := n as int;
    assert DIGITS[..10] == "0123456789" && DIGITS[10..] == "abcdef";
    if i < 10 {
      assert DIGITS[i] == DIGITS[..10][i];
    } else {
      assert DIGITS[i] == DIGITS[10..][i - 10];
    }
  }

  /** Each byte is two digits, the high half first. */
  lemma {:induction false} HexAllAt(bytes: seq<bv8>, k: nat)
    requires k < |bytes|
    ensures HexAll(bytes)[2 * k] == HexDigit(bytes[k] >> 4) && HexAll(bytes)[2 * k + 1] == HexDigit(bytes[k] & 0x0f)
  {
    var rest := HexAll(bytes[1..]);
    if k > 0 {
      HexAllAt(bytes[1..], k - 1);
      assert HexAll(bytes)[2 * k] == rest[2 * (k - 1)] && HexAll(bytes)[2 * k + 1] == rest[2 * (k - 1) + 1];
    }
  }

  /** The id is the bytes in order, in groups of 4, 2, 2, 2 and 6 between dashes. */
  lemma UuidTextGroups(b: seq<bv8>)
    requires |b| == 16
    ensures var s := UuidText(b);
            && |s| == 36 && s[8] == s[13] == s[18] == s[23] == '-'
            && s[..8] == HexAll(b[0..4]) && s[9..13] == HexAll(b[4..6]) && s[14..18] == HexAll(b[6..8])
            && s[19..23] == HexAll(b[8..10]) && s[24..] == HexAll(b[10..16])
  {
    DashedGroups(HexGroups(b));
  }

  /** Two ids are equal only if they print the same bytes: no random bit is lost in the text. */
  lemma UuidTextInjective(a: seq<bv8>, b: seq<bv8>)
    requires |a| == |b| == 16 && UuidText(a) == UuidText(b)
    ensures a == b
  {
    DashedGroups(HexGroups(a));
    DashedGroups(HexGroups(b));
    assert HexGroups(a) == HexGroups(b);
    HexAllInjective(a[0..4], b[0..4]);
    HexAllInjective(a[4..6], b[4..6]);
    HexAllInjective(a[6..8], b[6..8]);
    HexAllInjective(a[8..10], b[8..10]);
    HexAllInjective(a[10..16], b[10..16]);
    assert a == a[0..4] + a[4..6] + a[6..8] + a[8..10] + a[10..16];
    assert b == b[0..4] + b[4..6] + b[6..8] + b[8..10] + b[10..16];
  }

  const FIELD_IMAP_PASSWORD := "imap_password"
  const FIELD_SMTP_PASSWORD := "smtp_password"

  function EnvelopeAad(userId: string, accountId: string): Bytes {
    userId + ":" + accountId
  }

  function FieldAad(userId: string, accountId: string, field: string): Bytes {
    userId + ":" + accountId + ":" + field
  }

  /** What a ciphertext is bound to. */
  datatype Binding =
    | WrappedKeyOf(user: string, account: string)
    | ImapPasswordOf(user: string, account: string)
    | SmtpPasswordOf(user: string, account: string)

  function Aad(b: Binding): Bytes {
    match b
    case WrappedKeyOf(u, a) => EnvelopeAad(u, a)
    case ImapPasswordOf(u, a) => FieldAad(u, a, FIELD_IMAP_PASSWORD)
    case SmtpPasswordOf(u, a) => FieldAad(u, a, FIELD_SMTP_PASSWORD)
  }

  /** What follows the account id in the additional data. */
  function Suffix(b: Binding): string {
    match b
    case WrappedKeyOf(_, _) => ""
    case ImapPasswordOf(_, _) => ":" + FIELD_IMAP_PASSWORD
    case SmtpPasswordOf(_, _) => ":" + FIELD_SMTP_PASSWORD
  }

  lemma FieldAadParts(u: string, a: string, f: string)
    ensures FieldAad(u, a, f) == (u + ":") + (a + (":" + f))
  {
    assert u + ":" + a + ":" + f == (u + ":") + (a + (":" + f));
  }

  lemma AadParts(b: Binding)
    ensures Aad(b) == (b.user + ":") + (b.account + Suffix(b))
  {
    match b
    case WrappedKeyOf(u, a) =>
      assert a + Suffix(b) == a;
    case ImapPasswordOf(u, a) => FieldAadParts(u, a, FIELD_IMAP_PASSWORD);
    case SmtpPasswordOf(u, a) => FieldAadParts(u, a, FIELD_SMTP_PASSWORD);
  }

  lemma SuffixShape(b: Binding)
    ensures b.WrappedKeyOf? <==> Suffix(b) == ""
    ensures !b.WrappedKeyOf? ==>
              && |Suffix(b)| == 14
              && Suffix(b)[12] == 'r'
              && Suffix(b)[1] == if b.ImapPasswordOf? then 'i' else 's'
  {}

  lemma NotADigit()
    ensures 'r' !in DIGITS
  {}

  /** The last characters of an account id are never those of a field name. */
  lemma PurposeFromEnd(b: Binding, s: string)
    requires IsAccountId(b.account) && s == b.account + Suffix(b)
    ensures |s| == if b.WrappedKeyOf? then 36 else 50
    ensures s[|s| - 2] == 'r' <==> !b.WrappedKeyOf?
    ensures !b.WrappedKeyOf? ==> s[|s| - 13] == if b.ImapPasswordOf? then 'i' else 's'
  {
    SuffixShape(b);
    NotADigit();
    assert b.account[34] in DIGITS;
    if b.WrappedKeyOf? {
      assert s == b.account;
    } else {
      assert s[48] == Suffix(b)[12] && s[37] == Suffix(b)[1];
    }
  }

  lemma CommonTail(p: string, s: string, q: string, t: string)
    requires p + s == q + t && |s| == |t|
    ensures p == q && s == t
  {
    assert |p| == |q|;
    assert (p + s)[..|p|] == p && (q + t)[..|q|] == q;
    assert (p + s)[|p|..] == s && (q + t)[|q|..] == t;
  }

  lemma SamePurpose(x: Binding, y: Binding)
    requires IsAccountId(x.account) && IsAccountId(y.account) && Aad(x) == Aad(y)
    ensures x.WrappedKeyOf? == y.WrappedKeyOf? && x.ImapPasswordOf? == y.ImapPasswordOf?
  {
    AadParts(x);
    AadParts(y);
    var s, t := x.account + Suffix(x), y.account + Suffix(y);
    PurposeFromEnd(x, s);
    PurposeFromEnd(y, t);
    SameFromEnd(x.user + ":", s, y.user + ":", t, 2);
    if |s| == |t| == 50 {
      SameFromEnd(x.user + ":", s, y.user + ":", t, 13);
    }
  }

  lemma SameFromEnd(p: string, s: string, q: string, t: string, i: nat)
    requires p + s == q + t && 0 < i <= |s| && i <= |t|
    ensures s[|s| - i] == t[|t| - i]
  {
    assert (p + s)[|p + s| - i] == s[|s| - i] && (q + t)[|q + t| - i] == t[|t| - i];
  }

  /**
   * Whatever the user ids are, even with colons in them, two uses of the
   * additional data agree only when user, account and purpose all agree.
   */
  lemma AadInjective(x: Binding, y: Binding)
    requires IsAccountId(x.account) && IsAccountId(y.account)
    ensures Aad(x) == Aad(y) <==> x == y
  {
    if Aad(x) == Aad(y) {
      SamePurpose(x, y);
      AadParts(x);
      AadParts(y);
      assert Suffix(x) == Suffix(y);
      CommonTail(x.user + ":", x.account + Suffix(x), y.user + ":", y.account + Suffix(y));
      CommonTail(x.account, Suffix(x), y.account, Suffix(y));
      CommonTail(x.user, ":", y.user, ":");
    }
  }

  /** The fixed length of account ids is what makes this work: other ids collide. */
  lemma AadCollidesOnFreeFormIds()
    ensures Aad(WrappedKeyOf("a:b", "c")) == Aad(WrappedKeyOf("a", "b:c"))
  {
    assert "a:b" + ":" + "c" == "a" + ":" + "b:c";
  }
}
