/** The functions of Go's strings package that the mail code uses, and how they undo each other. */
module Strings {
  import opened Prelude

  /** strings.Index. */
  function Find(s: string, sep: string): (r: Option<nat>)
    requires sep != ""
    ensures r.Some? ==> r.value + |sep| <= |s| && s[r.value..r.value + |sep|] == sep
  {
    if |s| < |sep| then None
    else if s[..|sep|] == sep then Some(0)
    else
      match Find(s[1..], sep)
      case None => None
      case Some(i) =>
        assert s[1..][i..i + |sep|] == s[i + 1..i + 1 + |sep|];
        Some(i + 1)
  }

  /** strings.Contains. */
  predicate Contains(s: string, sub: string) {
    exists i | 0 <= i <= |s| :: OccursAt(s, sub, i)
  }

  predicate OccursAt(s: string, sub: string, i: nat) {
    i + |sub| <= |s| && s[i..i + |sub|] == sub
  }

  predicate HasPrefix(s: string, prefix: string) {
    prefix <= s
  }

  function Join(parts: seq<string>, sep: string): string {
    if parts == [] then ""
    else if |parts| == 1 then parts[0]
    else parts[0] + sep + Join(parts[1..], sep)
  }

  /** strings.Split. */
  function Split(s: string, sep: string): (r: seq<string>)
    requires sep != ""
    ensures r != []
    decreases |s|
  {
    match Find(s, sep)
    case None => [s]
    case Some(i) => [s[..i]] + Split(s[i + |sep|..], sep)
  }

  /** strings.ReplaceAll, for a non-empty old. */
  function ReplaceAll(s: string, old_: string, new_: string): string
    requires old_ != ""
  {
    if |s| < |old_| then s
    else if s[..|old_|] == old_ then new_ + ReplaceAll(s[|old_|..], old_, new_)
    else [s[0]] + ReplaceAll(s[1..], old_, new_)
  }

  /** strings.TrimRight with a one-character cutset. */
  function TrimRight(s: string, c: char): (r: string)
    ensures r <= s
    ensures r == "" || r[|r| - 1] != c
    ensures forall i | |r| <= i < |s| :: s[i] == c
  {
    if s == "" || s[|s| - 1] != c then s else TrimRight(s[..|s| - 1], c)
  }

  predicate IsSpace(c: char) {
    c in " \t\n\r" || c == 11 as char || c == 12 as char
  }

  function TrimLeftSpace(s: string): string {
    if s != "" && IsSpace(s[0]) then TrimLeftSpace(s[1..]) else s
  }

  function TrimRightSpace(s: string): string {
    if s != "" && IsSpace(s[|s| - 1]) then TrimRightSpace(s[..|s| - 1]) else s
  }

  /** strings.TrimSpace on ASCII text. */
  function TrimSpace(s: string): string {
    TrimRightSpace(TrimLeftSpace(s))
  }

  /** strings.ToLower on ASCII text. */
  function ToLower(s: string): (r: string)
    ensures |r| == |s|
  {
    seq(|s|, i requires 0 <= i < |s| => if 'A' <= s[i] <= 'Z' then s[i] + ('a' - 'A') else s[i])
  }

  /** White space of ASCII: HT, LF, VT, FF, CR and space. */
  predicate AllBlank(s: string) {
    forall i | 0 <= i < |s| :: s[i] == 32 as char || 9 as char <= s[i] <= 13 as char
  }

  /** The same text, but letters of word may be capital. */
  predicate SameButCase(word: string, name: string) {
    && |word| == |name|
    && forall i | 0 <= i < |word| ::
         word[i] == name[i] || ('A' <= word[i] <= 'Z' && word[i] as int + 32 == name[i] as int)
  }

  /** Without the white space around it and but for case, the text is that name. */
  predicate Names(s: string, name: string) {
    exists i, j | 0 <= i <= j <= |s| :: NamedBetween(s, name, i, j)
  }

  predicate NamedBetween(s: string, name: string, i: nat, j: nat)
    requires i <= j <= |s|
  {
    AllBlank(s[..i]) && SameButCase(s[i..j], name) && AllBlank(s[j..])
  }

  /** A name in small letters. */
  predicate IsLowerName(name: string) {
    && name != "" && !IsSpace(name[0]) && !IsSpace(name[|name| - 1])
    && forall i | 0 <= i < |name| :: !('A' <= name[i] <= 'Z')
  }

  lemma LowerExactly(word: string, name: string)
    requires IsLowerName(name)
    ensures ToLower(word) == name <==> SameButCase(word, name)
  {
    if ToLower(word) == name {
      forall i | 0 <= i < |word|
        ensures word[i] == name[i] || ('A' <= word[i] <= 'Z' && word[i] as int + 32 == name[i] as int)
      {
        assert ToLower(word)[i] == name[i];
      }
    }
  }

  lemma {:induction false} TrimLeftParts(s: string) returns (i: nat)
    ensures i <= |s| && AllBlank(s[..i]) && s[i..] == TrimLeftSpace(s)
    ensures i < |s| ==> !IsSpace(s[i])
  {
    if s != "" && IsSpace(s[0]) {
      var k := TrimLeftParts(s[1..]);
      i := k + 1;
      assert s[..i] == [s[0]] + s[1..][..k] && s[i..] == s[1..][k..];
    } else {
      i := 0;
    }
  }

  lemma {:induction false} TrimRightParts(s: string) returns (j: nat)
    ensures j <= |s| && AllBlank(s[j..]) && s[..j] == TrimRightSpace(s)
    ensures j > 0 ==> !IsSpace(s[j - 1])
  {
    if s != "" && IsSpace(s[|s| - 1]) {
      j := TrimRightParts(s[..|s| - 1]);
      assert s[j..] == s[..|s| - 1][j..] + [s[|s| - 1]];
      assert s[..|s| - 1][..j] == s[..j];
    } else {
      j := |s|;
    }
  }

  lemma {:induction false} TrimLeftOf(blank: string, s: string)
    requires AllBlank(blank) && (s == "" || !IsSpace(s[0]))
    ensures TrimLeftSpace(blank + s) == s
  {
    if blank == "" {
      assert blank + s == s;
    } else {
      assert (blank + s)[1..] == blank[1..] + s;
      TrimLeftOf(blank[1..], s);
    }
  }

  lemma {:induction false} TrimRightOf(s: string, blank: string)
    requires AllBlank(blank) && (s == "" || !IsSpace(s[|s| - 1]))
    ensures TrimRightSpace(s + blank) == s
  {
    if blank == "" {
      assert s + blank == s;
    } else {
      var n := |blank| - 1;
      assert (s + blank)[..|s + blank| - 1] == s + blank[..n];
      TrimRightOf(s, blank[..n]);
    }
  }

  lemma TrimSpaceParts(s: string) returns (i: nat, j: nat)
    ensures i <= j <= |s| && AllBlank(s[..i]) && AllBlank(s[j..]) && s[i..j] == TrimSpace(s)
  {
    i := TrimLeftParts(s);
    var n := TrimRightParts(s[i..]);
    j := i + n;
    assert s[i..][..n] == s[i..j] && s[i..][n..] == s[j..];
  }

  lemma TrimSpaceOf(before: string, word: string, after: string)
    requires AllBlank(before) && AllBlank(after)
    requires word != "" && !IsSpace(word[0]) && !IsSpace(word[|word| - 1])
    ensures TrimSpace(before + (word + after)) == word
  {
    assert (word + after)[0] == word[0];
    TrimLeftOf(before, word + after);
    TrimRightOf(word, after);
  }

  lemma NamedWord(word: string, name: string)
    requires IsLowerName(name) && SameButCase(word, name)
    ensures word != "" && !IsSpace(word[0]) && !IsSpace(word[|word| - 1])
  {}

  /** What trimming and lower-casing a header value compares. */
  lemma NamesExactly(s: string, name: string)
    requires IsLowerName(name)
    ensures ToLower(TrimSpace(s)) == name <==> Names(s, name)
  {
    if ToLower(TrimSpace(s)) == name {
      var i, j := TrimSpaceParts(s);
      LowerExactly(s[i..j], name);
      assert NamedBetween(s, name, i, j);
    }
    if i, j :| 0 <= i <= j <= |s| && NamedBetween(s, name, i, j) {
      NamedWord(s[i..j], name);
      TrimSpaceOf(s[..i], s[i..j], s[j..]);
      assert s == s[..i] + (s[i..j] + s[j..]);
      LowerExactly(s[i..j], name);
    }
  }

  lemma {:induction false} FindFirst(a: string, sep: string, rest: string)
    requires sep != "" && sep[0] !in a
    ensures Find(a + sep + rest, sep) == Some(|a|)
  {
    var s := a + sep + rest;
    if a == "" {
      assert s[..|sep|] == sep;
    } else {
      assert s[0] == a[0] && s[..|sep|][0] != sep[0];
      assert s[1..] == a[1..] + sep + rest;
      FindFirst(a[1..], sep, rest);
    }
  }

  lemma {:induction false} FindNone(a: string, sep: string)
    requires sep != "" && sep[0] !in a
    ensures Find(a, sep) == None
  {
    if |a| >= |sep| {
      assert a[..|sep|][0] == a[0] != sep[0];
      FindNone(a[1..], sep);
    }
  }

  /** Splitting undoes joining when no part holds the separator's first character. */
  lemma {:induction false} SplitJoin(parts: seq<string>, sep: string)
    requires sep != "" && parts != []
    requires forall part | part in parts :: sep[0] !in part
    ensures Split(Join(parts, sep), sep) == parts
  {
    if |parts| == 1 {
      FindNone(parts[0], sep);
    } else {
      var rest := Join(parts[1..], sep);
      FindFirst(parts[0], sep, rest);
      assert (parts[0] + sep + rest)[..|parts[0]|] == parts[0];
      assert (parts[0] + sep + rest)[|parts[0]| + |sep|..] == rest;
      SplitJoin(parts[1..], sep);
    }
  }

  lemma {:induction false} JoinAppend(parts: seq<string>, last: string, sep: string)
    requires parts != []
    ensures Join(parts + [last], sep) == Join(parts, sep) + sep + last
  {
    if |parts| > 1 {
      assert (parts + [last])[1..] == parts[1..] + [last];
      JoinAppend(parts[1..], last, sep);
      assert parts[0] + sep + (Join(parts[1..], sep) + sep + last) == (parts[0] + sep + Join(parts[1..], sep)) + sep + last;
    }
  }

  lemma TrimNothing(s: string)
    requires s == "" || (!IsSpace(s[0]) && !IsSpace(s[|s| - 1]))
    ensures TrimSpace(s) == s
  {}

  lemma TrimOneSpace(s: string)
    requires s == "" || (!IsSpace(s[0]) && !IsSpace(s[|s| - 1]))
    ensures TrimSpace(" " + s) == s
  {
    assert (" " + s)[1..] == s;
    assert TrimLeftSpace(" " + s) == TrimLeftSpace(s) == s;
    TrimNothing(s);
  }
}
