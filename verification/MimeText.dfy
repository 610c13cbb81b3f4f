/**
 * Choosing the text to show from a MIME tree. The parsing libraries are
 * foreign: an entity holds what they make of its header and body.
 */
module MimeText {
  import opened Prelude
  import opened Strings

  const BODY_LIMIT := 0x20_0000

  datatype Error = BadMediaType | MissingBoundary | BadMultipart | BadEncoding

  /** The media type in lower case and its boundary parameter ("" if absent). */
  datatype ContentType = ContentType(mediaType: string, boundary: string)

  datatype Disposition = NoDisposition | UnreadableDisposition | Disposition(mediaType: string)

  /** What a decoder yields before it ends or fails. */
  datatype Stream = Stream(bytes: Bytes, fails: bool)

  datatype Entity = Entity(
    contentType: Result<ContentType, Error>,
    disposition: Disposition,
    transferEncoding: string,
    raw: Stream, base64: Stream, quotedPrintable: Stream,
    // What reading the body as multipart yields: parts, then an end or a failure.
    parts: seq<Entity>, broken: bool)

  type Extraction = Result<Option<Bytes>, Error>

  predicate IsMultipart(mediaType: string) {
    HasPrefix(mediaType, "multipart/")
  }

  function MediaType(e: Entity): string {
    match e.contentType
    case Success(t) => t.mediaType
    case Failure(_) => ""
  }

  predicate IsAttachment(d: Disposition) {
    d.Disposition? && ToLower(d.mediaType) == "attachment"
  }

  /** Text parts that are shown. */
  predicate IsInlineText(e: Entity) {
    MediaType(e) in {"text/plain", "text/html"} && !IsAttachment(e.disposition)
  }

  /** io.ReadAll over a limited reader: an error past the limit is never seen. */
  function ReadLimited(s: Stream): Result<Bytes, Error> {
    if |s.bytes| >= BODY_LIMIT then Success(s.bytes[..BODY_LIMIT])
    else if s.fails then Failure(BadEncoding)
    else Success(s.bytes)
  }

  /** decodeTransferEncoding. */
  function Decode(e: Entity): Result<Bytes, Error> {
    var encoding := ToLower(TrimSpace(e.transferEncoding));
    ReadLimited(if encoding == "base64" then e.base64
                else if encoding == "quoted-printable" then e.quotedPrintable
                else e.raw)
  }

  /** What extractEntityText returns. */
  function Extract(e: Entity): Extraction
    decreases e, 1
  {
    match e.contentType
    case Failure(error) => Failure(error)
    case Success(t) =>
      if IsMultipart(t.mediaType) then
        if t.boundary == "" then Failure(MissingBoundary) else ExtractParts(e, 0, "")
      else if !IsInlineText(e) then Success(None)
      else
        var text :- Decode(e);
        Success(Some(text))
  }

  /** From part i on, with the first non-empty text seen so far. */
  function ExtractParts(e: Entity, i: nat, candidate: Bytes): Extraction
    requires i <= |e.parts|
    decreases e, 0, |e.parts| - i
  {
    if i == |e.parts| then
      if e.broken then Failure(BadMultipart)
      else if candidate != "" then Success(Some(candidate))
      else Success(None)
    else
      var part := e.parts[i];
      var text :- Extract(part);
      if text.None? then ExtractParts(e, i + 1, candidate)
      else if MediaType(part) == "text/plain" then Success(text)
      else ExtractParts(e, i + 1, if candidate == "" then text.value else candidate)
  }

  /** extractEntityText: a recursive search with early exits. */
  method ExtractEntityText(e: Entity) returns (r: Extraction)
    ensures r == Extract(e)
    decreases e
  {
    if e.contentType.Failure? {
      return Failure(e.contentType.error);
    }
    var mediaType := e.contentType.value.mediaType;
    if IsMultipart(mediaType) {
      if e.contentType.value.boundary == "" {
        return Failure(MissingBoundary);
      }
      var htmlCandidate := "";
      var i := 0;
      while i < |e.parts|
        invariant i <= |e.parts|
        invariant Extract(e) == ExtractParts(e, i, htmlCandidate)
      {
        var part := e.parts[i];
        var text := ExtractEntityText(part);
        if text.Failure? {
          return text;
        }
        if text.value.Some? {
          if MediaType(part) == "text/plain" {
            return text;
          }
          if htmlCandidate == "" {
            htmlCandidate := text.value.value;
          }
        }
        i := i + 1;
      }
      if e.broken {
        return Failure(BadMultipart);
      }
      return Success(if htmlCandidate != "" then Some(htmlCandidate) else None);
    }
    if mediaType != "text/plain" && mediaType != "text/html" {
      return Success(None);
    }
    if IsAttachment(e.disposition) {
      return Success(None);
    }
    var decoded := Decode(e);
    if decoded.Failure? {
      return Failure(decoded.error);
    }
    return Success(Some(decoded.value));
  }

  // ----- One leaf, by its header -----

  /** What reading a decoder to its end or to 2 MiB gives. */
  ghost predicate ReadFrom(s: Stream, r: Result<Bytes, Error>) {
    var limit := 2 * 1024 * 1024;
    if |s.bytes| >= limit then r == Success(s.bytes[..limit])
    else if s.fails then r.Failure?
    else r == Success(s.bytes)
  }

  /** The decoder is the one that the transfer encoding names, up to case and white space around it. */
  ghost predicate ReadByHeader(e: Entity, r: Result<Bytes, Error>) {
    var encoding := e.transferEncoding;
    && (Names(encoding, "base64") ==> ReadFrom(e.base64, r))
    && (Names(encoding, "quoted-printable") ==> ReadFrom(e.quotedPrintable, r))
    && (!Names(encoding, "base64") && !Names(encoding, "quoted-printable") ==> ReadFrom(e.raw, r))
  }

  lemma DecodesByHeader(e: Entity)
    ensures ReadByHeader(e, Decode(e))
  {
    NamesExactly(e.transferEncoding, "base64");
    NamesExactly(e.transferEncoding, "quoted-printable");
  }

  ghost predicate SaysAttachment(e: Entity) {
    e.disposition.Disposition? && SameButCase(e.disposition.mediaType, "attachment")
  }

  /** The text a leaf shows is read by its header, and the leaf is inline plain text or HTML. */
  ghost predicate IsTextOf(leaf: Entity, text: Bytes) {
    && leaf.contentType.Success?
    && (leaf.contentType.value.mediaType == "text/plain" || leaf.contentType.value.mediaType == "text/html")
    && !SaysAttachment(leaf)
    && ReadByHeader(leaf, Success(text))
  }

  ghost predicate ReadsAs(e: Entity, r: Extraction) {
    match r
    case Failure(error) => ReadByHeader(e, Failure(error))
    case Success(text) => text.Some? && IsTextOf(e, text.value)
  }

  /** Everything the extraction does with an entity that is no multipart. */
  lemma LeafExactly(e: Entity)
    ensures e.contentType.Failure? ==> Extract(e).Failure?
    ensures e.contentType.Success? ==>
              var mediaType := e.contentType.value.mediaType;
              if "multipart/" <= mediaType then e.contentType.value.boundary == "" ==> Extract(e).Failure?
              else if (mediaType != "text/plain" && mediaType != "text/html") || SaysAttachment(e) then Extract(e) == Success(None)
              else ReadsAs(e, Extract(e))
  {
    DecodesByHeader(e);
    NotBoth(e);
    if e.disposition.Disposition? {
      LowerExactly(e.disposition.mediaType, "attachment");
    }
  }

  // ----- The choice, declaratively -----

  /** A part that ends the search: an error, or inline plain text. */
  predicate Decides(part: Entity) {
    match Extract(part)
    case Failure(_) => true
    case Success(text) => text.Some? && MediaType(part) == "text/plain"
  }

  /** A part that can stand in when no part decides. */
  predicate Fallback(part: Entity) {
    Extract(part).Success? && Extract(part).value.Some? && Extract(part).value.value != ""
  }

  ghost predicate FirstThat(parts: seq<Entity>, p: Entity -> bool, k: nat) {
    k < |parts| && p(parts[k]) && forall j | 0 <= j < k :: !p(parts[j])
  }

  ghost predicate NoneThat(parts: seq<Entity>, p: Entity -> bool) {
    forall j | 0 <= j < |parts| :: !p(parts[j])
  }

  /** The first deciding part decides; else a broken end; else the first fallback; else nothing. */
  ghost predicate IsChoice(parts: seq<Entity>, broken: bool, r: Extraction) {
    || (exists k: nat :: FirstThat(parts, Decides, k) && r == Extract(parts[k]))
    || (&& NoneThat(parts, Decides)
        && if broken then r == Failure(BadMultipart)
           else || (exists k: nat :: FirstThat(parts, Fallback, k) && r == Extract(parts[k]))
                || (NoneThat(parts, Fallback) && r == Success(None)))
  }

  /** The search result of a multipart entity is exactly the declared choice. */
  lemma ExtractIsTheChoice(e: Entity, r: Extraction)
    requires e.contentType.Success? && IsMultipart(MediaType(e)) && e.contentType.value.boundary != ""
    ensures r == Extract(e) <==> IsChoice(e.parts, e.broken, r)
  {
    SearchFrom(e, 0, "");
    if IsChoice(e.parts, e.broken, r) {
      ChoiceIsUnique(e.parts, e.broken, r, Extract(e));
    }
  }

  lemma FirstIsUnique(parts: seq<Entity>, p: Entity -> bool, j: nat, k: nat)
    requires FirstThat(parts, p, j) && FirstThat(parts, p, k)
    ensures j == k
  {}

  lemma ChoiceIsUnique(parts: seq<Entity>, broken: bool, r: Extraction, s: Extraction)
    requires IsChoice(parts, broken, r) && IsChoice(parts, broken, s)
    ensures r == s
  {
    if NoneThat(parts, Decides) {
      if !broken && !NoneThat(parts, Fallback) {
        var j: nat :| FirstThat(parts, Fallback, j) && r == Extract(parts[j]);
        var k: nat :| FirstThat(parts, Fallback, k) && s == Extract(parts[k]);
        FirstIsUnique(parts, Fallback, j, k);
      }
    } else {
      var j: nat :| FirstThat(parts, Decides, j) && r == Extract(parts[j]);
      var k: nat :| FirstThat(parts, Decides, k) && s == Extract(parts[k]);
      FirstIsUnique(parts, Decides, j, k);
    }
  }

  ghost predicate SeenSoFar(e: Entity, i: nat, candidate: Bytes)
    requires i <= |e.parts|
  {
    && NoneThat(e.parts[..i], Decides)
    && if candidate == "" then NoneThat(e.parts[..i], Fallback)
       else exists k: nat :: FirstThat(e.parts[..i], Fallback, k) && Extract(e.parts[k]) == Success(Some(candidate))
  }

  lemma {:induction false} SearchFrom(e: Entity, i: nat, candidate: Bytes)
    requires i <= |e.parts| && SeenSoFar(e, i, candidate)
    ensures IsChoice(e.parts, e.broken, ExtractParts(e, i, candidate))
    decreases |e.parts| - i
  {
    if i == |e.parts| {
      assert e.parts[..i] == e.parts;
    } else if Decides(e.parts[i]) {
      FirstAfterNone(e.parts, Decides, i);
    } else {
      var text := Extract(e.parts[i]).value;
      var next := if text.Some? && candidate == "" then text.value else candidate;
      StillSeen(e, i, candidate, next);
      SearchFrom(e, i + 1, next);
    }
  }

  lemma FirstAfterNone(parts: seq<Entity>, p: Entity -> bool, i: nat)
    requires i < |parts| && NoneThat(parts[..i], p) && p(parts[i])
    ensures FirstThat(parts, p, i)
  {
    forall j | 0 <= j < i
      ensures !p(parts[j])
    {
      assert parts[..i][j] == parts[j];
    }
  }

  lemma StillSeen(e: Entity, i: nat, candidate: Bytes, next: Bytes)
    requires i < |e.parts| && SeenSoFar(e, i, candidate) && !Decides(e.parts[i])
    requires var text := Extract(e.parts[i]).value;
             next == if text.Some? && candidate == "" then text.value else candidate
    ensures SeenSoFar(e, i + 1, next)
  {
    var before, after := e.parts[..i], e.parts[..i + 1];
    assert after == before + [e.parts[i]];
    if candidate != "" {
      var k: nat :| FirstThat(before, Fallback, k) && Extract(e.parts[k]) == Success(Some(candidate));
      assert FirstThat(after, Fallback, k);
    } else if next != "" {
      assert FirstThat(after, Fallback, i);
    }
  }

  // ----- Where the text comes from -----

  /** The inline text leaves, in order. */
  function Leaves(e: Entity): seq<Entity>
    decreases e, 1
  {
    if IsMultipart(MediaType(e)) then LeavesFrom(e, 0)
    else if IsInlineText(e) then [e]
    else []
  }

  function LeavesFrom(e: Entity, i: nat): seq<Entity>
    requires i <= |e.parts|
    decreases e, 0, |e.parts| - i
  {
    if i == |e.parts| then [] else Leaves(e.parts[i]) + LeavesFrom(e, i + 1)
  }

  lemma {:induction false} LeafOfSomePart(e: Entity, i: nat, leaf: Entity) returns (k: nat)
    requires i <= |e.parts| && leaf in LeavesFrom(e, i)
    ensures i <= k < |e.parts| && leaf in Leaves(e.parts[k])
    decreases |e.parts| - i
  {
    if leaf in Leaves(e.parts[i]) {
      k := i;
    } else {
      k := LeafOfSomePart(e, i + 1, leaf);
    }
  }

  lemma {:induction false} PartsLeafIsLeaf(e: Entity, i: nat, k: nat, leaf: Entity)
    requires i <= k < |e.parts| && leaf in Leaves(e.parts[k])
    ensures leaf in LeavesFrom(e, i)
    decreases k - i
  {
    if i < k {
      PartsLeafIsLeaf(e, i + 1, k, leaf);
    }
  }

  lemma NotBoth(e: Entity)
    ensures IsInlineText(e) ==> !IsMultipart(MediaType(e))
  {
    assert "text/plain"[0] == 't' && "multipart/"[0] == 'm';
  }

  /** Any text shown is what some inline text leaf's own decoder gives, cut at 2 MiB. */
  lemma {:induction false} TextIsALeafsDecoding(e: Entity)
    ensures Extract(e).Success? && Extract(e).value.Some? ==>
              var text := Extract(e).value.value;
              && |text| <= 2 * 1024 * 1024
              && exists leaf :: leaf in Leaves(e) && Decode(leaf) == Success(text) && IsTextOf(leaf, text)
    decreases e
  {
    NotBoth(e);
    if IsMultipart(MediaType(e)) && Extract(e).Success? && Extract(e).value.Some? {
      ExtractIsTheChoice(e, Extract(e));
      var k: nat :| k < |e.parts| && Extract(e) == Extract(e.parts[k]);
      TextIsALeafsDecoding(e.parts[k]);
      var leaf :| leaf in Leaves(e.parts[k]) && Decode(leaf) == Success(Extract(e).value.value) && IsTextOf(leaf, Extract(e).value.value);
      PartsLeafIsLeaf(e, 0, k, leaf);
    } else {
      LeafExactly(e);
    }
  }

  /** No part of the tree is malformed and every inline text leaf can be decoded. */
  ghost predicate Readable(e: Entity)
    decreases e
  {
    && e.contentType.Success?
    && (IsMultipart(MediaType(e)) ==>
        && e.contentType.value.boundary != ""
        && !e.broken
        && forall part | part in e.parts :: Readable(part))
    && (IsInlineText(e) ==> Decode(e).Success?)
  }

  predicate IsInlinePlain(e: Entity) {
    IsInlineText(e) && MediaType(e) == "text/plain"
  }

  /** What the tree shows is not empty: the first inline plain part decides, else some part shows something. */
  ghost predicate ShowsText(e: Entity)
    decreases e, 0
  {
    if IsMultipart(MediaType(e)) then
      if exists part | part in e.parts :: IsInlinePlain(part)
      then exists k: nat :: FirstThat(e.parts, IsInlinePlain, k) && Decode(e.parts[k]) != Success("")
      else exists part | part in e.parts :: ShowsText(part)
    else IsInlineText(e) && Decode(e) != Success("")
  }

  /** Some text is chosen, if only an empty one. */
  ghost predicate Finds(e: Entity) {
    if IsMultipart(MediaType(e)) then exists part | part in e.parts :: IsInlinePlain(part) || ShowsText(part)
    else IsInlineText(e)
  }

  lemma LeafExtract(e: Entity)
    requires Readable(e) && !IsMultipart(MediaType(e))
    ensures Extract(e) == if IsInlineText(e) then Success(Some(Decode(e).value)) else Success(None)
  {}

  /** The structural predicates say of a part what the search looks at. */
  ghost predicate Agrees(part: Entity) {
    && Extract(part).Success?
    && (Decides(part) <==> IsInlinePlain(part))
    && (Fallback(part) <==> ShowsText(part))
    && (IsInlinePlain(part) ==> Decode(part).Success? && Extract(part) == Success(Some(Decode(part).value)))
  }

  lemma {:induction false} SomeFirst(parts: seq<Entity>, p: Entity -> bool) returns (k: nat)
    requires exists part | part in parts :: p(part)
    ensures FirstThat(parts, p, k)
  {
    if p(parts[0]) {
      k := 0;
    } else {
      var part :| part in parts && p(part);
      assert part in parts[1..] by {
        assert parts == [parts[0]] + parts[1..];
      }
      var j := SomeFirst(parts[1..], p);
      k := j + 1;
      forall i | 0 <= i < k
        ensures !p(parts[i])
      {
        if i > 0 { assert !p(parts[1..][i - 1]); }
      }
    }
  }

  ghost predicate SaysWhatItFinds(e: Entity, r: Extraction) {
    && r.Success?
    && (r.value.Some? <==> Finds(e))
    && (r.value.Some? && r.value.value != "" <==> ShowsText(e))
  }

  lemma DecidedChoice(e: Entity, k: nat)
    requires IsMultipart(MediaType(e)) && forall part | part in e.parts :: Agrees(part)
    requires FirstThat(e.parts, Decides, k)
    ensures SaysWhatItFinds(e, Extract(e.parts[k]))
  {
    var parts := e.parts;
    assert parts[k] in parts && Agrees(parts[k]);
    forall j | 0 <= j < k
      ensures !IsInlinePlain(parts[j])
    {
      assert parts[j] in parts && Agrees(parts[j]);
    }
    assert FirstThat(parts, IsInlinePlain, k);
    if j: nat :| FirstThat(parts, IsInlinePlain, j) && Decode(parts[j]) != Success("") {
      FirstIsUnique(parts, IsInlinePlain, j, k);
    }
  }

  lemma UndecidedChoice(e: Entity, r: Extraction)
    requires IsMultipart(MediaType(e)) && forall part | part in e.parts :: Agrees(part)
    requires NoneThat(e.parts, Decides) && IsChoice(e.parts, false, r)
    ensures SaysWhatItFinds(e, r)
  {
    var parts := e.parts;
    forall part | part in parts
      ensures !IsInlinePlain(part)
    {
      assert Agrees(part);
    }
    if part :| part in parts && ShowsText(part) {
      assert Agrees(part) && Fallback(part);
    }
    if k: nat :| FirstThat(parts, Fallback, k) && r == Extract(parts[k]) {
      assert parts[k] in parts && Agrees(parts[k]);
    }
  }

  /**
   * On every readable tree, text is found if and only if the structure of the
   * tree says so, and likewise for text that is not empty.
   */
  lemma {:induction false} FindsTextExactly(e: Entity)
    requires Readable(e)
    ensures Extract(e).Success?
    ensures Extract(e).value.Some? <==> Finds(e)
    ensures Extract(e).value.Some? && Extract(e).value.value != "" <==> ShowsText(e)
    decreases e
  {
    if !IsMultipart(MediaType(e)) {
      LeafExtract(e);
    } else {
      forall part | part in e.parts
        ensures Agrees(part)
      {
        FindsTextExactly(part);
        NotBoth(part);
        if !IsMultipart(MediaType(part)) {
          LeafExtract(part);
        } else {
          PlainIsNoMultipart();
        }
      }
      ExtractIsTheChoice(e, Extract(e));
      if k: nat :| FirstThat(e.parts, Decides, k) && Extract(e) == Extract(e.parts[k]) {
        DecidedChoice(e, k);
      } else {
        UndecidedChoice(e, Extract(e));
      }
    }
  }

  lemma PlainIsNoMultipart()
    ensures !IsMultipart("text/plain")
  {
    assert "text/plain"[0] == 't' && "multipart/"[0] == 'm';
  }

  /** Readable, and no inline text leaf is empty. */
  ghost predicate Clean(e: Entity) {
    Readable(e) && forall leaf | leaf in Leaves(e) :: Decode(leaf) != Success("")
  }

  lemma CleanParts(e: Entity, part: Entity)
    requires Clean(e) && IsMultipart(MediaType(e)) && part in e.parts
    ensures Clean(part)
  {
    var k :| 0 <= k < |e.parts| && e.parts[k] == part;
    forall leaf | leaf in Leaves(part)
      ensures Decode(leaf) != Success("")
    {
      PartsLeafIsLeaf(e, 0, k, leaf);
    }
  }

  lemma {:induction false} CleanLeavesShow(e: Entity)
    requires Clean(e) && Leaves(e) != []
    ensures ShowsText(e)
    decreases e
  {
    if IsMultipart(MediaType(e)) {
      if exists part | part in e.parts :: IsInlinePlain(part) {
        var k := SomeFirst(e.parts, IsInlinePlain);
        CleanParts(e, e.parts[k]);
        NotBoth(e.parts[k]);
        assert Leaves(e.parts[k]) == [e.parts[k]];
      } else {
        var k := LeafOfSomePart(e, 0, Leaves(e)[0]);
        CleanParts(e, e.parts[k]);
        CleanLeavesShow(e.parts[k]);
      }
    } else {
      assert e in Leaves(e);
    }
  }

  /** So on clean trees, text is found exactly when there is an inline text leaf anywhere, and it is not empty. */
  lemma FindsTextIffThereIsSome(e: Entity)
    requires Clean(e)
    ensures Extract(e).Success?
    ensures Extract(e).value.Some? <==> Leaves(e) != []
    ensures Extract(e).value.Some? ==> Extract(e).value.value != ""
  {
    FindsTextExactly(e);
    TextIsALeafsDecoding(e);
    if Leaves(e) != [] {
      CleanLeavesShow(e);
    }
  }

  /** Inline text is overlooked exactly when the tree has some but finds none. */
  lemma LeavesAreMissedExactly(e: Entity)
    requires Readable(e)
    ensures Extract(e) == Success(None) && Leaves(e) != [] <==> Leaves(e) != [] && !Finds(e)
    ensures Finds(e) ==> Leaves(e) != []
    ensures Leaves(e) != [] && !Finds(e) ==> !Clean(e)
  {
    FindsTextExactly(e);
    TextIsALeafsDecoding(e);
    if Clean(e) {
      FindsTextIffThereIsSome(e);
    }
  }

  /** Text parts must not be empty for that: a nested multipart hides empty text. */
  lemma EmptyNestedTextIsDropped()
    ensures exists e :: Extract(e) == Success(None) && |Leaves(e)| == 1 && Decode(Leaves(e)[0]) == Success("")
  {
    var none := Stream("", false);
    var leaf := Entity(Success(ContentType("text/plain", "")), NoDisposition, "", none, none, none, [], false);
    var inner := Entity(Success(ContentType("multipart/alternative", "b")), NoDisposition, "", none, none, none, [leaf], false);
    var outer := Entity(Success(ContentType("multipart/mixed", "a")), NoDisposition, "", none, none, none, [inner], false);
    assert IsMultipart("multipart/alternative") && IsMultipart("multipart/mixed") && !IsMultipart("text/plain") by {
      assert "multipart/alternative"[..10] == "multipart/" && "multipart/mixed"[..10] == "multipart/";
      assert "text/plain"[0] != "multipart/"[0];
    }
    assert Decode(leaf) == Success("") by {
      assert TrimSpace("") == "";
      assert ToLower("") == "";
    }
    assert Extract(leaf) == Success(Some(""));
    assert inner.parts[0] == leaf && outer.parts[0] == inner;
    assert ExtractParts(inner, 0, "") == Success(Some(""));
    assert Extract(inner) == Success(Some(""));
    assert ExtractParts(outer, 1, "") == Success(None);
    assert ExtractParts(outer, 0, "") == ExtractParts(outer, 1, "");
    assert Leaves(leaf) == [leaf];
    assert LeavesFrom(inner, 1) == [] && LeavesFrom(outer, 1) == [];
    assert Leaves(inner) == [leaf] && Leaves(outer) == [leaf];
    assert Extract(outer) == Success(None);
  }

  /** Whatever follows the chosen plain text, even a malformed part, changes nothing. */
  lemma RestAfterPlainTextIsIrrelevant(e: Entity, k: nat, rest: seq<Entity>, broken: bool)
    requires e.contentType.Success? && IsMultipart(MediaType(e)) && e.contentType.value.boundary != ""
    requires FirstThat(e.parts, Decides, k)
    ensures Extract(e.(parts := e.parts[..k + 1] + rest, broken := broken)) == Extract(e) == Extract(e.parts[k])
  {
    var e' := e.(parts := e.parts[..k + 1] + rest, broken := broken);
    assert FirstThat(e'.parts, Decides, k);
    assert e'.parts[k] == e.parts[k];
    ExtractIsTheChoice(e, Extract(e.parts[k]));
    ExtractIsTheChoice(e', Extract(e'.parts[k]));
  }

  /** Plain text is preferred to every other alternative, before or after it, if no earlier part is malformed. */
  lemma PlainTextIsPreferred(e: Entity, k: nat)
    requires e.contentType.Success? && IsMultipart(MediaType(e)) && e.contentType.value.boundary != ""
    requires k < |e.parts| && MediaType(e.parts[k]) == "text/plain" && IsInlineText(e.parts[k]) && Decode(e.parts[k]).Success?
    requires forall j | 0 <= j < k :: Extract(e.parts[j]).Success? && MediaType(e.parts[j]) != "text/plain"
    ensures Extract(e) == Success(Some(Decode(e.parts[k]).value))
  {
    NotBoth(e.parts[k]);
    assert Extract(e.parts[k]) == Success(Some(Decode(e.parts[k]).value));
    assert FirstThat(e.parts, Decides, k);
    ExtractIsTheChoice(e, Extract(e.parts[k]));
  }

  const NO_TEXT: Bytes := "(no text body)"

  /** extractTextBody. */
  function TextBody(e: Entity): Result<Bytes, Error> {
    match Extract(e)
    case Failure(error) => Failure(error)
    case Success(None) => Success(NO_TEXT)
    case Success(Some(text)) => Success(text)
  }

  /** On readable trees the placeholder replaces the text exactly when the tree finds none. */
  lemma TextBodyOfReadableTree(e: Entity)
    requires Readable(e)
    ensures TextBody(e).Success?
    ensures !Finds(e) ==> TextBody(e) == Success("(no text body)")
    ensures Finds(e) ==>
              exists leaf :: leaf in Leaves(e) && Decode(leaf) == TextBody(e) && IsTextOf(leaf, TextBody(e).value)
    ensures ShowsText(e) <==> Finds(e) && TextBody(e) != Success("")
  {
    FindsTextExactly(e);
    TextIsALeafsDecoding(e);
  }
}
