/**
 * Threading of replies: the References header of a reply to a reply to a
 * reply, through printing, delivery and reading back.
 */
module Threading {
  import opened Prelude
  import opened Strings
  import opened MessageText

  /** The threading fields of a received message. */
  datatype Original = Original(messageId: string, inReplyTo: string, references: string)

  function ReplyReferences(original: Original): string {
    var references := TrimSpace(original.references);
    if references == "" then original.messageId
    else if Contains(references, original.messageId) then references
    else references + " " + original.messageId
  }

  /** A message id (section 3.6.4 of RFC 5322): angle brackets around text without brackets or spaces. */
  predicate IsMessageId(s: string) {
    && |s| >= 2
    && s[0] == '<' && s[|s| - 1] == '>'
    && forall i | 0 < i < |s| - 1 :: s[i] != '<' && s[i] != '>' && !IsSpace(s[i])
  }

  ghost predicate AreMessageIds(ids: seq<string>) {
    forall id | id in ids :: IsMessageId(id)
  }

  lemma SameStart(a: string, b: string, rest: string)
    requires IsMessageId(a) && IsMessageId(b)
    requires OccursAt(a + rest, b, 0)
    ensures a == b
  {
    var s := a + rest;
    assert s[..|b|] == b;
    assert s[|a| - 1] == '>' && s[|b| - 1] == b[|b| - 1] == '>';
    assert |a| == |b|;
    assert s[..|a|] == a;
  }

  lemma OccursAfter(prefix: string, t: string, sub: string, i: nat)
    ensures OccursAt(prefix + t, sub, |prefix| + i) <==> OccursAt(t, sub, i)
  {
    if i + |sub| <= |t| {
      assert (prefix + t)[|prefix| + i..|prefix| + i + |sub|] == t[i..i + |sub|];
    }
  }

  /** An id found in a list that starts with another id is that id, or is found in the rest. */
  lemma FoundInRest(first: string, rest: string, id: string)
    requires IsMessageId(first) && IsMessageId(id)
    requires rest == "" || rest[0] == ' '
    ensures Contains(first + rest, id) <==> first == id || Contains(rest, id)
  {
    var s := first + rest;
    if Contains(s, id) {
      var i: nat :| i <= |s| && OccursAt(s, id, i);
      assert s[i..i + |id|][0] == s[i] == '<';
      if i == 0 {
        SameStart(first, id, rest);
      } else {
        assert i >= |first|;
        OccursAfter(first, rest, id, i - |first|);
      }
    }
    if first == id {
      assert OccursAt(s, id, 0);
    }
    if Contains(rest, id) {
      var i: nat :| i <= |rest| && OccursAt(rest, id, i);
      OccursAfter(first, rest, id, i);
    }
  }

  /** A leading space hides nothing. */
  lemma FoundAfterSpace(t: string, id: string)
    requires IsMessageId(id)
    ensures Contains(" " + t, id) <==> Contains(t, id)
  {
    if Contains(" " + t, id) {
      var i: nat :| i <= |t| + 1 && OccursAt(" " + t, id, i);
      assert (" " + t)[i..i + |id|][0] == (" " + t)[i] == '<';
      OccursAfter(" ", t, id, i - 1);
    }
    if Contains(t, id) {
      var i: nat :| i <= |t| && OccursAt(t, id, i);
      OccursAfter(" ", t, id, i);
    }
  }

  /** For well-formed ids the substring test decides whether the id is one of the tokens. */
  lemma {:induction false} SubstringIsToken(ids: seq<string>, id: string)
    requires AreMessageIds(ids) && IsMessageId(id)
    ensures Contains(Join(ids, " "), id) <==> id in ids
  {
    if ids != [] {
      assert ids[0] in ids && ids == [ids[0]] + ids[1..];
      SubstringIsToken(ids[1..], id);
      if |ids| == 1 {
        assert Join(ids, " ") == ids[0] + "";
        FoundInRest(ids[0], "", id);
      } else {
        var tail := Join(ids[1..], " ");
        assert Join(ids, " ") == ids[0] + (" " + tail);
        FoundInRest(ids[0], " " + tail, id);
        FoundAfterSpace(tail, id);
      }
    }
  }

  lemma {:induction false} JoinedIdsAreTrimmed(ids: seq<string>)
    requires AreMessageIds(ids)
    ensures ids != [] ==> Join(ids, " ") != "" && Join(ids, " ")[0] == '<' && Join(ids, " ")[|Join(ids, " ")| - 1] == '>'
    ensures TrimSpace(Join(ids, " ")) == Join(ids, " ")
    ensures Unbroken(Join(ids, " "))
  {
    if ids != [] {
      assert ids[0] in ids;
      JoinedIdsAreTrimmed(ids[1..]);
    }
    TrimNothing(Join(ids, " "));
  }

  /** The tokens a reply to this message refers to. */
  function RefsAfter(ids: seq<string>, id: string): seq<string> {
    if id in ids then ids else ids + [id]
  }

  /** The References of a reply are the original's, with its id appended unless it is already there. */
  lemma ReplyReferencesTokens(original: Original, ids: seq<string>)
    requires AreMessageIds(ids) && IsMessageId(original.messageId)
    requires TrimSpace(original.references) == Join(ids, " ")
    ensures ReplyReferences(original) == Join(RefsAfter(ids, original.messageId), " ")
  {
    SubstringIsToken(ids, original.messageId);
    JoinedIdsAreTrimmed(ids);
    if ids == [] {
      assert ids + [original.messageId] == [original.messageId];
    } else {
      JoinAppend(ids, original.messageId, " ");
    }
  }

  // ----- Printing, delivery and reading -----

  /** The message of a reply form, as handleSendMessage completes it. */
  function Reply(original: Original, form: Message): Message {
    form.(inReplyTo := original.messageId, references := ReplyReferences(original))
  }

  /** What a mailbox shows of a delivered message: the server put the id in front. */
  function Delivered(m: Message, messageId: string): Option<Original> {
    match ReadMessage(Print(Fields(m), NormalizeBody(m.body)))
    case None => None
    case Some((fields, _)) =>
      Some(Original(messageId, Header(fields, "In-Reply-To"), Header(fields, "References")))
  }

  /** A value that printing and reading leave alone. */
  predicate Clean(value: string) {
    value != "" && Unbroken(value) && !IsSpace(value[0]) && !IsSpace(value[|value| - 1])
  }

  lemma DeliveredHeaders(m: Message, messageId: string)
    requires Unbroken(m.from) && Unbroken(m.to)
    ensures Delivered(m, messageId) ==
            Some(Original(messageId, TrimSpace(Sanitize(m.inReplyTo)), TrimSpace(Sanitize(m.references))))
  {
    BuiltMessageReadsBack(m);
    ThreadHeaders(m);
  }

  lemma CleanIsKept(value: string)
    requires Clean(value)
    ensures TrimSpace(Sanitize(value)) == value
  {
    TrimNothing(value);
  }

  /** A reply's threading fields survive the trip. */
  lemma DeliveredReply(m: Message, messageId: string)
    requires Unbroken(m.from) && Unbroken(m.to)
    requires Clean(m.inReplyTo) && Clean(m.references)
    ensures Delivered(m, messageId) == Some(Original(messageId, m.inReplyTo, m.references))
  {
    DeliveredHeaders(m, messageId);
    CleanIsKept(m.inReplyTo);
    CleanIsKept(m.references);
  }

  ghost predicate RefersTo(message: Original, refs: seq<string>) {
    TrimSpace(message.references) == Join(refs, " ")
  }

  /** One more reply refers to what its parent did and, unless that is there already, to its parent. */
  lemma OneReply(parent: Original, form: Message, refs: seq<string>, reply: Original)
    requires Unbroken(form.from) && Unbroken(form.to)
    requires AreMessageIds(refs) && IsMessageId(parent.messageId) && RefersTo(parent, refs)
    requires Delivered(Reply(parent, form), reply.messageId) == Some(reply)
    ensures reply.references == Join(RefsAfter(refs, parent.messageId), " ") && RefersTo(reply, RefsAfter(refs, parent.messageId))
    ensures reply.inReplyTo == parent.messageId
  {
    ReplyReferencesTokens(parent, refs);
    JoinedIdsAreTrimmed(RefsAfter(refs, parent.messageId));
    IdIsClean(parent.messageId);
    DeliveredReply(Reply(parent, form), reply.messageId);
  }

  /**
   * The References header of a delivered reply ends with its In-Reply-To,
   * exactly unless the parent's own References named the parent before their end.
   */
  lemma LastReferenceIsTheParent(parent: Original, form: Message, refs: seq<string>, reply: Original)
    requires Unbroken(form.from) && Unbroken(form.to)
    requires AreMessageIds(refs) && IsMessageId(parent.messageId) && RefersTo(parent, refs)
    requires Delivered(Reply(parent, form), reply.messageId) == Some(reply)
    ensures EndsWithParent(reply) <==> parent.messageId !in refs || Last(refs) == parent.messageId
  {
    OneReply(parent, form, refs, reply);
    LastOfIds(RefsAfter(refs, parent.messageId));
  }

  function Last(tokens: seq<string>): string {
    if tokens == [] then "" else tokens[|tokens| - 1]
  }

  /** The last token of a References header. */
  function LastToken(references: string): string {
    Last(Split(references, " "))
  }

  predicate EndsWithParent(message: Original) {
    LastToken(message.references) == message.inReplyTo
  }

  lemma LastOfIds(ids: seq<string>)
    requires AreMessageIds(ids) && ids != []
    ensures LastToken(Join(ids, " ")) == Last(ids)
  {
    forall id | id in ids
      ensures ' ' !in id
    {
      assert IsMessageId(id) && IsSpace(' ');
    }
    SplitJoin(ids, " ");
  }

  // ----- Chains of replies -----

  /**
   * A thread: each message is the delivered reply to the one before, whatever
   * else the reply forms say. The same id may occur more than once.
   */
  ghost predicate Thread(messages: seq<Original>, forms: seq<Message>) {
    |messages| == |forms| + 1 && forall i | 0 <= i < |forms| :: RepliesTo(messages, forms, i)
  }

  ghost predicate RepliesTo(messages: seq<Original>, forms: seq<Message>, i: nat)
    requires i < |forms| && i + 1 < |messages|
  {
    && Unbroken(forms[i].from) && Unbroken(forms[i].to)
    && Delivered(Reply(messages[i], forms[i]), messages[i + 1].messageId) == Some(messages[i + 1])
  }

  function Ids(messages: seq<Original>): (r: seq<string>)
    ensures |r| == |messages|
    ensures forall i | 0 <= i < |r| :: r[i] == messages[i].messageId
  {
    if messages == [] then [] else [messages[0].messageId] + Ids(messages[1..])
  }

  /** The i-th id is new: the root did not refer to it, and no earlier message has it. */
  ghost predicate IsNew(rootRefs: seq<string>, ids: seq<string>, i: nat)
    requires i < |ids|
  {
    ids[i] !in rootRefs && ids[i] !in ids[..i]
  }

  /** The new ones among the first n ids, in order. */
  ghost function NewIds(rootRefs: seq<string>, ids: seq<string>, n: nat): seq<string>
    requires n <= |ids|
  {
    if n == 0 then []
    else NewIds(rootRefs, ids, n - 1) + if IsNew(rootRefs, ids, n - 1) then [ids[n - 1]] else []
  }

  /** What the n-th message of a thread refers to: the root's references, then each ancestor once, root first. */
  ghost function Ancestors(rootRefs: seq<string>, ids: seq<string>, n: nat): seq<string>
    requires n <= |ids|
  {
    rootRefs + NewIds(rootRefs, ids, n)
  }

  lemma {:induction false} AncestorElements(rootRefs: seq<string>, ids: seq<string>, n: nat, id: string)
    requires n <= |ids|
    ensures id in Ancestors(rootRefs, ids, n) <==> id in rootRefs || id in ids[..n]
  {
    if n > 0 {
      AncestorElements(rootRefs, ids, n - 1, id);
      AncestorElements(rootRefs, ids, n - 1, ids[n - 1]);
      assert ids[..n] == ids[..n - 1] + [ids[n - 1]];
    }
  }

  /** One step of the list is one application of the reply rule. */
  lemma NextAncestors(rootRefs: seq<string>, ids: seq<string>, n: nat)
    requires n < |ids|
    ensures Ancestors(rootRefs, ids, n + 1) == RefsAfter(Ancestors(rootRefs, ids, n), ids[n])
    ensures IsNew(rootRefs, ids, n) <==> ids[n] !in Ancestors(rootRefs, ids, n)
  {
    AncestorElements(rootRefs, ids, n, ids[n]);
    if IsNew(rootRefs, ids, n) {
      assert rootRefs + (NewIds(rootRefs, ids, n) + [ids[n]]) == Ancestors(rootRefs, ids, n) + [ids[n]];
    } else {
      assert NewIds(rootRefs, ids, n) + [] == NewIds(rootRefs, ids, n);
    }
  }

  /** Nobody is listed twice, unless the root's own header did so. */
  lemma {:induction false} AncestorsOnce(rootRefs: seq<string>, ids: seq<string>, n: nat)
    requires n <= |ids|
    ensures NoDuplicates(rootRefs) <==> NoDuplicates(Ancestors(rootRefs, ids, n))
  {
    var all := Ancestors(rootRefs, ids, n);
    assert forall i | 0 <= i < |rootRefs| :: all[i] == rootRefs[i];
    if n > 0 {
      AncestorsOnce(rootRefs, ids, n - 1);
      NextAncestors(rootRefs, ids, n - 1);
    }
  }

  lemma {:induction false} AncestorsAreIds(rootRefs: seq<string>, ids: seq<string>, n: nat)
    requires n <= |ids| && AreMessageIds(rootRefs) && AreMessageIds(ids)
    ensures AreMessageIds(Ancestors(rootRefs, ids, n))
  {
    forall id | id in Ancestors(rootRefs, ids, n)
      ensures IsMessageId(id)
    {
      AncestorElements(rootRefs, ids, n, id);
    }
  }

  /** A thread of well-formed ids whose root refers to rootRefs. */
  ghost predicate WellFormedThread(messages: seq<Original>, forms: seq<Message>, rootRefs: seq<string>) {
    && Thread(messages, forms)
    && AreMessageIds(rootRefs) && AreMessageIds(Ids(messages))
    && RefersTo(messages[0], rootRefs)
  }

  /**
   * Along any chain of replies, the n-th message's References are the root's
   * references and then every ancestor's id once, root first, and it replies
   * to the message before it.
   */
  lemma {:induction false} ReferencesListAncestors(messages: seq<Original>, forms: seq<Message>, rootRefs: seq<string>, n: nat)
    requires WellFormedThread(messages, forms, rootRefs) && n < |messages|
    ensures RefersTo(messages[n], Ancestors(rootRefs, Ids(messages), n))
    ensures n > 0 ==> messages[n].references == Join(Ancestors(rootRefs, Ids(messages), n), " ")
    ensures n > 0 ==> messages[n].inReplyTo == messages[n - 1].messageId
  {
    var ids := Ids(messages);
    if n == 0 {
      assert Ancestors(rootRefs, ids, 0) == rootRefs;
    } else {
      ReferencesListAncestors(messages, forms, rootRefs, n - 1);
      AncestorsAreIds(rootRefs, ids, n - 1);
      NextAncestors(rootRefs, ids, n - 1);
      assert RepliesTo(messages, forms, n - 1) && ids[n - 1] in ids;
      OneReply(messages[n - 1], forms[n - 1], Ancestors(rootRefs, ids, n - 1), messages[n]);
    }
  }

  ghost predicate StepEndsWithParent(messages: seq<Original>, i: nat, refs: seq<string>)
    requires i + 1 < |messages|
  {
    EndsWithParent(messages[i + 1]) <==> messages[i].messageId !in refs || Last(refs) == messages[i].messageId
  }

  lemma LastOfNext(messages: seq<Original>, forms: seq<Message>, refs: seq<string>, i: nat)
    requires Thread(messages, forms) && i < |forms|
    requires AreMessageIds(refs) && IsMessageId(messages[i].messageId) && RefersTo(messages[i], refs)
    ensures StepEndsWithParent(messages, i, refs)
  {
    assert RepliesTo(messages, forms, i);
    LastReferenceIsTheParent(messages[i], forms[i], refs, messages[i + 1]);
  }

  lemma AncestorStep(messages: seq<Original>, forms: seq<Message>, rootRefs: seq<string>, i: nat)
    requires WellFormedThread(messages, forms, rootRefs) && i < |forms|
    ensures StepEndsWithParent(messages, i, Ancestors(rootRefs, Ids(messages), i))
  {
    var ids := Ids(messages);
    ReferencesListAncestors(messages, forms, rootRefs, i);
    AncestorsAreIds(rootRefs, ids, i);
    assert ids[i] in ids && IsMessageId(ids[i]);
    LastOfNext(messages, forms, Ancestors(rootRefs, ids, i), i);
  }

  /**
   * On the chain: References end with In-Reply-To, exactly if the parent's id
   * is new there, or was the last one listed before.
   */
  lemma LastAncestorIsTheParent(messages: seq<Original>, forms: seq<Message>, rootRefs: seq<string>, i: nat)
    requires WellFormedThread(messages, forms, rootRefs) && i < |forms|
    ensures var ids := Ids(messages);
            EndsWithParent(messages[i + 1]) <==> IsNew(rootRefs, ids, i) || Last(Ancestors(rootRefs, ids, i)) == ids[i]
  {
    AncestorStep(messages, forms, rootRefs, i);
    NextAncestors(rootRefs, Ids(messages), i);
  }

  /** With distinct ids the list is simply everyone, and its last entry is the parent. */
  lemma ReferencesListAllAncestors(messages: seq<Original>, forms: seq<Message>, rootRefs: seq<string>, n: nat)
    requires WellFormedThread(messages, forms, rootRefs) && 0 < n < |messages|
    requires NoDuplicates(rootRefs + Ids(messages))
    ensures messages[n].references == Join(rootRefs + Ids(messages)[..n], " ")
    ensures messages[n].inReplyTo == (rootRefs + Ids(messages)[..n])[|rootRefs| + n - 1]
  {
    ReferencesListAncestors(messages, forms, rootRefs, n);
    AllAreNew(rootRefs, Ids(messages), n);
  }

  lemma {:induction false} AllAreNew(rootRefs: seq<string>, ids: seq<string>, n: nat)
    requires NoDuplicates(rootRefs + ids) && n <= |ids|
    ensures NewIds(rootRefs, ids, n) == ids[..n]
  {
    if n > 0 {
      AllAreNew(rootRefs, ids, n - 1);
      var all, i := rootRefs + ids, n - 1;
      assert all[|rootRefs| + i] == ids[i];
      assert forall j | 0 <= j < |rootRefs| :: all[j] == rootRefs[j];
      assert forall j | 0 <= j < i :: all[|rootRefs| + j] == ids[j];
      assert IsNew(rootRefs, ids, i);
      assert ids[..n] == ids[..i] + [ids[i]];
    }
  }

  lemma IdIsClean(id: string)
    requires IsMessageId(id)
    ensures Unbroken(id) && !IsSpace(id[0]) && !IsSpace(id[|id| - 1])
  {}
}
