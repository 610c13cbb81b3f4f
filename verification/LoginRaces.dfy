/**
 * Logins and logouts that interleave. The session store locks once for each of
 * its methods, so a login is three steps (check the mark, clear it, store the
 * session) and so is a logout (look the session up, mark, delete), with any
 * steps of other requests in between.
 */
module LoginRaces {
  import opened Prelude
  import opened Sessions

  datatype Stage = Clearing | Storing

  datatype Login = Login(session: UserSession, stage: Stage)

  /** subject is what is still to be marked. */
  datatype Leaving = Leaving(cookie: string, subject: Option<string>)

  /** The store, and the requests in progress by number. */
  datatype World = World(store: State, logins: map<nat, Login>, logouts: map<nat, Leaving>)

  const START := World(EMPTY, map[], map[])

  datatype Step =
    | Check(r: nat, session: UserSession)
    | Clear(r: nat)
    | Store(r: nat, token: Option<string>)
    | LookUp(r: nat, cookie: string)
    | Note(r: nat, now: int)
    | Remove(r: nat)

  /** One locked section. Steps of requests that are not there yet, or not so far, do nothing. */
  function Next(w: World, e: Step): World {
    match e
    case Check(r, session) =>
      if r in w.logins || !Admitted(w.store, session) then w
      else w.(logins := w.logins[r := Login(session, if Mark(w.store, session.subject).Some? then Clearing else Storing)])
    case Clear(r) =>
      if !Waits(w, r, Clearing) then w
      else w.(store := w.store.(reauthAfter := w.store.reauthAfter - {w.logins[r].session.subject}),
              logins := w.logins[r := w.logins[r].(stage := Storing)])
    case Store(r, token) =>
      if !Waits(w, r, Storing) then w
      else w.(store := if token.None? then w.store else w.store.(sessions := w.store.sessions[token.value := w.logins[r].session]),
              logins := w.logins - {r})
    case LookUp(r, cookie) =>
      if r in w.logouts then w
      else
        var subject := if cookie in w.store.sessions then Some(w.store.sessions[cookie].subject) else None;
        w.(logouts := w.logouts[r := Leaving(cookie, subject)])
    case Note(r, now) =>
      if r !in w.logouts || w.logouts[r].subject.None? then w
      else
        var subject := w.logouts[r].subject.value;
        w.(store := if subject == "" then w.store else w.store.(reauthAfter := w.store.reauthAfter[subject := now]),
           logouts := w.logouts[r := w.logouts[r].(subject := None)])
    case Remove(r) =>
      if r !in w.logouts || w.logouts[r].subject.Some? then w
      else w.(store := w.store.(sessions := w.store.sessions - {w.logouts[r].cookie}), logouts := w.logouts - {r})
  }

  predicate Waits(w: World, r: nat, stage: Stage) {
    r in w.logins && w.logins[r].stage == stage
  }

  /** A login whose steps follow each other is the uninterrupted callback. */
  lemma UninterruptedLogin(w: World, r: nat, session: UserSession, token: Option<string>)
    requires r !in w.logins
    ensures var w' := Next(Next(Next(w, Check(r, session)), Clear(r)), Store(r, token));
            w'.store == AfterCallback(w.store, session, token) && w'.logins == w.logins && w'.logouts == w.logouts
  {
    assert session.subject !in w.store.reauthAfter ==> w.store.reauthAfter - {session.subject} == w.store.reauthAfter;
  }

  /** Likewise a logout. */
  lemma UninterruptedLogout(w: World, r: nat, cookie: string, now: int)
    requires r !in w.logouts
    ensures var w' := Next(Next(Next(w, LookUp(r, cookie)), Note(r, now)), Remove(r));
            w'.store == AfterLogout(w.store, Some(cookie), now) && w'.logins == w.logins && w'.logouts == w.logouts
  {}

  // ----- Runs -----

  /** The world after the first n steps. */
  function WorldAt(steps: seq<Step>, n: nat): World
    requires n <= |steps|
  {
    if n == 0 then START else Next(WorldAt(steps, n - 1), steps[n - 1])
  }

  /** Step i marks a logout of this subject. */
  predicate Marks(steps: seq<Step>, i: nat, subject: string)
    requires i < |steps|
  {
    var leaving := WorldAt(steps, i).logouts;
    steps[i].Note? && steps[i].r in leaving && leaving[steps[i].r].subject == Some(subject)
  }

  /** Step i clears the mark for a login of this subject. */
  predicate Clears(steps: seq<Step>, i: nat, subject: string)
    requires i < |steps|
  {
    steps[i].Clear? && Waits(WorldAt(steps, i), steps[i].r, Clearing) && Acting(steps, i).subject == subject
  }

  /** Step i stores a session of this subject. */
  predicate Stores(steps: seq<Step>, i: nat, subject: string)
    requires i < |steps|
  {
    && steps[i].Store? && steps[i].token.Some? && Waits(WorldAt(steps, i), steps[i].r, Storing)
    && Acting(steps, i).subject == subject
  }

  /** The login that takes step i. */
  function Acting(steps: seq<Step>, i: nat): UserSession
    requires i < |steps|
    requires (steps[i].Clear? || steps[i].Store?) && steps[i].r in WorldAt(steps, i).logins
  {
    WorldAt(steps, i).logins[steps[i].r].session
  }

  /** Step i is taken by a login that the store would still admit. */
  predicate StillAdmitted(steps: seq<Step>, i: nat, subject: string)
    requires i < |steps|
  {
    Clears(steps, i, subject) || Stores(steps, i, subject) ==> Admitted(WorldAt(steps, i).store, Acting(steps, i))
  }

  // ----- The mark and what it should be -----

  /** The latest logout of this subject that no fresh login has answered yet. */
  function Due(steps: seq<Step>, n: nat, subject: string): Option<int>
    requires n <= |steps|
  {
    if n == 0 then None
    else if Marks(steps, n - 1, subject) then Some(steps[n - 1].now)
    else
      var before := Due(steps, n - 1, subject);
      if before.Some? && Clears(steps, n - 1, subject) && FreshFor(Acting(steps, n - 1), before.value) then None
      else before
  }

  predicate MarkIsDue(steps: seq<Step>, n: nat, subject: string)
    requires n <= |steps|
  {
    Mark(WorldAt(steps, n).store, subject) == Due(steps, n, subject)
  }

  lemma MarkAfter(steps: seq<Step>, i: nat, subject: string)
    requires i < |steps| && subject != ""
    ensures Mark(WorldAt(steps, i + 1).store, subject) ==
            if Marks(steps, i, subject) then Some(steps[i].now)
            else if Clears(steps, i, subject) then None
            else Mark(WorldAt(steps, i).store, subject)
  {}

  /** Sessions appear only by storing and disappear only by removal. */
  lemma SessionsAfter(steps: seq<Step>, i: nat)
    requires i < |steps|
    ensures var w := WorldAt(steps, i);
            WorldAt(steps, i + 1).store.sessions ==
            match steps[i]
            case Store(r, Some(token)) =>
              if r in w.logins && w.logins[r].stage == Storing then w.store.sessions[token := w.logins[r].session] else w.store.sessions
            case Remove(r) =>
              if r in w.logouts && w.logouts[r].subject == None then w.store.sessions - {w.logouts[r].cookie} else w.store.sessions
            case _ => w.store.sessions
  {}

  /** What a check decides, by the times alone. */
  lemma CheckAdmitsExactly(steps: seq<Step>, i: nat)
    requires i < |steps| && steps[i].Check? && steps[i].r !in WorldAt(steps, i).logins
    ensures var session := steps[i].session;
            steps[i].r in WorldAt(steps, i + 1).logins <==>
            match Mark(WorldAt(steps, i).store, session.subject)
            case None => true
            case Some(t) => session.authTime != 0 && session.authTime >= t
  {}

  lemma MarkIsDueStep(steps: seq<Step>, i: nat, subject: string)
    requires i < |steps| && subject != "" && MarkIsDue(steps, i, subject)
    ensures MarkIsDue(steps, i + 1, subject) <==> (Clears(steps, i, subject) ==> StillAdmitted(steps, i, subject))
  {
    MarkAfter(steps, i, subject);
  }

  lemma {:induction false} MarkIsDueUpTo(steps: seq<Step>, n: nat, subject: string)
    requires n <= |steps| && subject != ""
    requires forall i | 0 <= i < n && Clears(steps, i, subject) :: StillAdmitted(steps, i, subject)
    ensures MarkIsDue(steps, n, subject)
  {
    if n > 0 {
      MarkIsDueUpTo(steps, n - 1, subject);
      MarkIsDueStep(steps, n - 1, subject);
    }
  }

  /**
   * In every run, the mark is always the latest unanswered logout if and only
   * if every login still is admitted when it clears the mark.
   */
  lemma MarkIsDueExactly(steps: seq<Step>, subject: string)
    requires subject != ""
    ensures (forall n | 0 <= n <= |steps| :: MarkIsDue(steps, n, subject))
       <==> (forall i | 0 <= i < |steps| && Clears(steps, i, subject) :: StillAdmitted(steps, i, subject))
  {
    if forall n | 0 <= n <= |steps| :: MarkIsDue(steps, n, subject) {
      forall i | 0 <= i < |steps| && Clears(steps, i, subject)
        ensures StillAdmitted(steps, i, subject)
      {
        assert MarkIsDue(steps, i, subject) && MarkIsDue(steps, i + 1, subject);
        MarkIsDueStep(steps, i, subject);
      }
    }
    if forall i | 0 <= i < |steps| && Clears(steps, i, subject) :: StillAdmitted(steps, i, subject) {
      forall n | 0 <= n <= |steps|
        ensures MarkIsDue(steps, n, subject)
      {
        MarkIsDueUpTo(steps, n, subject);
      }
    }
  }

  /** If step i stores a session, that session is fresh for the logout it should answer. */
  predicate StoredIsFresh(steps: seq<Step>, i: nat, subject: string)
    requires i < |steps|
  {
    Stores(steps, i, subject) ==>
      match Due(steps, i, subject)
      case None => true
      case Some(t) => FreshFor(Acting(steps, i), t)
  }

  /**
   * In every run, the mark is always right and no session is stored against an
   * unanswered logout, if and only if every login still is admitted at both of
   * its later steps.
   */
  lemma LoginsAreSafeExactly(steps: seq<Step>, subject: string)
    requires subject != ""
    ensures (&& (forall n | 0 <= n <= |steps| :: MarkIsDue(steps, n, subject))
             && (forall i | 0 <= i < |steps| :: StoredIsFresh(steps, i, subject)))
       <==> (forall i | 0 <= i < |steps| :: StillAdmitted(steps, i, subject))
  {
    MarkIsDueExactly(steps, subject);
    if forall n | 0 <= n <= |steps| :: MarkIsDue(steps, n, subject) {
      forall i | 0 <= i < |steps| && Stores(steps, i, subject)
        ensures StoredIsFresh(steps, i, subject) <==> StillAdmitted(steps, i, subject)
      {
        assert MarkIsDue(steps, i, subject);
      }
    }
    forall i | 0 <= i < |steps|
      ensures StillAdmitted(steps, i, subject) || Clears(steps, i, subject) || Stores(steps, i, subject)
    {}
  }

  // ----- When a login is no longer admitted -----

  /** Between m and n, this subject's mark is neither renewed nor cleared. */
  ghost predicate Untouched(steps: seq<Step>, m: nat, n: nat, subject: string)
    requires n <= |steps|
  {
    forall i | m < i < n :: !Marks(steps, i, subject) && !Clears(steps, i, subject)
  }

  /** The logout marked at m is what the store knows at n. */
  ghost predicate InForce(steps: seq<Step>, m: nat, n: nat, subject: string)
    requires m < n <= |steps|
  {
    Marks(steps, m, subject) && Untouched(steps, m, n, subject)
  }

  lemma {:induction false} InForceIsMark(steps: seq<Step>, m: nat, n: nat, subject: string)
    requires m < n <= |steps| && subject != "" && InForce(steps, m, n, subject)
    ensures Mark(WorldAt(steps, n).store, subject) == Some(steps[m].now)
  {
    MarkAfter(steps, n - 1, subject);
    if m < n - 1 {
      InForceIsMark(steps, m, n - 1, subject);
    }
  }

  lemma {:induction false} MarkWasNoted(steps: seq<Step>, n: nat, subject: string) returns (m: nat)
    requires n <= |steps| && subject != "" && Mark(WorldAt(steps, n).store, subject).Some?
    ensures m < n && InForce(steps, m, n, subject)
  {
    MarkAfter(steps, n - 1, subject);
    if Marks(steps, n - 1, subject) {
      m := n - 1;
    } else {
      m := MarkWasNoted(steps, n - 1, subject);
    }
  }

  /** The check that the login acting at n has passed. */
  ghost predicate CheckedAt(steps: seq<Step>, c: nat, n: nat, r: nat)
    requires c < n <= |steps|
  {
    && r in WorldAt(steps, n).logins
    && steps[c] == Check(r, WorldAt(steps, n).logins[r].session)
    && Admitted(WorldAt(steps, c).store, steps[c].session)
  }

  lemma {:induction false} EveryLoginWasChecked(steps: seq<Step>, n: nat, r: nat) returns (c: nat)
    requires n <= |steps| && r in WorldAt(steps, n).logins
    ensures c < n && CheckedAt(steps, c, n, r)
  {
    if r in WorldAt(steps, n - 1).logins {
      c := EveryLoginWasChecked(steps, n - 1, r);
    } else {
      c := n - 1;
    }
  }

  /** A logout between c and n, still in force, that this login is too old for. */
  ghost predicate Overtaken(steps: seq<Step>, c: nat, n: nat, session: UserSession)
    requires c < n <= |steps|
  {
    exists m | c < m < n :: InForce(steps, m, n, session.subject) && !FreshFor(session, steps[m].now)
  }

  /** A login that passed its check is no longer admitted exactly when a logout has overtaken it. */
  lemma NoLongerAdmittedExactly(steps: seq<Step>, c: nat, n: nat, r: nat)
    requires c < n <= |steps| && CheckedAt(steps, c, n, r) && steps[c].session.subject != ""
    ensures !Admitted(WorldAt(steps, n).store, steps[c].session) <==> Overtaken(steps, c, n, steps[c].session)
  {
    var session := steps[c].session;
    if !Admitted(WorldAt(steps, n).store, session) {
      var m := MarkWasNoted(steps, n, session.subject);
      InForceIsMark(steps, m, n, session.subject);
      if m < c {
        InForceIsMark(steps, m, c, session.subject);
      }
      assert m != c && c < m < n;
    }
    if m :| c < m < n && InForce(steps, m, n, session.subject) && !FreshFor(session, steps[m].now) {
      InForceIsMark(steps, m, n, session.subject);
    }
  }

  /** No login of this subject is overtaken before its clearing or storing step. */
  ghost predicate NoneOvertaken(steps: seq<Step>, subject: string) {
    forall c, n | 0 <= c < n < |steps| && (Clears(steps, n, subject) || Stores(steps, n, subject)) && CheckedAt(steps, c, n, steps[n].r) ::
      !Overtaken(steps, c, n, Acting(steps, n))
  }

  /** So the guarantee holds exactly in the runs in which no login is overtaken by a logout. */
  lemma SafeUnlessOvertaken(steps: seq<Step>, subject: string)
    requires subject != ""
    ensures (&& (forall n | 0 <= n <= |steps| :: MarkIsDue(steps, n, subject))
             && (forall i | 0 <= i < |steps| :: StoredIsFresh(steps, i, subject)))
       <==> NoneOvertaken(steps, subject)
  {
    LoginsAreSafeExactly(steps, subject);
    forall n | 0 <= n < |steps| && (Clears(steps, n, subject) || Stores(steps, n, subject))
      ensures StillAdmitted(steps, n, subject) <==>
              forall c | 0 <= c < n && CheckedAt(steps, c, n, steps[n].r) :: !Overtaken(steps, c, n, Acting(steps, n))
    {
      var first := EveryLoginWasChecked(steps, n, steps[n].r);
      forall c | 0 <= c < n && CheckedAt(steps, c, n, steps[n].r)
        ensures StillAdmitted(steps, n, subject) <==> !Overtaken(steps, c, n, Acting(steps, n))
      {
        NoLongerAdmittedExactly(steps, c, n, steps[n].r);
      }
    }
  }

  /**
   * After a logout at T and until the mark is touched, the login that gets past
   * it next comes from T or later exactly if it still is admitted there.
   */
  lemma FirstPastTheMark(steps: seq<Step>, m: nat, n: nat, subject: string)
    requires m < n < |steps| && subject != "" && InForce(steps, m, n, subject)
    requires Clears(steps, n, subject) || Stores(steps, n, subject)
    ensures Acting(steps, n).authTime != 0 && Acting(steps, n).authTime >= steps[m].now <==> StillAdmitted(steps, n, subject)
  {
    InForceIsMark(steps, m, n, subject);
  }

  // ----- Two runs in which it does not hold -----

  /** A session of this subject is live under "a", and a logout with its cookie is about to be marked. */
  function LiveAndLeaving(user: UserSession): World {
    World(State(map["a" := user], map[]), map[], map[1 := Leaving("a", Some(user.subject))])
  }

  const OPENING_STEPS := 3

  function Opening(user: UserSession): seq<Step> {
    [Check(0, user), Store(0, Some("a")), LookUp(1, "a")]
  }

  lemma OpeningLeads(user: UserSession, rest: seq<Step>)
    ensures WorldAt(Opening(user) + rest, OPENING_STEPS) == LiveAndLeaving(user)
  {
    var steps := Opening(user) + rest;
    assert WorldAt(steps, 0) == START;
    assert WorldAt(steps, 1) == World(EMPTY, map[0 := Login(user, Storing)], map[]);
    assert WorldAt(steps, 2) == World(State(map["a" := user], map[]), map[], map[]) by {
      assert map[0 := Login(user, Storing)] - {0} == map[];
    }
  }

  /** Two logouts with one cookie; a login that answers the first is overtaken by the second. */
  function ForgottenLogout(user: UserSession, later: int): seq<Step> {
    Opening(user) + [Note(1, user.authTime), LookUp(2, "a"), Check(3, user), Note(2, later), Clear(3)]
  }

  lemma LoginBetweenLogouts(user: UserSession, later: int)
    requires user.subject != "" && user.authTime != 0
    ensures var live := State(map["a" := user], map[user.subject := user.authTime]);
            && |ForgottenLogout(user, later)| == 8
            && WorldAt(ForgottenLogout(user, later), 6)
            == World(live, map[3 := Login(user, Clearing)], map[1 := Leaving("a", None), 2 := Leaving("a", Some(user.subject))])
  {
    var steps := ForgottenLogout(user, later);
    OpeningLeads(user, [Note(1, user.authTime), LookUp(2, "a"), Check(3, user), Note(2, later), Clear(3)]);
    var live := State(map["a" := user], map[user.subject := user.authTime]);
    var one, two := Leaving("a", None), Leaving("a", Some(user.subject));
    assert WorldAt(steps, 4) == World(live, map[], map[1 := one]);
    assert WorldAt(steps, 5) == World(live, map[], map[1 := one, 2 := two]);
  }

  /** A logout that falls between a login's check and its clearing is forgotten: no mark is left of it. */
  lemma LogoutBetweenCheckAndClearIsForgotten(subject: string, t: int, later: int)
    requires subject != "" && 0 < t < later
    ensures exists steps: seq<Step> ::
              && |steps| == 8 && Marks(steps, 6, subject) && steps[6].now == later
              && Due(steps, 8, subject) == Some(later) && Mark(WorldAt(steps, 8).store, subject) == None
  {
    var user := UserSession(subject, t);
    var steps := ForgottenLogout(user, later);
    LoginBetweenLogouts(user, later);
    assert Marks(steps, 6, subject);
    assert Waits(WorldAt(steps, 7), 3, Clearing) && Acting(steps, 7) == user;
    MarkAfter(steps, 7, subject);
    assert Due(steps, 7, subject) == Some(later);
  }

  /** A login of unknown age that was checked before a logout can store its session after it, against the mark in force. */
  lemma StaleSessionStoredAfterLogout(subject: string, t: int)
    requires subject != "" && t > 0
    ensures exists steps: seq<Step> ::
              && |steps| == 6 && InForce(steps, 4, 5, subject) && steps[4].now == t
              && Stores(steps, 5, subject) && Acting(steps, 5).authTime == 0
  {
    var user, stale := UserSession(subject, t), UserSession(subject, 0);
    var rest := [Check(2, stale), Note(1, t), Store(2, Some("b"))];
    var steps := Opening(user) + rest;
    OpeningLeads(user, rest);
    var waiting := map[2 := Login(stale, Storing)];
    assert WorldAt(steps, 4) == LiveAndLeaving(user).(logins := waiting);
    assert WorldAt(steps, 5) == World(State(map["a" := user], map[subject := t]), waiting, map[1 := Leaving("a", None)]);
    assert Marks(steps, 4, subject);
  }
}
