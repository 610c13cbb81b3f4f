/**
 * Login sessions and the re-authentication that a logout demands of the next
 * login. Handlers run one at a time here; LoginRaces interleaves them.
 */
module Sessions {
  import opened Prelude

  /** AuthTime is 0 when the identity provider did not say. */
  datatype UserSession = UserSession(subject: string, authTime: int)

  datatype State = State(sessions: map<string, UserSession>, reauthAfter: map<string, int>)

  const EMPTY := State(map[], map[])

  function Mark(s: State, subject: string): Option<int> {
    if subject in s.reauthAfter then Some(s.reauthAfter[subject]) else None
  }

  /** The login is recent enough for a logout at time t. */
  predicate FreshFor(session: UserSession, t: int) {
    session.authTime != 0 && session.authTime >= t
  }

  predicate Admitted(s: State, session: UserSession) {
    match Mark(s, session.subject)
    case None => true
    case Some(t) => FreshFor(session, t)
  }

  /** A login callback; token is None when no random session id could be drawn. */
  function AfterCallback(s: State, session: UserSession, token: Option<string>): State {
    if !Admitted(s, session) then s
    else
      var cleared := s.(reauthAfter := s.reauthAfter - {session.subject});
      if token.None? then cleared else cleared.(sessions := cleared.sessions[token.value := session])
  }

  function AfterLogout(s: State, cookie: Option<string>, now: int): State {
    if cookie.None? then s
    else
      var id := cookie.value;
      var marked := if id in s.sessions && s.sessions[id].subject != ""
                    then s.(reauthAfter := s.reauthAfter[s.sessions[id].subject := now]) else s;
      marked.(sessions := marked.sessions - {id})
  }

  class SessionStore {
    var sessions: map<string, UserSession>
    var reauthAfter: map<string, int>

    ghost function Value(): State
      reads this
    {
      State(sessions, reauthAfter)
    }

    /** No mark is ever kept for the empty subject. */
    ghost predicate Valid()
      reads this
    {
      "" !in reauthAfter
    }

    constructor ()
      ensures Value() == EMPTY && Valid()
    {
      sessions := map[];
      reauthAfter := map[];
    }

    method Put(id: string, session: UserSession)
      requires Valid()
      modifies this
      ensures Valid() && sessions == old(sessions)[id := session] && reauthAfter == old(reauthAfter)
    {
      sessions := sessions[id := session];
    }

    method Get(id: string) returns (r: Option<UserSession>)
      ensures r == if id in sessions then Some(sessions[id]) else None
    {
      return if id in sessions then Some(sessions[id]) else None;
    }

    method Delete(id: string)
      requires Valid()
      modifies this
      ensures Valid() && sessions == old(sessions) - {id} && reauthAfter == old(reauthAfter)
    {
      sessions := sessions - {id};
    }

    method RequireReauthAfter(subject: string, unixTime: int)
      requires Valid()
      modifies this
      ensures Valid() && sessions == old(sessions)
      ensures reauthAfter == if subject == "" then old(reauthAfter) else old(reauthAfter)[subject := unixTime]
    {
      if subject == "" {
        return;
      }
      reauthAfter := reauthAfter[subject := unixTime];
    }

    method ReauthAfterTime(subject: string) returns (r: Option<int>)
      requires Valid()
      ensures r == Mark(Value(), subject)
    {
      if subject == "" {
        return None;
      }
      return if subject in reauthAfter then Some(reauthAfter[subject]) else None;
    }

    method ClearReauthAfter(subject: string)
      requires Valid()
      modifies this
      ensures Valid() && sessions == old(sessions) && reauthAfter == old(reauthAfter) - {subject}
    {
      if subject == "" {
        return;
      }
      reauthAfter := reauthAfter - {subject};
    }

    /** handleAuthCallback, from the exchanged session on. True when a session was created. */
    method HandleCallback(session: UserSession, token: Option<string>) returns (created: bool)
      requires Valid()
      modifies this
      ensures Valid() && Value() == AfterCallback(old(Value()), session, token)
      ensures var admitted := session.subject in old(reauthAfter) ==>
                                session.authTime != 0 && session.authTime >= old(reauthAfter)[session.subject];
              && (created <==> token.Some? && admitted)
              && sessions == (if created then old(sessions)[token.value := session] else old(sessions))
              && reauthAfter == (if admitted then old(reauthAfter) - {session.subject} else old(reauthAfter))
    {
      var mark := ReauthAfterTime(session.subject);
      if mark.Some? {
        if session.authTime == 0 || session.authTime < mark.value {
          return false;
        }
        ClearReauthAfter(session.subject);
      }
      assert Value() == AfterCallback(old(Value()), session, None);
      if token.None? {
        return false;
      }
      Put(token.value, session);
      return true;
    }

    /** handleAuthLogout. */
    method HandleLogout(cookie: Option<string>, now: int)
      requires Valid()
      modifies this
      ensures Valid() && Value() == AfterLogout(old(Value()), cookie, now)
      ensures cookie.None? ==> sessions == old(sessions) && reauthAfter == old(reauthAfter)
      ensures cookie.Some? ==>
                && sessions == old(sessions) - {cookie.value}
                && (var marks := cookie.value in old(sessions) && old(sessions)[cookie.value].subject != "";
                    reauthAfter == if marks then old(reauthAfter)[old(sessions)[cookie.value].subject := now] else old(reauthAfter))
    {
      if cookie.Some? {
        var session := Get(cookie.value);
        if session.Some? {
          RequireReauthAfter(session.value.subject, now);
        }
        Delete(cookie.value);
      }
    }
  }

  // ----- Runs -----

  datatype Event = Callback(session: UserSession, token: Option<string>) | Logout(cookie: Option<string>, now: int)

  function After(s: State, e: Event): State {
    match e
    case Callback(session, token) => AfterCallback(s, session, token)
    case Logout(cookie, now) => AfterLogout(s, cookie, now)
  }

  /** The state after the first n events. */
  function StateAt(events: seq<Event>, n: nat): State
    requires n <= |events|
  {
    if n == 0 then EMPTY else After(StateAt(events, n - 1), events[n - 1])
  }

  /** Event i logs out a live session of this subject. */
  predicate LogsOut(events: seq<Event>, i: nat, subject: string)
    requires i < |events|
  {
    events[i].Logout? && events[i].cookie.Some?
    && var live := StateAt(events, i).sessions;
       events[i].cookie.value in live && live[events[i].cookie.value].subject == subject
  }

  predicate IsLogin(events: seq<Event>, i: nat, subject: string)
    requires i < |events|
  {
    events[i].Callback? && events[i].session.subject == subject
  }

  /** Event i creates a session for this subject. */
  predicate Creates(events: seq<Event>, i: nat, subject: string)
    requires i < |events|
  {
    IsLogin(events, i, subject) && events[i].token.Some? && Admitted(StateAt(events, i), events[i].session)
  }

  /** The latest logout of this subject that no fresh login has answered yet. */
  function Unanswered(events: seq<Event>, n: nat, subject: string): Option<int>
    requires n <= |events|
  {
    if n == 0 then None
    else if LogsOut(events, n - 1, subject) then Some(events[n - 1].now)
    else
      var before := Unanswered(events, n - 1, subject);
      if IsLogin(events, n - 1, subject) && before.Some? && FreshFor(events[n - 1].session, before.value) then None
      else before
  }

  /** The stored mark is always the latest unanswered logout. */
  lemma {:induction false} MarkIsLatestUnansweredLogout(events: seq<Event>, n: nat, subject: string)
    requires n <= |events| && subject != ""
    ensures Mark(StateAt(events, n), subject) == Unanswered(events, n, subject)
    ensures "" !in StateAt(events, n).reauthAfter
  {
    if n > 0 {
      MarkIsLatestUnansweredLogout(events, n - 1, subject);
    }
  }

  /** Logout times never go back. */
  ghost predicate ClockForward(events: seq<Event>) {
    forall i, j | 0 <= i < j < |events| && events[i].Logout? && events[j].Logout? :: events[i].now <= events[j].now
  }

  /** A login that was fresh enough to answer a logout, but then got no session id. */
  predicate LosesItsAnswer(events: seq<Event>, k: nat, subject: string)
    requires k < |events|
  {
    && IsLogin(events, k, subject) && events[k].token.None?
    && var mark := Unanswered(events, k, subject);
       mark.Some? && FreshFor(events[k].session, mark.value)
  }

  /** Between events i and n an answer was lost, and no logout came after it. */
  ghost predicate AnswerLost(events: seq<Event>, i: nat, n: nat, subject: string)
    requires n <= |events|
  {
    exists k | i < k < n ::
      LosesItsAnswer(events, k, subject) && forall l | k < l < n :: !LogsOut(events, l, subject)
  }

  ghost predicate NoneCreated(events: seq<Event>, i: nat, n: nat, subject: string)
    requires n <= |events|
  {
    forall k | i < k < n :: !Creates(events, k, subject)
  }

  /**
   * After a logout at time T and before the next session, either a mark of at
   * least T is in force, or the last answer since the last logout was lost for
   * want of a session id; and exactly one of the two.
   */
  lemma {:induction false} GuardedUnlessAnswerLost(events: seq<Event>, i: nat, n: nat, subject: string)
    requires i < n <= |events| && subject != "" && ClockForward(events)
    requires LogsOut(events, i, subject) && NoneCreated(events, i, n, subject)
    ensures match Unanswered(events, n, subject)
            case Some(t) => t >= events[i].now
            case None => exists k | i < k < n :: LosesItsAnswer(events, k, subject)
    ensures Unanswered(events, n, subject).None? <==> AnswerLost(events, i, n, subject)
  {
    if n > i + 1 {
      GuardedUnlessAnswerLost(events, i, n - 1, subject);
      MarkIsLatestUnansweredLogout(events, n - 1, subject);
      if Unanswered(events, n, subject).None? && Unanswered(events, n - 1, subject).Some? {
        assert !Creates(events, n - 1, subject);
        assert LosesItsAnswer(events, n - 1, subject);
      }
    }
  }

  /**
   * After a logout at time T and before the next session, the store admits only
   * logins at T or later if and only if no answer was lost since the last logout.
   */
  lemma LoginsAfterLogoutAreFreshExactly(events: seq<Event>, i: nat, j: nat, subject: string)
    requires i < j <= |events| && subject != "" && ClockForward(events)
    requires LogsOut(events, i, subject) && NoneCreated(events, i, j, subject)
    ensures (forall session: UserSession | session.subject == subject && Admitted(StateAt(events, j), session) ::
               session.authTime != 0 && session.authTime >= events[i].now)
       <==> !AnswerLost(events, i, j, subject)
  {
    GuardedUnlessAnswerLost(events, i, j, subject);
    MarkIsLatestUnansweredLogout(events, j, subject);
    if AnswerLost(events, i, j, subject) {
      assert Admitted(StateAt(events, j), UserSession(subject, 0));
    }
  }

  /** So then the first session created after the logout comes from a login at T or later. */
  lemma FirstSessionAfterLogoutIsFresh(events: seq<Event>, i: nat, j: nat, subject: string)
    requires i < j < |events| && subject != "" && ClockForward(events)
    requires LogsOut(events, i, subject) && NoneCreated(events, i, j, subject) && Creates(events, j, subject)
    requires !AnswerLost(events, i, j, subject)
    ensures events[j].session.authTime != 0 && events[j].session.authTime >= events[i].now
  {
    LoginsAfterLogoutAreFreshExactly(events, i, j, subject);
  }

  /** That is always so when every callback draws a session id. */
  lemma FirstSessionIsFreshIfIdsAreDrawn(events: seq<Event>, i: nat, j: nat, subject: string)
    requires i < j < |events| && subject != "" && ClockForward(events)
    requires LogsOut(events, i, subject) && NoneCreated(events, i, j, subject) && Creates(events, j, subject)
    requires forall k | 0 <= k < |events| && events[k].Callback? :: events[k].token.Some?
    ensures events[j].session.authTime != 0 && events[j].session.authTime >= events[i].now
  {
    FirstSessionAfterLogoutIsFresh(events, i, j, subject);
  }

  /** At any time, a login of unknown age gets a session exactly when no logout is unanswered. */
  lemma StaleLoginAdmittedExactly(events: seq<Event>, j: nat, subject: string)
    requires j < |events| && subject != "" && IsLogin(events, j, subject)
    requires events[j].session.authTime == 0 && events[j].token.Some?
    ensures Creates(events, j, subject) <==> Unanswered(events, j, subject).None?
  {
    MarkIsLatestUnansweredLogout(events, j, subject);
  }

  /** So a lost answer does let a stale login in after a logout. */
  lemma LostAnswerAdmitsStaleLogin(subject: string, t: int)
    requires subject != "" && t > 0
    ensures exists events: seq<Event> ::
              && |events| == 4 && ClockForward(events)
              && LogsOut(events, 1, subject) && events[1].now == t
              && NoneCreated(events, 1, 3, subject)
              && Creates(events, 3, subject) && events[3].session.authTime == 0
  {
    var events := [
      Callback(UserSession(subject, t), Some("a")),
      Logout(Some("a"), t),
      Callback(UserSession(subject, t), None),
      Callback(UserSession(subject, 0), Some("b"))];
    var s1 := State(map["a" := UserSession(subject, t)], map[]);
    var s2 := State(map[], map[subject := t]);
    assert StateAt(events, 1) == s1 by {
      assert StateAt(events, 0) == EMPTY;
    }
    assert StateAt(events, 2) == s2 by {
      assert s1.sessions - {"a"} == map[];
    }
    assert StateAt(events, 3) == EMPTY by {
      assert s2.reauthAfter - {subject} == map[];
    }
    assert LogsOut(events, 1, subject);
  }

  /** Session ids are never drawn twice. */
  ghost predicate FreshTokens(events: seq<Event>) {
    forall i, j | 0 <= i < j < |events| && events[i].Callback? && events[j].Callback? && events[i].token.Some? ::
      events[i].token != events[j].token
  }

  /** The id of a live session is the token that an earlier login drew. */
  lemma {:induction false} LiveSessionsWereDrawn(events: seq<Event>, n: nat, id: string) returns (i: nat)
    requires n <= |events| && id in StateAt(events, n).sessions
    ensures i < n && events[i].Callback? && events[i].token == Some(id)
  {
    var e := events[n - 1];
    if e.Callback? && e.token == Some(id) {
      i := n - 1;
      if !Admitted(StateAt(events, n - 1), e.session) {
        i := LiveSessionsWereDrawn(events, n - 1, id);
      }
    } else {
      i := LiveSessionsWereDrawn(events, n - 1, id);
    }
  }

  /** With fresh tokens, an id that was live and is not any more never becomes live again. */
  lemma {:induction false} DeletedIdsStayDead(events: seq<Event>, i: nat, j: nat, n: nat, id: string)
    requires i <= j <= n <= |events| && FreshTokens(events)
    requires id in StateAt(events, i).sessions && id !in StateAt(events, j).sessions
    ensures id !in StateAt(events, n).sessions
  {
    if n > j {
      DeletedIdsStayDead(events, i, j, n - 1, id);
      var drawn := LiveSessionsWereDrawn(events, i, id);
      assert drawn < n - 1;
    }
  }
}
