/** Refresh-token rotation of `auth/service.py`: sessions, epochs and outstanding access tokens
    under every interleaving of login, refresh, logout and reuse. */
module Sessions {

  datatype Parent = NoParent | RotatedFrom(session: nat)

  /** One refresh session row. */
  datatype RefreshSession = RefreshSession(user: nat, parent: Parent, expires: int, revoked: bool)

  /** The claims of an access token that outlive its request. */
  datatype AccessToken = AccessToken(user: nat, epoch: nat)

  /** `pending` are the refreshes that found their session usable and have not
      consumed it yet. */
  datatype State = State(sessions: seq<RefreshSession>, epochs: map<nat, nat>, tokens: seq<AccessToken>,
                         pending: multiset<nat>)

  /** Tokens are opaque: a refresh token is its session's number. A refresh is two
      steps, the lookup and the conditional update that consumes the session, so other
      requests can come between them; every other operation is one transaction. */
  datatype Action =
    | Login(user: nat, expires: int)
    | Lookup(token: nat, now: int, identityOk: bool)
    | Consume(session: nat)
    | Abandon(session: nat)
    | RevokeUser(user: nat)

  function Epoch(epochs: map<nat, nat>, user: nat): nat { if user in epochs then epochs[user] else 0 }

  function Initial(): State { State([], map[], [], multiset{}) }

  // ---- one transaction at a time -------------------------------------------------

  /** `EXISTS (SELECT 1 FROM refresh_sessions child WHERE child.rotated_from_id = id)`. */
  predicate Rotated(sessions: seq<RefreshSession>, id: nat) {
    exists k :: 0 <= k < |sessions| && sessions[k].parent == RotatedFrom(id)
  }

  function RevokedFor(s: RefreshSession, user: nat): RefreshSession {
    if s.user == user then s.(revoked := true) else s
  }

  /** Every session of `user` among the first `n` revoked. */
  function RevokeAll(sessions: seq<RefreshSession>, user: nat, n: nat): (r: seq<RefreshSession>)
    requires n <= |sessions|
    ensures |r| == n
    ensures forall k {:trigger r[k]} :: 0 <= k < n ==> r[k] == RevokedFor(sessions[k], user)
  {
    if n == 0 then [] else RevokeAll(sessions, user, n - 1) + [RevokedFor(sessions[n - 1], user)]
  }

  /** `_revoke_family`: bump the epoch and revoke every session of the user. Logout,
      account recovery and changes to the account do the same. */
  function RevokeFamily(s: State, user: nat): State {
    s.(sessions := RevokeAll(s.sessions, user, |s.sessions|), epochs := s.epochs[user := Epoch(s.epochs, user) + 1])
  }

  /** `_issue_session`: a new session and an access token of the current epoch. */
  function Issue(s: State, user: nat, parent: Parent, expires: int): State {
    s.(sessions := s.sessions + [RefreshSession(user, parent, expires, false)],
       tokens := s.tokens + [AccessToken(user, Epoch(s.epochs, user))])
  }

  /** Marking one session revoked, as the conditional update does. */
  function Consumed(s: State, id: nat): State
    requires id < |s.sessions|
  {
    s.(sessions := s.sessions[id := s.sessions[id].(revoked := true)])
  }

  function Next(s: State, a: Action): State {
    match a
    case Login(user, expires) => Issue(s, user, NoParent, expires)
    case Lookup(token, now, identityOk) =>
      if token >= |s.sessions| then s
      else
        var row := s.sessions[token];
        if row.revoked && Rotated(s.sessions, token) then RevokeFamily(s, row.user)
        else if row.revoked || row.expires <= now || !identityOk then s
        else s.(pending := s.pending + multiset{token})
    case Consume(id) =>
      if id !in s.pending || id >= |s.sessions| then s
      else
        var t := s.(pending := s.pending - multiset{id});
        var row := s.sessions[id];
        if row.revoked then RevokeFamily(t, row.user)
        else Issue(Consumed(t, id), row.user, RotatedFrom(id), row.expires)
    case Abandon(id) => s.(pending := s.pending - multiset{id})
    case RevokeUser(user) => RevokeFamily(s, user)
  }

  function Run(s: State, actions: seq<Action>, n: nat): State
    requires n <= |actions|
  {
    if n == 0 then s else Next(Run(s, actions, n - 1), actions[n - 1])
  }

  // ---- what every step keeps --------------------------------------------------------

  /** A rotated session points back to an earlier, revoked session of the same user
      and has its expiry. */
  ghost predicate Linked(sessions: seq<RefreshSession>, k: nat)
    requires k < |sessions|
  {
    sessions[k].parent.RotatedFrom? ==>
      var p := sessions[k].parent.session;
      && p < k && sessions[p].revoked
      && sessions[p].user == sessions[k].user && sessions[p].expires == sessions[k].expires
  }

  ghost predicate Chained(sessions: seq<RefreshSession>) {
    && (forall k :: 0 <= k < |sessions| ==> Linked(sessions, k))
    && (forall j, k :: 0 <= j < k < |sessions| && sessions[k].parent.RotatedFrom? ==>
          sessions[j].parent != sessions[k].parent)
  }

  ghost predicate TokensKnown(tokens: seq<AccessToken>, epochs: map<nat, nat>) {
    forall i :: 0 <= i < |tokens| ==> tokens[i].epoch <= Epoch(epochs, tokens[i].user)
  }

  ghost predicate Inv(s: State) { Chained(s.sessions) && TokensKnown(s.tokens, s.epochs) }

  lemma RevokeKeepsChains(sessions: seq<RefreshSession>, user: nat)
    requires Chained(sessions)
    ensures Chained(RevokeAll(sessions, user, |sessions|))
  {
    var r := RevokeAll(sessions, user, |sessions|);
    hide RevokeAll;
    forall k | 0 <= k < |r| ensures Linked(r, k) { assert Linked(sessions, k); }
  }

  /** A session may follow `parent`: a sign-in always, a rotation if it continues a
      revoked session of the same user and expiry that has no child yet. */
  predicate MayFollow(sessions: seq<RefreshSession>, user: nat, parent: Parent, expires: int) {
    parent.RotatedFrom? ==>
      var p := parent.session;
      && p < |sessions| && sessions[p].revoked && !Rotated(sessions, p)
      && sessions[p].user == user && sessions[p].expires == expires
  }

  lemma {:induction false} IssueKeepsInv(s: State, user: nat, parent: Parent, expires: int)
    requires Inv(s) && MayFollow(s.sessions, user, parent, expires)
    ensures Inv(Issue(s, user, parent, expires))
  {
    var next := s.sessions + [RefreshSession(user, parent, expires, false)];
    forall k | 0 <= k < |next| ensures Linked(next, k) { if k < |s.sessions| { assert Linked(s.sessions, k); } }
  }

  /** Consuming an unrevoked session keeps the links and lets a rotation follow. */
  lemma {:induction false} ConsumeKeepsInv(s: State, id: nat)
    requires Inv(s) && id < |s.sessions| && !s.sessions[id].revoked
    ensures Inv(Consumed(s, id))
    ensures MayFollow(Consumed(s, id).sessions, s.sessions[id].user, RotatedFrom(id), s.sessions[id].expires)
  {
    var next := Consumed(s, id).sessions;
    forall k | 0 <= k < |next| ensures Linked(next, k) && next[k].parent != RotatedFrom(id) {
      assert Linked(s.sessions, k);
    }
  }

  lemma {:induction false} StepKeepsInv(s: State, a: Action)
    requires Inv(s)
    ensures Inv(Next(s, a))
  {
    hide Chained, Rotated, RevokeAll, MayFollow, TokensKnown;
    match a {
      case Login(user, expires) =>
        SignInFollows(s.sessions, user, expires);
        IssueKeepsInv(s, user, NoParent, expires);
      case Lookup(token, now, identityOk) =>
        if token < |s.sessions| { FamilyKeepsInv(s, s.sessions[token].user); }
      case Consume(id) =>
        if id < |s.sessions| {
          var t := s.(pending := s.pending - multiset{id});
          FamilyKeepsInv(t, s.sessions[id].user);
          if !s.sessions[id].revoked {
            ConsumeKeepsInv(t, id);
            IssueKeepsInv(Consumed(t, id), s.sessions[id].user, RotatedFrom(id), s.sessions[id].expires);
          }
        }
      case Abandon(id) =>
      case RevokeUser(user) => FamilyKeepsInv(s, user);
    }
  }

  lemma SignInFollows(sessions: seq<RefreshSession>, user: nat, expires: int)
    ensures MayFollow(sessions, user, NoParent, expires)
  {
  }

  lemma FamilyKeepsInv(s: State, user: nat)
    requires Inv(s)
    ensures Inv(RevokeFamily(s, user))
  {
    RevokeKeepsChains(s.sessions, user);
    hide Chained;
  }

  /** The invariant holds after every run, whatever the interleaving. */
  lemma {:induction false} RunKeepsInv(actions: seq<Action>, n: nat)
    requires n <= |actions|
    ensures Inv(Run(Initial(), actions, n))
  {
    hide Inv, Next;
    if n > 0 {
      RunKeepsInv(actions, n - 1);
      StepKeepsInv(Run(Initial(), actions, n - 1), actions[n - 1]);
    } else {
      NothingYet();
    }
  }

  lemma NothingYet()
    ensures Inv(Initial())
  {
  }

  // ---- what each step leaves behind -------------------------------------------------

  /** `t` is `s` with one more session, and one more access token that is the user's and
      carries the epoch the user now has. */
  ghost predicate OneMore(s: State, t: State, row: RefreshSession) {
    && t.sessions == s.sessions + [row]
    && |t.tokens| == |s.tokens| + 1 && t.tokens[..|s.tokens|] == s.tokens
    && t.tokens[|s.tokens|].user == row.user
    && t.tokens[|s.tokens|].epoch == (if row.user in t.epochs then t.epochs[row.user] else 0)
    && t.epochs == s.epochs
  }

  /** A sign-in adds one unrevoked session without parent and one accepted token. */
  lemma SignInGrants(s: State, user: nat, expires: int)
    ensures var t := Next(s, Login(user, expires));
      && OneMore(s, t, RefreshSession(user, NoParent, expires, false))
      && Accepted(t, t.tokens[|s.tokens|]) && t.pending == s.pending
  {
  }

  /** Consuming a usable session revokes it and no other, and adds its one child, with the
      same user and expiry, and one accepted token. */
  lemma RotationGrants(s: State, id: nat)
    requires id in s.pending && id < |s.sessions| && !s.sessions[id].revoked
    ensures var row, t := s.sessions[id], Next(s, Consume(id));
      && OneMore(s.(sessions := s.sessions[id := RefreshSession(row.user, row.parent, row.expires, true)]), t,
                 RefreshSession(row.user, RotatedFrom(id), row.expires, false))
      && Accepted(t, t.tokens[|s.tokens|]) && t.pending == s.pending - multiset{id}
  {
  }

  /** Every session of the user is revoked and otherwise as it was, its epoch is one
      further on, and nothing of any other user has changed. */
  ghost predicate FamilyRevoked(s: State, t: State, user: nat) {
    && |t.sessions| == |s.sessions| && t.tokens == s.tokens
    && (forall k :: 0 <= k < |s.sessions| && s.sessions[k].user == user ==>
          t.sessions[k] == RefreshSession(user, s.sessions[k].parent, s.sessions[k].expires, true))
    && (forall k :: 0 <= k < |s.sessions| && s.sessions[k].user != user ==> t.sessions[k] == s.sessions[k])
    && user in t.epochs && t.epochs[user] == (if user in s.epochs then s.epochs[user] else 0) + 1
    && (forall u :: u != user ==>
          (u in t.epochs <==> u in s.epochs) && (u in s.epochs ==> t.epochs[u] == s.epochs[u]))
  }

  lemma FamilyMeans(s: State, user: nat)
    ensures FamilyRevoked(s, RevokeFamily(s, user), user)
    ensures RevokeFamily(s, user).pending == s.pending
  {
  }

  /** Logout, a rotated token and a lost race revoke the user's family and nothing else. */
  lemma FamilyIsRevoked(s: State, user: nat, token: nat, now: int, identityOk: bool, id: nat)
    ensures FamilyRevoked(s, Next(s, RevokeUser(user)), user)
    ensures token < |s.sessions| && s.sessions[token].revoked &&
            (exists k :: 0 <= k < |s.sessions| && s.sessions[k].parent == RotatedFrom(token)) ==>
      FamilyRevoked(s, Next(s, Lookup(token, now, identityOk)), s.sessions[token].user)
    ensures id in s.pending && id < |s.sessions| && s.sessions[id].revoked ==>
      FamilyRevoked(s, Next(s, Consume(id)), s.sessions[id].user)
  {
    FamilyMeans(s, user);
    if token < |s.sessions| { FamilyMeans(s, s.sessions[token].user); }
    if id < |s.sessions| { FamilyMeans(s.(pending := s.pending - multiset{id}), s.sessions[id].user); }
    hide RevokeAll;
  }

  /** A lookup changes no session and no epoch unless the token was rotated before, and
      registers a refresh exactly if the session is unrevoked, unexpired and in order. */
  lemma LookupMeans(s: State, token: nat, now: int, identityOk: bool)
    requires !(token < |s.sessions| && s.sessions[token].revoked &&
               exists k :: 0 <= k < |s.sessions| && s.sessions[k].parent == RotatedFrom(token))
    ensures var t := Next(s, Lookup(token, now, identityOk));
      && t.sessions == s.sessions && t.epochs == s.epochs && t.tokens == s.tokens
      && t.pending == s.pending +
           if token < |s.sessions| && !s.sessions[token].revoked && now < s.sessions[token].expires && identityOk
           then multiset{token} else multiset{}
  {
    hide RevokeAll;
  }

  // ---- chains -------------------------------------------------------------------------

  /** The sign-in a session descends from. */
  ghost function Root(sessions: seq<RefreshSession>, k: nat): (r: nat)
    requires Chained(sessions) && k < |sessions|
    ensures r <= k
    decreases k
  {
    assert Linked(sessions, k);
    if sessions[k].parent.RotatedFrom? then Root(sessions, sessions[k].parent.session) else k
  }

  /** A session has at most one child, and a session with a child is revoked. */
  lemma OneChild(sessions: seq<RefreshSession>, id: nat, j: nat, k: nat)
    requires Chained(sessions) && j < |sessions| && k < |sessions|
    requires sessions[j].parent == RotatedFrom(id) && sessions[k].parent == RotatedFrom(id)
    ensures j == k && id < |sessions| && sessions[id].revoked
  {
    assert Linked(sessions, k);
  }

  /** Chains do not branch: the next session of an earlier one in the same chain
      exists and is not after the later one. */
  lemma {:induction false} NextInChain(sessions: seq<RefreshSession>, a: nat, b: nat) returns (c: nat)
    requires Chained(sessions) && a < b < |sessions| && Root(sessions, a) == Root(sessions, b)
    ensures a < c <= b && sessions[c].parent == RotatedFrom(a)
    decreases b
  {
    assert Linked(sessions, b);
    var p := sessions[b].parent.session;
    if p == a {
      c := b;
    } else if p > a {
      c := NextInChain(sessions, a, p);
    } else {
      // Impossible: both `b` and some session up to `a` would be children of `p`.
      c := NextInChain(sessions, p, a);
    }
  }

  /** Each chain has at most one unrevoked session. */
  lemma OneLivePerChain(sessions: seq<RefreshSession>, a: nat, b: nat)
    requires Chained(sessions) && a < b < |sessions| && Root(sessions, a) == Root(sessions, b)
    ensures sessions[a].revoked
  {
    var c := NextInChain(sessions, a, b);
    OneChild(sessions, a, c, c);
  }

  /** Every session of a chain has its sign-in's user and expiry. */
  lemma {:induction false} ChainExpiry(sessions: seq<RefreshSession>, k: nat)
    requires Chained(sessions) && k < |sessions|
    ensures sessions[k].expires == sessions[Root(sessions, k)].expires
    ensures sessions[k].user == sessions[Root(sessions, k)].user
    decreases k
  {
    assert Linked(sessions, k);
    if sessions[k].parent.RotatedFrom? { ChainExpiry(sessions, sessions[k].parent.session); }
  }

  // ---- reuse ------------------------------------------------------------------------------

  /** The check of `principal.py`: the token carries the user's current epoch. */
  predicate Accepted(s: State, t: AccessToken) { t.epoch == Epoch(s.epochs, t.user) }

  /** No live session, and every outstanding access token of the user is stale. */
  ghost predicate SignedOut(s: State, user: nat) {
    && (forall k :: 0 <= k < |s.sessions| && s.sessions[k].user == user ==> s.sessions[k].revoked)
    && (forall i :: 0 <= i < |s.tokens| && s.tokens[i].user == user ==> !Accepted(s, s.tokens[i]))
  }

  lemma FamilySignedOut(s: State, user: nat)
    requires TokensKnown(s.tokens, s.epochs)
    ensures SignedOut(RevokeFamily(s, user), user)
  {
  }

  /** Presenting a rotated token signs its user out everywhere, after any run. */
  lemma {:induction false} ReuseSignsOut(actions: seq<Action>, n: nat, s: State, token: nat, now: int, identityOk: bool)
    requires n <= |actions| && s == Run(Initial(), actions, n)
    requires token < |s.sessions| && Rotated(s.sessions, token)
    ensures s.sessions[token].revoked
    ensures SignedOut(Next(s, Lookup(token, now, identityOk)), s.sessions[token].user)
  {
    RunKeepsInv(actions, n);
    hide Run;
    var k :| 0 <= k < |s.sessions| && s.sessions[k].parent == RotatedFrom(token);
    OneChild(s.sessions, token, k, k);
    FamilySignedOut(s, s.sessions[token].user);
  }

  /** So does losing the race: of two refreshes that both found a token usable, the
      second to consume it signs its user out, the first one's new session included. */
  lemma {:induction false} RaceSignsOut(actions: seq<Action>, n: nat, s: State, id: nat)
    requires n <= |actions| && s == Run(Initial(), actions, n)
    requires id < |s.sessions| && s.pending[id] >= 2
    ensures SignedOut(Next(Next(s, Consume(id)), Consume(id)), s.sessions[id].user)
  {
    RunKeepsInv(actions, n);
    StepKeepsInv(s, Consume(id));
    hide Run;
    var t := Next(s, Consume(id));
    FamilySignedOut(t.(pending := t.pending - multiset{id}), s.sessions[id].user);
  }

  lemma {:induction false} TokensOnlyGrow(s: State, a: Action)
    ensures s.tokens <= Next(s, a).tokens
    ensures forall u :: Epoch(s.epochs, u) <= Epoch(Next(s, a).epochs, u)
  {
    hide RevokeAll, Rotated;
  }

  /** A stale access token never becomes acceptable again. */
  lemma {:induction false} StaleForever(s: State, actions: seq<Action>, n: nat, i: nat)
    requires n <= |actions| && i < |s.tokens| && s.tokens[i].epoch < Epoch(s.epochs, s.tokens[i].user)
    ensures var t := Run(s, actions, n);
      && i < |t.tokens| && t.tokens[i] == s.tokens[i]
      && Epoch(s.epochs, s.tokens[i].user) <= Epoch(t.epochs, s.tokens[i].user)
      && !Accepted(t, s.tokens[i])
  {
    hide Next;
    if n > 0 {
      StaleForever(s, actions, n - 1, i);
      TokensOnlyGrow(Run(s, actions, n - 1), actions[n - 1]);
    }
  }

  /** The steps that revoke a user's family. */
  ghost predicate Revokes(s: State, a: Action, user: nat) {
    match a
    case RevokeUser(u) => u == user
    case Lookup(token, _, _) =>
      && token < |s.sessions| && s.sessions[token].user == user && s.sessions[token].revoked
      && exists k :: 0 <= k < |s.sessions| && s.sessions[k].parent == RotatedFrom(token)
    case Consume(id) =>
      id in s.pending && id < |s.sessions| && s.sessions[id].user == user && s.sessions[id].revoked
    case _ => false
  }

  lemma {:induction false} EpochStep(s: State, a: Action, user: nat)
    ensures Epoch(Next(s, a).epochs, user) == Epoch(s.epochs, user) + if Revokes(s, a, user) then 1 else 0
  {
    hide RevokeAll;
  }

  /** An accepted token stays accepted exactly until its user's family is revoked: by a
      logout, by presenting a rotated token or by losing a race. */
  lemma {:induction false} AcceptedUntilRevoked(s: State, actions: seq<Action>, n: nat, i: nat)
    requires n <= |actions| && i < |s.tokens| && Accepted(s, s.tokens[i])
    ensures var t := Run(s, actions, n);
      && i < |t.tokens| && t.tokens[i] == s.tokens[i]
      && (Accepted(t, s.tokens[i]) <==>
            forall k :: 0 <= k < n ==> !Revokes(Run(s, actions, k), actions[k], s.tokens[i].user))
    ensures Epoch(s.epochs, s.tokens[i].user) <= Epoch(Run(s, actions, n).epochs, s.tokens[i].user)
  {
    hide Next, Revokes;
    if n > 0 {
      AcceptedUntilRevoked(s, actions, n - 1, i);
      EpochStep(Run(s, actions, n - 1), actions[n - 1], s.tokens[i].user);
      TokensOnlyGrow(Run(s, actions, n - 1), actions[n - 1]);
    }
  }

  /** A sign-in at the end of any run hands out a token that is accepted until the family
      is revoked. */
  lemma {:induction false} FreshTokenWorks(before: seq<Action>, user: nat, expires: int, after: seq<Action>, s: State,
                                           t: State)
    requires s == Run(Initial(), before, |before|) && t == Next(s, Login(user, expires))
    requires forall k :: 0 <= k < |after| ==> !Revokes(Run(t, after, k), after[k], user)
    ensures |t.tokens| == |s.tokens| + 1 && t.tokens[|s.tokens|].user == user
    ensures Accepted(Run(t, after, |after|), t.tokens[|s.tokens|])
  {
    SignInGrants(s, user, expires);
    hide Run, Revokes, Next;
    AcceptedUntilRevoked(t, after, |after|, |s.tokens|);
  }

  /** Every access token issued before a reuse stays refused in every continuation. */
  lemma {:induction false} ReuseRefusedForever(before: seq<Action>, s: State, token: nat, now: int, identityOk: bool,
                                               after: seq<Action>, i: nat)
    requires s == Run(Initial(), before, |before|)
    requires token < |s.sessions| && Rotated(s.sessions, token)
    requires i < |s.tokens| && s.tokens[i].user == s.sessions[token].user
    ensures !Accepted(Run(Next(s, Lookup(token, now, identityOk)), after, |after|), s.tokens[i])
  {
    ReuseSignsOut(before, |before|, s, token, now, identityOk);
    RunKeepsInv(before, |before|);
    var t := Next(s, Lookup(token, now, identityOk));
    assert t.tokens[i] == s.tokens[i] && !Accepted(t, t.tokens[i]);
    assert t == RevokeFamily(s, s.sessions[token].user);
    StaleForever(t, after, |after|, i);
  }

  /** A lookup lets a refresh go on if and only if the session is known, unrevoked,
      unexpired and its identity still in order. */
  lemma LookupAccepts(s: State, token: nat, now: int, identityOk: bool)
    ensures Next(s, Lookup(token, now, identityOk)).pending != s.pending <==>
      token < |s.sessions| && !s.sessions[token].revoked && now < s.sessions[token].expires && identityOk
  {
    hide RevokeAll, Rotated;
    assert (s.pending + multiset{token})[token] == s.pending[token] + 1;
  }

  /** And it signs the user out if and only if the token was used before. */
  lemma LookupRevokes(actions: seq<Action>, s: State, token: nat, now: int, identityOk: bool)
    requires s == Run(Initial(), actions, |actions|)
    ensures Next(s, Lookup(token, now, identityOk)).epochs != s.epochs <==>
      token < |s.sessions| && Rotated(s.sessions, token)
  {
    RunKeepsInv(actions, |actions|);
    hide Run, RevokeAll;
    if token < |s.sessions| {
      var user := s.sessions[token].user;
      assert Epoch(s.epochs[user := Epoch(s.epochs, user) + 1], user) != Epoch(s.epochs, user);
      if Rotated(s.sessions, token) {
        var k :| 0 <= k < |s.sessions| && s.sessions[k].parent == RotatedFrom(token);
        OneChild(s.sessions, token, k, k);
      }
    }
  }

  // ---- the service ---------------------------------------------------------------------------

  datatype Refresh = Usable(session: nat) | Failed
  datatype Outcome = Rotation(session: nat) | Refused

  class AuthenticationService {
    var sessions: seq<RefreshSession>
    var epochs: map<nat, nat>
    /** Access tokens handed out so far. */
    ghost var tokens: seq<AccessToken>
    /** Refreshes between their lookup and their update. */
    ghost var pending: multiset<nat>

    ghost function Abs(): State
      reads this
    {
      State(sessions, epochs, tokens, pending)
    }

    ghost predicate Valid()
      reads this
    {
      Inv(Abs()) && forall id :: id in pending ==> id < |sessions|
    }

    constructor ()
      ensures Valid() && Abs() == Initial()
    {
      sessions := [];
      epochs := map[];
      tokens := [];
      pending := multiset{};
    }

    method RevokeFamilyOf(user: nat)
      requires Valid()
      modifies this
      ensures Valid() && Abs() == RevokeFamily(old(Abs()), user)
    {
      StepKeepsInv(Abs(), RevokeUser(user));
      hide Inv;
      epochs := epochs[user := Epoch(epochs, user) + 1];
      sessions := RevokeAll(sessions, user, |sessions|);
    }

    /** `_issue_session`: callers pass no parent, or a session they have just consumed. */
    method IssueSession(user: nat, parent: Parent, expires: int)
      requires Valid() && MayFollow(sessions, user, parent, expires)
      modifies this
      ensures Valid() && Abs() == Issue(old(Abs()), user, parent, expires)
    {
      IssueKeepsInv(Abs(), user, parent, expires);
      hide Inv;
      tokens := tokens + [AccessToken(user, Epoch(epochs, user))];
      sessions := sessions + [RefreshSession(user, parent, expires, false)];
    }

    /** A successful login. */
    method SignIn(user: nat, now: int, lifetime: int)
      requires Valid()
      modifies this
      ensures Valid() && Abs() == Next(old(Abs()), Login(user, now + lifetime))
    {
      IssueSession(user, NoParent, now + lifetime);
    }

    /** `logout`. */
    method Logout(user: nat)
      requires Valid()
      modifies this
      ensures Valid() && Abs() == Next(old(Abs()), RevokeUser(user))
    {
      RevokeFamilyOf(user);
    }

    /** The first half of `refresh`: resolve the token and judge what was found. */
    method BeginRefresh(token: nat, now: int, identityOk: bool) returns (r: Refresh)
      requires Valid()
      modifies this
      ensures Valid() && Abs() == Next(old(Abs()), Lookup(token, now, identityOk))
      ensures r.Usable? <==> token < |old(sessions)| && !old(sessions)[token].revoked &&
                             now < old(sessions)[token].expires && identityOk
      ensures r.Usable? ==> r.session == token && token in pending
    {
      hide Inv;
      if token >= |sessions| { return Failed; }
      var row := sessions[token];
      if row.revoked && Rotated(sessions, token) {
        RevokeFamilyOf(row.user);
        return Failed;
      }
      if row.revoked || row.expires <= now || !identityOk { return Failed; }
      PendingDoesNotMatter(Abs(), pending + multiset{token});
      pending := pending + multiset{token};
      r := Usable(token);
    }

    /** The second half: consume the session if it is still unrevoked and rotate it;
        otherwise someone else used the token first. */
    method FinishRefresh(id: nat) returns (r: Outcome)
      requires Valid() && id in pending
      modifies this
      ensures Valid() && Abs() == Next(old(Abs()), Consume(id))
      ensures r.Rotation? <==> !old(sessions)[id].revoked
      ensures r.Rotation? ==> r.session == |old(sessions)| < |sessions| && sessions[r.session].parent == RotatedFrom(id)
    {
      PendingDoesNotMatter(Abs(), pending - multiset{id});
      hide Inv;
      pending := pending - multiset{id};
      var row := sessions[id];
      var consumed := !row.revoked;
      if !consumed {
        RevokeFamilyOf(row.user);
        return Refused;
      }
      ConsumeKeepsInv(Abs(), id);
      sessions := sessions[id := row.(revoked := true)];
      IssueSession(row.user, RotatedFrom(id), row.expires);
      r := Rotation(|sessions| - 1);
    }
  }

  lemma PendingDoesNotMatter(s: State, pending: multiset<nat>)
    requires Inv(s)
    ensures Inv(s.(pending := pending))
  {
  }
}
