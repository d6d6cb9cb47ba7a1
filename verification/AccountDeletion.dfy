/** Account deletion in services/auth-service/src/server.ts: any number of concurrent
    `DELETE /account` calls, each with its unlocked read, its revocation look-up and its
    transaction under a row lock, next to `/validate` and `/refresh`. */
module AccountDeletion {
  import opened Common

  /** A row of auth.users, with the number of its rows in the five credential tables. */
  datatype User = User(email: Option<string>, deleted: bool, credentials: nat)

  /** A row of auth.auth_outbox.  The event id is fresh, so it names the call that made it. */
  datatype OutboxRow = OutboxRow(event: nat, user: nat)

  datatype Phase =
    | Started                  // before the unlocked read of the row
    | Read                     // found the row undeleted; the revocation look-up is next
    | Unlocked                 // about to open the transaction
    | Locked                   // holds the row lock and has seen the row undeleted
    | Committed                // the transaction is committed, the reply not yet sent
    | Accepted                 // replied `accepted`
    | AlreadyDeleted | NotFound | Revoked
    | Failed                   // replied with an error

  datatype Call = Call(user: nat, phase: Phase)

  datatype State = State(users: seq<User>, outbox: seq<OutboxRow>, locks: map<nat, nat>, calls: seq<Call>)

  datatype Event =
    | Register(email: string, credentials: nat)
    | Start(user: nat)
    | ReadRow(c: nat)
    | LookUpRevocation(c: nat, revoked: bool)
    | Lock(c: nat)
    | Commit(c: nat)
    | Abort(c: nat)                          // the transaction fails or the process dies in it
    | Reply(c: nat, cacheInvalidated: bool)  // what follows the commit may still throw

  function Init(): State {
    State([], [], map[], [])
  }

  predicate InPhase(s: State, c: nat, p: Phase) {
    c < |s.calls| && s.calls[c].phase == p
  }

  function Enter(s: State, c: nat, p: Phase): State
    requires c < |s.calls|
  {
    s.(calls := s.calls[c := s.calls[c].(phase := p)])
  }

  /** The erased row that the transaction writes. */
  function Erased(u: User): User {
    User(None, true, 0)
  }

  function Step(s: State, e: Event): State {
    match e
    case Register(email, credentials) => s.(users := s.users + [User(Some(email), false, credentials)])
    case Start(user) => s.(calls := s.calls + [Call(user, Started)])
    case ReadRow(c) =>
      if !InPhase(s, c, Started) then s
      else if s.calls[c].user >= |s.users| then Enter(s, c, NotFound)
      else if s.users[s.calls[c].user].deleted then Enter(s, c, AlreadyDeleted)
      else Enter(s, c, Read)
    case LookUpRevocation(c, revoked) =>
      if !InPhase(s, c, Read) then s else Enter(s, c, if revoked then Revoked else Unlocked)
    case Lock(c) =>
      if !InPhase(s, c, Unlocked) || s.calls[c].user in s.locks then s
      else if s.calls[c].user >= |s.users| then Enter(s, c, NotFound)
      else if s.users[s.calls[c].user].deleted then Enter(s, c, AlreadyDeleted)
      else Enter(s, c, Locked).(locks := s.locks[s.calls[c].user := c])
    case Commit(c) =>
      if !InPhase(s, c, Locked) || s.calls[c].user >= |s.users| then s
      else
        var u := s.calls[c].user;
        // the update repeats the test of the flag; the insert does not
        var users := if s.users[u].deleted then s.users else s.users[u := Erased(s.users[u])];
        Enter(s, c, Committed).(users := users, outbox := s.outbox + [OutboxRow(c, u)], locks := s.locks - {u})
    case Abort(c) =>
      if !InPhase(s, c, Locked) then s else Enter(s, c, Failed).(locks := s.locks - {s.calls[c].user})
    case Reply(c, cacheInvalidated) =>
      if !InPhase(s, c, Committed) then s else Enter(s, c, if cacheInvalidated then Accepted else Failed)
  }

  function Exec(s: State, es: seq<Event>): State {
    if es == [] then s else Step(Exec(s, es[..|es| - 1]), es[|es| - 1])
  }

  function RowsFor(outbox: seq<OutboxRow>, u: nat): nat {
    if outbox == [] then 0
    else RowsFor(outbox[..|outbox| - 1], u) + if outbox[|outbox| - 1].user == u then 1 else 0
  }

  /** A lock is held exactly by a call in its transaction, on a row that is not deleted. */
  ghost predicate LocksHeld(s: State) {
    && (forall c | 0 <= c < |s.calls| && s.calls[c].phase == Locked ::
          s.calls[c].user in s.locks && s.locks[s.calls[c].user] == c)
    && (forall u | u in s.locks :: u < |s.users| && !s.users[u].deleted)
    && (forall u | u in s.locks :: s.locks[u] < |s.calls| && s.calls[s.locks[u]] == Call(u, Locked))
  }

  /** One outbox row per deleted user and none for the others; a deleted row holds no address
      and no credentials. */
  ghost predicate RowsMatch(s: State) {
    && (forall u | 0 <= u < |s.users| :: RowsFor(s.outbox, u) == if s.users[u].deleted then 1 else 0)
    && (forall u | 0 <= u < |s.users| && s.users[u].deleted :: s.users[u].email == None && s.users[u].credentials == 0)
  }

  /** The outbox rows are those of calls that have committed, one each. */
  ghost predicate RowsOwned(s: State) {
    && (forall i | 0 <= i < |s.outbox| :: s.outbox[i].user < |s.users| && s.outbox[i].event < |s.calls|
          && s.calls[s.outbox[i].event].user == s.outbox[i].user
          && s.calls[s.outbox[i].event].phase in {Committed, Accepted, Failed})
    && (forall c | 0 <= c < |s.calls| && s.calls[c].phase in {Committed, Accepted} :: OutboxRow(c, s.calls[c].user) in s.outbox)
  }

  ghost predicate Inv(s: State) {
    LocksHeld(s) && RowsMatch(s) && RowsOwned(s)
  }

  lemma {:induction false} RowOfUser(outbox: seq<OutboxRow>, u: nat, i: nat)
    requires i < |outbox| && outbox[i].user == u
    ensures RowsFor(outbox, u) >= 1
    ensures RowsFor(outbox, u) == 1 ==> forall j | 0 <= j < |outbox| && outbox[j].user == u :: j == i
  {
    var n := |outbox| - 1;
    if i < n {
      RowOfUser(outbox[..n], u, i);
      assert forall j | 0 <= j < n :: outbox[..n][j] == outbox[j];
    } else {
      forall j | 0 <= j < n && outbox[j].user == u ensures RowsFor(outbox, u) > 1 {
        RowOfUser(outbox[..n], u, j);
      }
    }
  }

  lemma {:induction false} NoRows(outbox: seq<OutboxRow>, u: nat)
    requires forall i | 0 <= i < |outbox| :: outbox[i].user != u
    ensures RowsFor(outbox, u) == 0
  {
    if outbox != [] {
      NoRows(outbox[..|outbox| - 1], u);
    }
  }

  /** What a commit writes: the row under the lock is undeleted, so it is erased. */
  lemma CommitEffect(s: State, c: nat)
    requires Inv(s) && InPhase(s, c, Locked)
    ensures var u := s.calls[c].user;
            && u < |s.users| && !s.users[u].deleted
            && Step(s, Commit(c)) == State(s.users[u := User(None, true, 0)], s.outbox + [OutboxRow(c, u)], s.locks - {u},
                                           s.calls[c := Call(u, Committed)])
  {
    assert s.locks[s.calls[c].user] == c;
  }

  lemma {:induction false} RowsForSnoc(outbox: seq<OutboxRow>, r: OutboxRow, u: nat)
    ensures RowsFor(outbox + [r], u) == RowsFor(outbox, u) + if r.user == u then 1 else 0
  {
    assert (outbox + [r])[..|outbox|] == outbox;
  }

  lemma CommitRows(s: State, c: nat, u: nat, t: State)
    requires RowsMatch(s) && u < |s.users| && !s.users[u].deleted
    requires t.users == s.users[u := User(None, true, 0)] && t.outbox == s.outbox + [OutboxRow(c, u)]
    ensures RowsMatch(t)
  {
    forall x | 0 <= x < |t.users| ensures RowsFor(t.outbox, x) == if t.users[x].deleted then 1 else 0 {
      RowsForSnoc(s.outbox, OutboxRow(c, u), x);
    }
  }

  lemma CommitOwners(s: State, c: nat, u: nat, t: State)
    requires RowsOwned(s) && c < |s.calls| && s.calls[c] == Call(u, Locked) && u < |s.users| == |t.users|
    requires t.outbox == s.outbox + [OutboxRow(c, u)] && t.calls == s.calls[c := Call(u, Committed)]
    ensures RowsOwned(t)
  {
    assert forall r :: r in t.outbox <==> r in s.outbox || r == OutboxRow(c, u);
  }

  lemma CommitStep(s: State, c: nat)
    requires Inv(s)
    ensures Inv(Step(s, Commit(c)))
  {
    if InPhase(s, c, Locked) {
      var u := s.calls[c].user;
      var t := Step(s, Commit(c));
      CommitEffect(s, c);
      CommitRows(s, c, u, t);
      CommitOwners(s, c, u, t);
    }
  }

  lemma RegisterStep(s: State, email: string, credentials: nat)
    requires Inv(s)
    ensures Inv(Step(s, Register(email, credentials)))
  {
    NoRows(s.outbox, |s.users|);
  }

  lemma StartStep(s: State, user: nat)
    requires Inv(s)
    ensures Inv(Step(s, Start(user)))
  {
  }

  lemma LockStep(s: State, c: nat)
    requires Inv(s)
    ensures Inv(Step(s, Lock(c)))
  {
    if InPhase(s, c, Unlocked) && s.calls[c].user !in s.locks {
      var u := s.calls[c].user;
      if u < |s.users| && !s.users[u].deleted {
        TakeLock(s, c, u);
      } else {
        EnterStep(s, c, if u >= |s.users| then NotFound else AlreadyDeleted);
      }
    }
  }

  lemma TakeLock(s: State, c: nat, u: nat)
    requires Inv(s) && InPhase(s, c, Unlocked) && u == s.calls[c].user < |s.users| && !s.users[u].deleted && u !in s.locks
    ensures Inv(Enter(s, c, Locked).(locks := s.locks[u := c]))
  {
    var t := Enter(s, c, Locked).(locks := s.locks[u := c]);
    assert forall d | 0 <= d < |s.calls| :: t.calls[d].user == s.calls[d].user;
    assert forall d | 0 <= d < |s.calls| && d != c :: t.calls[d] == s.calls[d];
  }

  lemma AbortStep(s: State, c: nat)
    requires Inv(s)
    ensures Inv(Step(s, Abort(c)))
  {
  }

  /** A change of phase outside the transaction keeps everything. */
  lemma EnterStep(s: State, c: nat, p: Phase)
    requires Inv(s) && c < |s.calls| && s.calls[c].phase != Locked && p != Locked
    requires p == Accepted || p == Committed ==> s.calls[c].phase == Committed
    requires s.calls[c].phase in {Committed, Accepted, Failed} ==> p in {Committed, Accepted, Failed}
    ensures Inv(Enter(s, c, p))
  {
    var t := Enter(s, c, p);
    assert forall d | 0 <= d < |s.calls| :: t.calls[d].user == s.calls[d].user;
  }

  lemma InvStep(s: State, e: Event)
    requires Inv(s)
    ensures Inv(Step(s, e))
  {
    match e
    case Register(email, credentials) => RegisterStep(s, email, credentials);
    case Start(user) => StartStep(s, user);
    case ReadRow(c) =>
      if InPhase(s, c, Started) {
        EnterStep(s, c, Step(s, e).calls[c].phase);
      }
    case LookUpRevocation(c, revoked) =>
      if InPhase(s, c, Read) {
        EnterStep(s, c, if revoked then Revoked else Unlocked);
      }
    case Lock(c) => LockStep(s, c);
    case Commit(c) => CommitStep(s, c);
    case Abort(c) => AbortStep(s, c);
    case Reply(c, cacheInvalidated) =>
      if InPhase(s, c, Committed) {
        EnterStep(s, c, if cacheInvalidated then Accepted else Failed);
      }
  }

  /** In every interleaving: a user has exactly one outbox row if deleted and none otherwise,
      every committed call has its own row, and a row lock protects an undeleted user. */
  lemma {:induction false} InvAlways(es: seq<Event>)
    ensures Inv(Exec(Init(), es))
  {
    if es != [] {
      InvAlways(es[..|es| - 1]);
      InvStep(Exec(Init(), es[..|es| - 1]), es[|es| - 1]);
    }
  }

  /** Each user gets at most one `accepted`, and then the outbox event names that very call. */
  lemma OneAccepted(es: seq<Event>, c: nat, d: nat)
    requires var s := Exec(Init(), es); InPhase(s, c, Accepted) && InPhase(s, d, Accepted) && s.calls[c].user == s.calls[d].user
    ensures c == d
    ensures var s := Exec(Init(), es); var u := s.calls[c].user;
            u < |s.users| && s.users[u].deleted && RowsFor(s.outbox, u) == 1 && OutboxRow(c, u) in s.outbox
  {
    InvAlways(es);
    var s := Exec(Init(), es);
    var u := s.calls[c].user;
    var i :| 0 <= i < |s.outbox| && s.outbox[i] == OutboxRow(c, u);
    var j :| 0 <= j < |s.outbox| && s.outbox[j] == OutboxRow(d, u);
    RowOfUser(s.outbox, u, i);
  }

  ghost predicate Keeps(s: State, t: State) {
    && |s.users| <= |t.users| && s.outbox <= t.outbox
    && forall u | 0 <= u < |s.users| && s.users[u].deleted :: t.users[u] == s.users[u]
  }

  lemma StepKeeps(s: State, e: Event)
    requires Inv(s)
    ensures Keeps(s, Step(s, e))
  {
  }

  /** Nothing is taken back: deleted users stay deleted, outbox rows stay. */
  lemma {:induction false} DeletionIsFinal(s: State, es: seq<Event>)
    requires Inv(s)
    ensures Inv(Exec(s, es)) && Keeps(s, Exec(s, es))
  {
    if es != [] {
      var t := Exec(s, es[..|es| - 1]);
      DeletionIsFinal(s, es[..|es| - 1]);
      InvStep(t, es[|es| - 1]);
      StepKeeps(t, es[|es| - 1]);
    }
  }

  /** After the commit no call ends otherwise than `already_deleted` by reading the row,
      locked or not, and no second outbox row appears. */
  lemma LaterCallsAlreadyDeleted(s: State, es: seq<Event>, c: nat)
    requires Inv(s)
    requires var t := Exec(s, es); c < |t.calls| && t.calls[c].user < |s.users| && s.users[t.calls[c].user].deleted
    ensures var t := Exec(s, es); var u := t.calls[c].user;
            && RowsFor(t.outbox, u) == 1 && u !in t.locks
            && (t.calls[c].phase == Started ==> Step(t, ReadRow(c)).calls[c].phase == AlreadyDeleted)
            && (t.calls[c].phase == Unlocked ==> Step(t, Lock(c)).calls[c].phase == AlreadyDeleted)
            && t.calls[c].phase != Locked
  {
    DeletionIsFinal(s, es);
  }

  /** A call is over once it has its reply. */
  lemma {:induction false} EndedStays(s: State, c: nat, es: seq<Event>)
    requires c < |s.calls| && s.calls[c].phase in {Accepted, AlreadyDeleted, NotFound, Revoked, Failed}
    ensures var t := Exec(s, es); c < |t.calls| && t.calls[c] == s.calls[c]
  {
    if es != [] {
      EndedStays(s, c, es[..|es| - 1]);
    }
  }

  /** In every run: a call whose look-up says revoked ends there and never commits. */
  lemma RevokedNeverCommits(es: seq<Event>, c: nat, fs: seq<Event>)
    requires InPhase(Exec(Init(), es), c, Read)
    ensures var t := Exec(Step(Exec(Init(), es), LookUpRevocation(c, true)), fs);
            InPhase(t, c, Revoked) && forall r | r in t.outbox :: r.event != c
  {
    var s := Exec(Init(), es);
    var u := Step(s, LookUpRevocation(c, true));
    InvAlways(es);
    InvStep(s, LookUpRevocation(c, true));
    EndedStays(u, c, fs);
    DeletionIsFinal(u, fs);
    NoRowOfOther(Exec(u, fs), c);
  }

  lemma NoRowOfOther(t: State, c: nat)
    requires Inv(t) && c < |t.calls| && t.calls[c].phase !in {Committed, Accepted, Failed}
    ensures forall r | r in t.outbox :: r.event != c
  {
  }

  /** The events of a call that nothing disturbs, for the user u and as call number c. */
  function Undisturbed(u: nat, c: nat): seq<Event> {
    [Start(u), ReadRow(c), LookUpRevocation(c, false)] + [Lock(c), Commit(c), Reply(c, true)]
  }

  lemma ExecMore(s: State, es: seq<Event>, t: State, e: Event, u: State)
    requires Exec(s, es) == t && Step(t, e) == u
    ensures Exec(s, es + [e]) == u
  {
    assert (es + [e])[..|es|] == es;
  }

  lemma ExecThree(s: State, es: seq<Event>, t: State, a: Event, ta: State, b: Event, tb: State, c: Event, tc: State)
    requires Exec(s, es) == t && Step(t, a) == ta && Step(ta, b) == tb && Step(tb, c) == tc
    ensures Exec(s, es + [a, b, c]) == tc
  {
    ExecMore(s, es, t, a, ta);
    ExecMore(s, es + [a], ta, b, tb);
    ExecMore(s, es + [a] + [b], tb, c, tc);
    assert es + [a, b, c] == es + [a] + [b] + [c];
  }

  /** The call reads the row, is not revoked, and comes to its transaction. */
  lemma PassesChecks(s: State, u: nat) returns (es: seq<Event>, t: State)
    requires Inv(s) && u < |s.users| && !s.users[u].deleted
    ensures es == [Start(u), ReadRow(|s.calls|), LookUpRevocation(|s.calls|, false)]
    ensures t == Exec(s, es) == s.(calls := s.calls + [Call(u, Unlocked)]) && Inv(t)
  {
    var c := |s.calls|;
    var t1, t2 := s.(calls := s.calls + [Call(u, Started)]), s.(calls := s.calls + [Call(u, Read)]);
    t := s.(calls := s.calls + [Call(u, Unlocked)]);
    assert t1.calls[c := Call(u, Read)] == t2.calls && t2.calls[c := Call(u, Unlocked)] == t.calls;
    InvStep(s, Start(u));
    InvStep(t1, ReadRow(c));
    InvStep(t2, LookUpRevocation(c, false));
    es := [Start(u), ReadRow(c), LookUpRevocation(c, false)];
    ExecThree(s, [], s, Start(u), t1, ReadRow(c), t2, LookUpRevocation(c, false), t);
    assert [] + es == es;
  }

  lemma TakesFreeLock(s: State, u: nat, t: State) returns (l: State)
    requires u < |s.users| && !s.users[u].deleted && u !in s.locks
    requires t == s.(calls := s.calls + [Call(u, Unlocked)]) && Inv(t)
    ensures l == Step(t, Lock(|s.calls|)) && Inv(l)
    ensures l == s.(locks := s.locks[u := |s.calls|], calls := s.calls + [Call(u, Locked)])
  {
    assert t.calls[|s.calls| := Call(u, Locked)] == s.calls + [Call(u, Locked)];
    LockStep(t, |s.calls|);
    l := Step(t, Lock(|s.calls|));
  }

  lemma CommitsOwn(s: State, u: nat, l: State) returns (k: State)
    requires u < |s.users| && u !in s.locks && Inv(l)
    requires l == s.(locks := s.locks[u := |s.calls|], calls := s.calls + [Call(u, Locked)])
    ensures k == Step(l, Commit(|s.calls|))
    ensures k == State(s.users[u := User(None, true, 0)], s.outbox + [OutboxRow(|s.calls|, u)], s.locks, s.calls + [Call(u, Committed)])
  {
    var c := |s.calls|;
    CommitEffect(l, c);
    assert l.calls[c := Call(u, Committed)] == s.calls + [Call(u, Committed)];
    assert l.locks - {u} == s.locks;
    k := Step(l, Commit(c));
  }

  lemma RepliesAccepted(k: State, calls: seq<Call>, u: nat) returns (r: State)
    requires k.calls == calls + [Call(u, Committed)]
    ensures r == Step(k, Reply(|calls|, true)) == k.(calls := calls + [Call(u, Accepted)])
  {
    assert k.calls[|calls| := Call(u, Accepted)] == calls + [Call(u, Accepted)];
    r := Step(k, Reply(|calls|, true));
  }

  /** In any state a run can reach, an undisturbed call for an undeleted user whose row is free
      erases the user, writes its own outbox row and is accepted. */
  lemma UndisturbedIsAccepted(es: seq<Event>, u: nat)
    requires var s := Exec(Init(), es); u < |s.users| && !s.users[u].deleted && u !in s.locks
    ensures var s := Exec(Init(), es); var c := |s.calls|;
            Exec(s, Undisturbed(u, c)) ==
              State(s.users[u := User(None, true, 0)], s.outbox + [OutboxRow(c, u)], s.locks, s.calls + [Call(u, Accepted)])
  {
    InvAlways(es);
    var s := Exec(Init(), es);
    var c := |s.calls|;
    var first, t := PassesChecks(s, u);
    var t4 := TakesFreeLock(s, u, t);
    var t5 := CommitsOwn(s, u, t4);
    var t6 := RepliesAccepted(t5, s.calls, u);
    ExecThree(s, first, t, Lock(c), t4, Commit(c), t5, Reply(c, true), t6);
  }

  /** A call for a deleted user answers `already_deleted` at its first read, and changes
      nothing else whatever it is given to do next. */
  lemma SecondCallAlreadyDeleted(es: seq<Event>, u: nat)
    requires var s := Exec(Init(), es); u < |s.users| && s.users[u].deleted
    ensures var s := Exec(Init(), es);
            Exec(s, Undisturbed(u, |s.calls|)) == s.(calls := s.calls + [Call(u, AlreadyDeleted)])
  {
    var s := Exec(Init(), es);
    var c := |s.calls|;
    var t1, t := s.(calls := s.calls + [Call(u, Started)]), s.(calls := s.calls + [Call(u, AlreadyDeleted)]);
    assert t1.calls[c := Call(u, AlreadyDeleted)] == t.calls;
    var first := [Start(u), ReadRow(c), LookUpRevocation(c, false)];
    ExecThree(s, [], s, Start(u), t1, ReadRow(c), t, LookUpRevocation(c, false), t);
    assert [] + first == first;
    ExecThree(s, first, t, Lock(c), t, Commit(c), t, Reply(c, true), t);
  }

  // ----- `/validate` and `/refresh`

  datatype TokenReply = Good | TokenRevoked | UserNotFound | AccountDeleted

  /** The reply of both endpoints to a well-signed token, given what Redis said about it and
      the state in which the user row is read. */
  function CheckToken(s: State, user: nat, revoked: bool): TokenReply {
    if revoked then TokenRevoked
    else if user >= |s.users| then UserNotFound
    else if s.users[user].deleted then AccountDeleted
    else Good
  }

  /** Each refusal has its own reason, in every state; a revoked token is always refused. */
  lemma RefusalReasons(s: State, user: nat, revoked: bool)
    ensures CheckToken(s, user, revoked) == TokenRevoked <==> revoked
    ensures CheckToken(s, user, revoked) == UserNotFound <==> !revoked && user >= |s.users|
    ensures CheckToken(s, user, revoked) == AccountDeleted <==> !revoked && user < |s.users| && s.users[user].deleted
  {
  }

  /** In every run a token is good exactly when Redis has not revoked it, its user is
      registered, and no deletion of that user has been announced in the outbox. */
  lemma GoodIffNotAnnounced(es: seq<Event>, user: nat, revoked: bool)
    ensures var s := Exec(Init(), es);
            CheckToken(s, user, revoked) == Good <==> !revoked && user < |s.users| && RowsFor(s.outbox, user) == 0
  {
    InvAlways(es);
    RefusalReasons(Exec(Init(), es), user, revoked);
  }

  /** Whatever Redis says, a token is refused by every check whose read follows the commit. */
  lemma RefusedAfterCommit(s: State, c: nat, es: seq<Event>, revoked: bool)
    requires Inv(s) && InPhase(s, c, Locked)
    ensures CheckToken(Exec(Step(s, Commit(c)), es), s.calls[c].user, revoked) != Good
  {
    InvStep(s, Commit(c));
    DeletionIsFinal(Step(s, Commit(c)), es);
  }

  // ----- the handlers on the tables they change

  class AuthDb {
    var users: seq<User>
    var outbox: seq<OutboxRow>
    var locks: map<nat, nat>
    var calls: seq<Call>

    ghost function View(): State
      reads this
    {
      State(users, outbox, locks, calls)
    }

    constructor ()
      ensures View() == Init() && Inv(View())
    {
      users, outbox, locks, calls := [], [], map[], [];
    }

    /** `SELECT .. FOR UPDATE` at the head of the transaction, when the row is free. */
    method LockRow(c: nat)
      requires Inv(View()) && InPhase(View(), c, Unlocked) && calls[c].user !in locks
      modifies this
      ensures Inv(View()) && View() == Step(old(View()), Lock(c))
    {
      InvStep(View(), Lock(c));
      var u := calls[c].user;
      if u >= |users| {
        calls := calls[c := calls[c].(phase := NotFound)];
        return;
      }
      if users[u].deleted {
        calls := calls[c := calls[c].(phase := AlreadyDeleted)];
        return;
      }
      locks := locks[u := c];
      calls := calls[c := calls[c].(phase := Locked)];
    }

    /** The writes of the transaction, and its commit. */
    method EraseAndCommit(c: nat)
      requires Inv(View()) && InPhase(View(), c, Locked)
      modifies this
      ensures Inv(View()) && View() == Step(old(View()), Commit(c))
      ensures users == old(users)[old(calls)[c].user := User(None, true, 0)]
      ensures outbox == old(outbox) + [OutboxRow(c, old(calls)[c].user)]
    {
      ghost var s, t := View(), Step(View(), Commit(c));
      CommitEffect(s, c);
      CommitStep(s, c);
      var u := calls[c].user;
      users := users[u := users[u].(credentials := 0)];
      if !users[u].deleted {
        users := users[u := users[u].(email := None, deleted := true)];
      }
      outbox := outbox + [OutboxRow(c, u)];
      locks := locks - {u};
      calls := calls[c := calls[c].(phase := Committed)];
      assert users == s.users[u := User(None, true, 0)];
      assert View() == t;
    }
  }
}
