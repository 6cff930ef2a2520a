/** Organisation members and invitations in the control plane: role changes, removals, invitations and seats. */
module Membership {
  import opened Options

  datatype Role = Owner | Admin | Member | Auditor

  datatype User = User(org: string, email: string, role: Role)

  datatype Invitation = Invitation(
    org: string, email: string, role: Role, tokenHash: string, inviter: string, expiresAt: int, accepted: bool)

  datatype Tables = Tables(users: map<string, User>, invitations: map<string, Invitation>)

  /** Who sends a request: a signed-in user, or an API key of an organisation. */
  datatype Actor = Session(userId: string) | ApiKey(org: string)

  /** The tenant context; API keys carry no user and no role. */
  datatype Tenant = Tenant(org: string, userId: Option<string>, role: Option<Role>)

  datatype Request =
    | ChangeRole(actor: Actor, org: string, userId: string, role: Role)
    | Remove(actor: Actor, org: string, userId: string)
    | Invite(actor: Actor, org: string, email: string, role: Role, freshId: string, tokenHash: string, now: int)
    | Accept(inviteId: string, tokenHash: string, freshId: string, now: int)
    | RevokeInvite(actor: Actor, org: string, inviteId: string)

  datatype Status = Ok | Error(code: int)

  const INVITATION_LIFETIME := 7 * 24 * 3600

  function TenantOf(t: Tables, a: Actor): Option<Tenant> {
    match a
    case ApiKey(org) => Some(Tenant(org, None, None))
    case Session(id) => if id in t.users then Some(Tenant(t.users[id].org, Some(id), Some(t.users[id].role))) else None
  }

  /** Owners manage anyone, admins manage members and auditors, nobody else manages. */
  predicate ManagesRole(actor: Option<Role>, target: Role) {
    actor == Some(Owner) || (actor == Some(Admin) && target in {Member, Auditor})
  }

  predicate MayInvite(role: Option<Role>) {
    role in {Some(Owner), Some(Admin)}
  }

  ghost function Members(t: Tables, org: string): set<string> {
    set u | u in t.users && t.users[u].org == org
  }

  /** Invitations not yet accepted, expired ones included. */
  ghost function Pending(t: Tables, org: string): set<string> {
    set i | i in t.invitations && t.invitations[i].org == org && !t.invitations[i].accepted
  }

  ghost function SeatsTaken(t: Tables, org: string): nat {
    |Members(t, org)| + |Pending(t, org)|
  }

  predicate Registered(t: Tables, email: string) {
    exists u :: u in t.users && t.users[u].email == email
  }

  /** New rows get new ids. */
  predicate Fresh(t: Tables, r: Request) {
    match r
    case Invite(_, _, _, _, id, _, _) => id !in t.invitations
    case Accept(_, _, id, _) => id !in t.users
    case _ => true
  }

  /** The checks of a request, in the order they are made. */
  ghost function Check(t: Tables, limit: string -> int, r: Request): Status {
    match r
    case ChangeRole(a, org, id, role) =>
      var tenant := TenantOf(t, a);
      if tenant.None? then Error(401)
      else if tenant.value.org != org then Error(403)
      else if id !in t.users || t.users[id].org != org then Error(404)
      else if tenant.value.userId == Some(id) then Error(400)
      else if !ManagesRole(tenant.value.role, t.users[id].role) || !ManagesRole(tenant.value.role, role) then Error(403)
      else Ok
    case Remove(a, org, id) =>
      var tenant := TenantOf(t, a);
      if tenant.None? then Error(401)
      else if tenant.value.org != org then Error(403)
      else if id !in t.users || t.users[id].org != org then Error(404)
      else if tenant.value.userId == Some(id) then Error(400)
      else if !ManagesRole(tenant.value.role, t.users[id].role) then Error(403)
      else Ok
    case Invite(a, org, email, _, _, _, _) =>
      var tenant := TenantOf(t, a);
      if tenant.None? then Error(401)
      else if tenant.value.org != org || !MayInvite(tenant.value.role) || SeatsTaken(t, org) >= limit(org)
        then Error(403)
      else if Registered(t, email) then Error(400)
      else Ok
    case Accept(id, tokenHash, _, now) =>
      if id !in t.invitations then Error(400)
      else
        var i := t.invitations[id];
        if i.tokenHash != tokenHash || i.accepted || i.expiresAt <= now || Registered(t, i.email)
        then Error(400) else Ok
    case RevokeInvite(a, org, id) =>
      var tenant := TenantOf(t, a);
      if tenant.None? then Error(401)
      else if tenant.value.org != org || !MayInvite(tenant.value.role) then Error(403)
      else if id !in t.invitations then Error(404)
      else Ok
  }

  /** What an accepted request does to the tables. */
  function Effect(t: Tables, r: Request): Tables {
    match r
    case ChangeRole(_, _, id, role) =>
      if id in t.users then t.(users := t.users[id := t.users[id].(role := role)]) else t
    case Remove(_, _, id) =>
      Tables(t.users - {id}, map i | i in t.invitations && t.invitations[i].inviter != id :: t.invitations[i])
    case Invite(a, org, email, role, id, tokenHash, now) =>
      if a.Session? then
        t.(invitations := t.invitations[id :=
            Invitation(org, email, role, tokenHash, a.userId, now + INVITATION_LIFETIME, false)])
      else t
    case Accept(id, _, userId, _) =>
      if id in t.invitations then
        var i := t.invitations[id];
        Tables(t.users[userId := User(i.org, i.email, i.role)], t.invitations[id := i.(accepted := true)])
      else t
    case RevokeInvite(_, _, id) => t.(invitations := t.invitations - {id})
  }

  ghost function Step(t: Tables, limit: string -> int, r: Request): Tables {
    if Check(t, limit, r) == Ok then Effect(t, r) else t
  }

  ghost function Run(t: Tables, limit: string -> int, rs: seq<Request>): Tables
    decreases |rs|
  {
    if rs == [] then t else Run(Step(t, limit, rs[0]), limit, rs[1..])
  }

  ghost predicate FreshRun(t: Tables, limit: string -> int, rs: seq<Request>)
    decreases |rs|
  {
    rs == [] || (Fresh(t, rs[0]) && FreshRun(Step(t, limit, rs[0]), limit, rs[1..]))
  }

  // ---- each request, in terms of the stored rows ----

  /** The actor belongs to the organisation: one of its users, or one of its API keys. */
  predicate ActsFor(t: Tables, a: Actor, org: string) {
    match a
    case ApiKey(o) => o == org
    case Session(id) => id in t.users && t.users[id].org == org
  }

  predicate UnknownActor(t: Tables, a: Actor) {
    a.Session? && a.userId !in t.users
  }

  /** An owner, or an administrator dealing with a member or an auditor. */
  predicate Outranks(t: Tables, a: Actor, role: Role) {
    && a.Session? && a.userId in t.users
    && (t.users[a.userId].role == Owner || (t.users[a.userId].role == Admin && role != Owner && role != Admin))
  }

  lemma ChangeRoleExactly(t: Tables, limit: string -> int, a: Actor, org: string, id: string, role: Role)
    ensures var r := ChangeRole(a, org, id, role);
            var known := id in t.users && t.users[id].org == org;
            && Check(t, limit, r)
               == (if UnknownActor(t, a) then Error(401)
                   else if !ActsFor(t, a, org) then Error(403)
                   else if !known then Error(404)
                   else if a == Session(id) then Error(400)
                   else if Outranks(t, a, t.users[id].role) && Outranks(t, a, role) then Ok
                   else Error(403))
            && Step(t, limit, r).invitations == t.invitations
            && Step(t, limit, r).users.Keys == t.users.Keys
            && (forall u :: u in t.users ==>
                  Step(t, limit, r).users[u]
                  == if u == id && Check(t, limit, r) == Ok then User(t.users[u].org, t.users[u].email, role)
                     else t.users[u])
  {
  }

  lemma RemoveExactly(t: Tables, limit: string -> int, a: Actor, org: string, id: string)
    ensures var r := Remove(a, org, id);
            var known := id in t.users && t.users[id].org == org;
            && Check(t, limit, r)
               == (if UnknownActor(t, a) then Error(401)
                   else if !ActsFor(t, a, org) then Error(403)
                   else if !known then Error(404)
                   else if a == Session(id) then Error(400)
                   else if Outranks(t, a, t.users[id].role) then Ok
                   else Error(403))
            && (Check(t, limit, r) != Ok ==> Step(t, limit, r) == t)
            && (Check(t, limit, r) == Ok ==>
                  && Step(t, limit, r).users == t.users - {id}
                  && (forall i :: i in Step(t, limit, r).invitations <==>
                                  i in t.invitations && t.invitations[i].inviter != id)
                  && (forall i :: i in Step(t, limit, r).invitations ==>
                        Step(t, limit, r).invitations[i] == t.invitations[i]))
  {
  }

  /** Seats are counted before the email is looked up; an invitation lives for seven days. */
  lemma CreateInvitationExactly(t: Tables, limit: string -> int, a: Actor, org: string, email: string, role: Role,
                                id: string, tokenHash: string, now: int)
    ensures var r := Invite(a, org, email, role, id, tokenHash, now);
            var members := set u | u in t.users && t.users[u].org == org;
            var open := set i | i in t.invitations && t.invitations[i].org == org && !t.invitations[i].accepted;
            && Check(t, limit, r)
               == (if UnknownActor(t, a) then Error(401)
                   else if !ActsFor(t, a, org) || !Outranks(t, a, Member) then Error(403)
                   else if |members| + |open| >= limit(org) then Error(403)
                   else if exists u :: u in t.users && t.users[u].email == email then Error(400)
                   else Ok)
            && Step(t, limit, r).users == t.users
            && Step(t, limit, r).invitations
               == if Check(t, limit, r) == Ok
                  then t.invitations[id := Invitation(org, email, role, tokenHash, a.userId, now + 604800, false)]
                  else t.invitations
  {
  }

  lemma AcceptExactly(t: Tables, limit: string -> int, id: string, tokenHash: string, userId: string, now: int)
    ensures var r := Accept(id, tokenHash, userId, now);
            var valid := && id in t.invitations && t.invitations[id].tokenHash == tokenHash
                         && !t.invitations[id].accepted && now < t.invitations[id].expiresAt
                         && (forall u :: u in t.users ==> t.users[u].email != t.invitations[id].email);
            && Check(t, limit, r) == (if valid then Ok else Error(400))
            && (!valid ==> Step(t, limit, r) == t)
            && (valid ==>
                  var i := t.invitations[id];
                  && Step(t, limit, r).users == t.users[userId := User(i.org, i.email, i.role)]
                  && Step(t, limit, r).invitations == t.invitations[id := i.(accepted := true)])
  {
  }

  /** The invitation may belong to any organisation. */
  lemma RevokeExactly(t: Tables, limit: string -> int, a: Actor, org: string, id: string)
    ensures var r := RevokeInvite(a, org, id);
            && Check(t, limit, r)
               == (if UnknownActor(t, a) then Error(401)
                   else if !ActsFor(t, a, org) || !Outranks(t, a, Member) then Error(403)
                   else if id !in t.invitations then Error(404)
                   else Ok)
            && Step(t, limit, r).users == t.users
            && Step(t, limit, r).invitations
               == if Check(t, limit, r) == Ok then t.invitations - {id} else t.invitations
  {
  }

  // ---- an organisation keeps an owner ----

  predicate IsOwner(t: Tables, org: string, u: string) {
    u in t.users && t.users[u].org == org && t.users[u].role == Owner
  }

  ghost predicate HasOwner(t: Tables, org: string) {
    exists u :: IsOwner(t, org, u)
  }

  /** An owner stops being one only at the hands of another owner of the organisation, who stays one. */
  lemma OwnerLostToOwner(t: Tables, limit: string -> int, r: Request, org: string, u: string)
    requires Fresh(t, r) && IsOwner(t, org, u) && !IsOwner(Step(t, limit, r), org, u)
    ensures (r.ChangeRole? || r.Remove?) && r.actor.Session? && r.actor.userId != u
    ensures IsOwner(t, org, r.actor.userId) && IsOwner(Step(t, limit, r), org, r.actor.userId)
  {
    assert r.ChangeRole? || r.Remove?;
    assert r.userId == u;
  }

  lemma {:induction false} RunKeepsOwner(t: Tables, limit: string -> int, rs: seq<Request>, org: string)
    requires HasOwner(t, org) && FreshRun(t, limit, rs)
    ensures HasOwner(Run(t, limit, rs), org)
    decreases |rs|
  {
    if rs != [] {
      var u :| IsOwner(t, org, u);
      if !IsOwner(Step(t, limit, rs[0]), org, u) {
        OwnerLostToOwner(t, limit, rs[0], org, u);
      }
      RunKeepsOwner(Step(t, limit, rs[0]), limit, rs[1..], org);
    }
  }

  // ---- seats ----

  lemma SmallerSet(a: set<string>, b: set<string>)
    requires a <= b
    ensures |a| <= |b|
  {
    assert b == a + (b - a);
  }

  lemma Shrinks(t: Tables, d: Tables, org: string)
    requires Members(d, org) <= Members(t, org) && Pending(d, org) <= Pending(t, org)
    ensures SeatsTaken(d, org) <= SeatsTaken(t, org)
  {
    SmallerSet(Members(d, org), Members(t, org));
    SmallerSet(Pending(d, org), Pending(t, org));
  }

  lemma NewUser(t: Tables, d: Tables, id: string, u: User, org: string)
    requires id !in t.users && d.users == t.users[id := u]
    ensures Members(d, org) == Members(t, org) + (if u.org == org then {id} else {}) && id !in Members(t, org)
  {
  }

  lemma NewInvitation(t: Tables, d: Tables, id: string, i: Invitation, org: string)
    requires id !in t.invitations && !i.accepted && d.invitations == t.invitations[id := i]
    ensures Pending(d, org) == Pending(t, org) + (if i.org == org then {id} else {}) && id !in Pending(t, org)
  {
  }

  lemma SettledInvitation(t: Tables, d: Tables, id: string, org: string)
    requires id in t.invitations && !t.invitations[id].accepted
    requires d.invitations == t.invitations[id := t.invitations[id].(accepted := true)]
    ensures Pending(d, org) == Pending(t, org) - {id}
    ensures id in Pending(t, org) <==> t.invitations[id].org == org
  {
  }

  lemma SameUsers(t: Tables, d: Tables, org: string)
    requires d.users == t.users
    ensures Members(d, org) == Members(t, org)
  {
  }

  /** Accepting an invitation turns a pending seat into a member: every organisation's total is conserved. */
  lemma AcceptConservesSeats(t: Tables, limit: string -> int, r: Request, org: string)
    requires r.Accept? && Fresh(t, r)
    ensures SeatsTaken(Step(t, limit, r), org) == SeatsTaken(t, org)
  {
    if Check(t, limit, r) == Ok {
      var d, i := Step(t, limit, r), t.invitations[r.inviteId];
      NewUser(t, d, r.freshId, User(i.org, i.email, i.role), org);
      SettledInvitation(t, d, r.inviteId, org);
    }
  }

  /** A successful invitation takes exactly one seat, of its own organisation. */
  lemma InviteTakesOneSeat(t: Tables, limit: string -> int, r: Request, org: string)
    requires r.Invite? && Fresh(t, r)
    ensures SeatsTaken(Step(t, limit, r), org)
         == SeatsTaken(t, org) + if Check(t, limit, r) == Ok && r.org == org then 1 else 0
  {
    if Check(t, limit, r) == Ok {
      var d := Step(t, limit, r);
      SameUsers(t, d, org);
      NewInvitation(t, d, r.freshId, d.invitations[r.freshId], org);
    }
  }

  /** Within its limit, an organisation stays within it, whatever other organisations do. */
  lemma StepKeepsSeats(t: Tables, limit: string -> int, r: Request, org: string)
    requires Fresh(t, r) && SeatsTaken(t, org) <= limit(org)
    ensures SeatsTaken(Step(t, limit, r), org) <= limit(org)
  {
    match r
    case Accept(_, _, _, _) => AcceptConservesSeats(t, limit, r, org);
    case Invite(_, _, _, _, _, _, _) => InviteTakesOneSeat(t, limit, r, org);
    case _ => Shrinks(t, Step(t, limit, r), org);
  }

  lemma {:induction false} RunKeepsSeats(t: Tables, limit: string -> int, rs: seq<Request>, org: string)
    requires FreshRun(t, limit, rs) && SeatsTaken(t, org) <= limit(org)
    ensures SeatsTaken(Run(t, limit, rs), org) <= limit(org)
    decreases |rs|
  {
    if rs != [] {
      StepKeepsSeats(t, limit, rs[0], org);
      RunKeepsSeats(Step(t, limit, rs[0]), limit, rs[1..], org);
    }
  }

  // ---- emails and open invitations ----

  /** Each email belongs to one user. */
  ghost predicate EmailsUnique(t: Tables) {
    forall u, v :: u in t.users && v in t.users && u != v ==> t.users[u].email != t.users[v].email
  }

  /** Every invitation, open or accepted, was sent by somebody who is still a user of its organisation. */
  ghost predicate InvitersBelong(t: Tables) {
    forall i :: i in t.invitations ==>
      t.invitations[i].inviter in t.users && t.users[t.invitations[i].inviter].org == t.invitations[i].org
  }

  lemma {:induction false} RunKeepsTables(t: Tables, limit: string -> int, rs: seq<Request>)
    requires EmailsUnique(t) && InvitersBelong(t) && FreshRun(t, limit, rs)
    ensures EmailsUnique(Run(t, limit, rs)) && InvitersBelong(Run(t, limit, rs))
    decreases |rs|
  {
    if rs != [] {
      RunKeepsTables(Step(t, limit, rs[0]), limit, rs[1..]);
    }
  }

  // ---- who changes an organisation, and who makes owners ----

  ghost function UsersOf(t: Tables, org: string): map<string, User> {
    map u | u in t.users && t.users[u].org == org :: t.users[u]
  }

  ghost function InvitationsOf(t: Tables, org: string): map<string, Invitation> {
    map i | i in t.invitations && t.invitations[i].org == org :: t.invitations[i]
  }

  /** The actor is a signed-in user of another organisation, an API key of another one, or nobody. */
  predicate FromElsewhere(t: Tables, a: Actor, org: string) {
    TenantOf(t, a).None? || TenantOf(t, a).value.org != org
  }

  /** The actor is a signed-in owner or administrator of the organisation. */
  predicate Manages(t: Tables, a: Actor, org: string) {
    a.Session? && a.userId in t.users && t.users[a.userId].org == org && t.users[a.userId].role in {Owner, Admin}
  }

  lemma RevokedRow(t: Tables, d: Tables, id: string, org: string)
    requires d.invitations == t.invitations - {id}
    ensures InvitationsOf(d, org) != InvitationsOf(t, org) <==> id in InvitationsOf(t, org)
  {
    var before, after := InvitationsOf(t, org), InvitationsOf(d, org);
    assert id !in after;
    if id !in before {
      assert before == after;
    }
  }

  lemma RemovedRows(t: Tables, d: Tables, id: string, org: string)
    requires InvitersBelong(t) && id in t.users && t.users[id].org != org
    requires d.invitations == map i | i in t.invitations && t.invitations[i].inviter != id :: t.invitations[i]
    ensures InvitationsOf(d, org) == InvitationsOf(t, org)
  {
  }

  lemma ForeignKeepsUsers(t: Tables, limit: string -> int, r: Request, org: string)
    requires !r.Accept? && FromElsewhere(t, r.actor, org)
    ensures UsersOf(Step(t, limit, r), org) == UsersOf(t, org)
  {
  }

  /**
   * An actor from elsewhere never changes an organisation's users, and its invitations exactly when the actor is an
   * owner or administrator of the organisation named in the request and revokes, by its id, an invitation of this one.
   */
  lemma ForeignRequest(t: Tables, limit: string -> int, r: Request, org: string)
    requires InvitersBelong(t) && !r.Accept? && Fresh(t, r) && FromElsewhere(t, r.actor, org)
    ensures UsersOf(Step(t, limit, r), org) == UsersOf(t, org)
    ensures InvitationsOf(Step(t, limit, r), org) != InvitationsOf(t, org) <==>
            r.RevokeInvite? && Manages(t, r.actor, r.org) && r.inviteId in InvitationsOf(t, org)
  {
    var d := Step(t, limit, r);
    ForeignKeepsUsers(t, limit, r, org);
    if Check(t, limit, r) == Ok {
      if r.RevokeInvite? {
        RevokedRow(t, d, r.inviteId, org);
      } else if r.Remove? {
        RemovedRows(t, d, r.userId, org);
      }
    }
  }

  /** The same over runs: the condition on inviters holds in every reachable state. */
  lemma ForeignRequestInRun(t: Tables, limit: string -> int, rs: seq<Request>, r: Request, org: string)
    requires EmailsUnique(t) && InvitersBelong(t) && FreshRun(t, limit, rs)
    requires var now := Run(t, limit, rs); !r.Accept? && Fresh(now, r) && FromElsewhere(now, r.actor, org)
    ensures var now := Run(t, limit, rs);
            InvitationsOf(Step(now, limit, r), org) != InvitationsOf(now, org) <==>
            r.RevokeInvite? && Manages(now, r.actor, r.org) && r.inviteId in InvitationsOf(now, org)
  {
    RunKeepsTables(t, limit, rs);
    ForeignRequest(Run(t, limit, rs), limit, r, org);
  }

  /** For instance: the owner of "A" revokes the one invitation of "B". */
  lemma ForeignRevocation(t: Tables, limit: string -> int, r: Request)
    requires t.users == map["a" := User("A", "a@a", Owner), "b" := User("B", "b@b", Owner)]
    requires t.invitations == map["i" := Invitation("B", "c@b", Member, "hash", "b", 10, false)]
    requires r == RevokeInvite(Session("a"), "A", "i")
    ensures EmailsUnique(t) && InvitersBelong(t) && FromElsewhere(t, r.actor, "B")
    ensures "i" in InvitationsOf(t, "B") && InvitationsOf(Step(t, limit, r), "B") == map[]
  {
    assert "A"[0] != "B"[0] && "a@a"[0] != "b@b"[0];
  }

  /**
   * A user becomes an owner of an organisation exactly by an owner's role change or by accepting an invitation for the
   * role.
   */
  lemma NewOwnersExactly(t: Tables, limit: string -> int, r: Request, org: string, u: string)
    requires Fresh(t, r)
    ensures (!IsOwner(t, org, u) && IsOwner(Step(t, limit, r), org, u)) <==>
            Check(t, limit, r) == Ok
            && ((r.ChangeRole? && r.org == org && r.userId == u && r.role == Owner && t.users[u].role != Owner)
                || (r.Accept? && r.freshId == u && t.invitations[r.inviteId].org == org
                    && t.invitations[r.inviteId].role == Owner))
    ensures Check(t, limit, r) == Ok && r.ChangeRole? && r.role == Owner ==>
            r.actor.Session? && IsOwner(t, r.org, r.actor.userId)
  {
  }

  /** When an invitation is created; the invited role plays no part. */
  lemma InviteExactly(t: Tables, limit: string -> int, r: Request)
    requires r.Invite?
    ensures Check(t, limit, r) == Ok <==>
            Manages(t, r.actor, r.org) && SeatsTaken(t, r.org) < limit(r.org) && !Registered(t, r.email)
  {
  }

  /** An invitation and its acceptance in time make a user of any role. */
  lemma InvitationMakesUser(t: Tables, limit: string -> int, r: Request, userId: string, at: int)
    requires r.Invite? && Fresh(t, r) && Check(t, limit, r) == Ok
    requires userId !in t.users && at < r.now + INVITATION_LIFETIME
    ensures var d := Run(t, limit, [r, Accept(r.freshId, r.tokenHash, userId, at)]);
            userId in d.users && d.users[userId] == User(r.org, r.email, r.role)
  {
    var accept := Accept(r.freshId, r.tokenHash, userId, at);
    var rs := [r, accept];
    var invited := Step(t, limit, r);
    assert rs[1..] == [accept] && [accept][1..] == [];
    assert Run(t, limit, rs) == Run(invited, limit, [accept]);
    assert Run(invited, limit, [accept]) == Run(Step(invited, limit, accept), limit, []);
  }

  /** So an administrator, who can change nobody's role to owner, makes an owner in two steps. */
  lemma AdministratorMakesOwner(t: Tables, limit: string -> int, r: Request, userId: string, at: int)
    requires r.Invite? && r.actor.Session? && r.role == Owner && Fresh(t, r)
    requires r.actor.userId in t.users && t.users[r.actor.userId].org == r.org && t.users[r.actor.userId].role == Admin
    requires SeatsTaken(t, r.org) < limit(r.org) && !Registered(t, r.email)
    requires userId !in t.users && at < r.now + INVITATION_LIFETIME
    ensures IsOwner(Run(t, limit, [r, Accept(r.freshId, r.tokenHash, userId, at)]), r.org, userId)
    ensures forall u :: Check(t, limit, ChangeRole(r.actor, r.org, u, Owner)) != Ok
  {
    InviteExactly(t, limit, r);
    InvitationMakesUser(t, limit, r, userId, at);
  }

  // ---- the service object ----

  class MembershipService {
    var users: map<string, User>
    var invitations: map<string, Invitation>

    ghost function State(): Tables
      reads this
    {
      Tables(users, invitations)
    }

    constructor ()
      ensures State() == Tables(map[], map[])
    {
      users, invitations := map[], map[];
    }

    method CurrentTenant(a: Actor) returns (tenant: Option<Tenant>)
      ensures tenant == TenantOf(State(), a)
    {
      match a {
        case ApiKey(org) => return Some(Tenant(org, None, None));
        case Session(id) =>
          if id in users {
            return Some(Tenant(users[id].org, Some(id), Some(users[id].role)));
          }
          return None;
      }
    }

    method ChangeMemberRole(a: Actor, org: string, userId: string, role: Role, ghost limit: string -> int)
      returns (status: Status)
      modifies this
      ensures status == Check(old(State()), limit, ChangeRole(a, org, userId, role))
      ensures State() == Step(old(State()), limit, ChangeRole(a, org, userId, role))
    {
      var tenant := CurrentTenant(a);
      if tenant.None? {
        return Error(401);
      }
      if org != tenant.value.org {
        return Error(403);
      }
      if userId !in users || users[userId].org != org {
        return Error(404);
      }
      if tenant.value.userId == Some(userId) {
        return Error(400);
      }
      if !ManagesRole(tenant.value.role, users[userId].role) {
        return Error(403);
      }
      if !ManagesRole(tenant.value.role, role) {
        return Error(403);
      }
      users := users[userId := users[userId].(role := role)];
      return Ok;
    }

    method RemoveMember(a: Actor, org: string, userId: string, ghost limit: string -> int) returns (status: Status)
      modifies this
      ensures status == Check(old(State()), limit, Remove(a, org, userId))
      ensures State() == Step(old(State()), limit, Remove(a, org, userId))
    {
      var tenant := CurrentTenant(a);
      if tenant.None? {
        return Error(401);
      }
      if org != tenant.value.org {
        return Error(403);
      }
      if userId !in users || users[userId].org != org {
        return Error(404);
      }
      if tenant.value.userId == Some(userId) {
        return Error(400);
      }
      if !ManagesRole(tenant.value.role, users[userId].role) {
        return Error(403);
      }
      invitations := map i | i in invitations && invitations[i].inviter != userId :: invitations[i];
      users := users - {userId};
      return Ok;
    }

    method CreateInvitation(a: Actor, org: string, email: string, role: Role, freshId: string,
                            tokenHash: string, now: int,
                            limit: string -> int) returns (status: Status)
      modifies this
      ensures status == Check(old(State()), limit, Invite(a, org, email, role, freshId, tokenHash, now))
      ensures State() == Step(old(State()), limit, Invite(a, org, email, role, freshId, tokenHash, now))
    {
      var tenant := CurrentTenant(a);
      if tenant.None? {
        return Error(401);
      }
      if tenant.value.org != org {
        return Error(403);
      }
      if !MayInvite(tenant.value.role) {
        return Error(403);
      }
      var userCount := |set u | u in users && users[u].org == org|;
      var inviteCount := |set i | i in invitations && invitations[i].org == org && !invitations[i].accepted|;
      if userCount + inviteCount >= limit(org) {
        return Error(403);
      }
      if Registered(Tables(users, invitations), email) {
        return Error(400);
      }
      invitations := invitations[freshId :=
          Invitation(org, email, role, tokenHash, a.userId, now + INVITATION_LIFETIME, false)];
      return Ok;
    }

    method AcceptInvitation(inviteId: string, tokenHash: string, freshId: string, now: int, ghost limit: string -> int)
      returns (status: Status)
      modifies this
      ensures status == Check(old(State()), limit, Accept(inviteId, tokenHash, freshId, now))
      ensures State() == Step(old(State()), limit, Accept(inviteId, tokenHash, freshId, now))
    {
      if inviteId !in invitations {
        return Error(400);
      }
      var invite := invitations[inviteId];
      if invite.tokenHash != tokenHash || invite.accepted || invite.expiresAt <= now {
        return Error(400);
      }
      if Registered(Tables(users, invitations), invite.email) {
        return Error(400);
      }
      users := users[freshId := User(invite.org, invite.email, invite.role)];
      invitations := invitations[inviteId := invite.(accepted := true)];
      return Ok;
    }

    method RevokeInvitation(a: Actor, org: string, inviteId: string, ghost limit: string -> int)
      returns (status: Status)
      modifies this
      ensures status == Check(old(State()), limit, RevokeInvite(a, org, inviteId))
      ensures State() == Step(old(State()), limit, RevokeInvite(a, org, inviteId))
    {
      var tenant := CurrentTenant(a);
      if tenant.None? {
        return Error(401);
      }
      if tenant.value.org != org {
        return Error(403);
      }
      if !MayInvite(tenant.value.role) {
        return Error(403);
      }
      if inviteId !in invitations {
        return Error(404);
      }
      invitations := invitations - {inviteId};
      return Ok;
    }
  }
}
