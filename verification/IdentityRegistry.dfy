/** Signing identities over time: registration, revocation, signing, and verification of an envelope. */
module IdentityRegistry {
  import opened Options
  import opened Json
  import opened Attestation
  import opened Canonical
  import Utf8

  type Bytes = seq<Utf8.Byte>

  /** Ed25519 and hex decoding as parameters; `verify` is false for every key or signature that does not decode. */
  datatype Signing = Signing(
    publicKey: string -> string,
    isHex: string -> bool,
    fingerprint: string -> string,
    sign: (string, Bytes) -> string,
    verify: (string, string, Bytes) -> bool)

  /** Signatures made with a secret key verify under its public key (RFC 8032 sections 5.1.6 and 5.1.7). */
  ghost predicate SignsCorrectly(c: Signing) {
    forall secret: string, m: Bytes :: c.verify(c.publicKey(secret), c.sign(secret, m), m)
  }

  datatype Status = Active | Revoked

  datatype Identity = Identity(id: string, publicKey: string, status: Status, createdAt: int, revokedAt: Option<int>)

  datatype Envelope = Envelope(event: Json, identityId: string, signature: string, signedAt: int, fingerprint: string)

  datatype StatusAtSigning = WasActive | RevokedAfter | RevokedBefore | Unknown
  datatype VerifyError = NotFound(id: string) | AlreadyRevoked(id: string) | CryptoFailed
  datatype Result = Result(isValid: bool, identityId: string, status: StatusAtSigning, errors: seq<VerifyError>)

  type Registry = map<string, Identity>

  /** Signing refuses revoked identities and undecodable keys; it does not compare the signer with the identity. */
  function MakeEnvelope(c: Signing, event: Json, secret: string, identity: Identity, now: int): Option<Envelope> {
    if identity.status == Revoked || !c.isHex(identity.publicKey) then None
    else Some(Envelope(event, identity.id, c.sign(secret, SignedBytes(event)), now, c.fingerprint(identity.publicKey)))
  }

  function StatusOf(identity: Identity, signedAt: int): StatusAtSigning {
    if identity.status == Revoked && identity.revokedAt.Some? then
      if signedAt > identity.revokedAt.value then RevokedBefore else RevokedAfter
    else WasActive
  }

  /** The verdict of the verifier on a registry as it stands. */
  function Verdict(c: Signing, ids: Registry, e: Envelope): Result {
    if e.identityId !in ids then Result(false, e.identityId, Unknown, [NotFound(e.identityId)])
    else
      var identity := ids[e.identityId];
      var status := StatusOf(identity, e.signedAt);
      var good := c.verify(identity.publicKey, e.signature, SignedBytes(e.event));
      Result(good && status != RevokedBefore, e.identityId, status,
             (if status == RevokedBefore then [AlreadyRevoked(e.identityId)] else [])
             + (if good then [] else [CryptoFailed]))
  }

  // ---- runs ----

  datatype Step = Register(id: string, publicKey: string, at: int) | Revoke(id: string, at: int)

  function Apply(ids: Registry, step: Step): Registry {
    match step
    case Register(id, publicKey, at) => ids[id := Identity(id, publicKey, Active, at, None)]
    case Revoke(id, at) =>
      if id in ids && ids[id].status == Active then ids[id := ids[id].(status := Revoked, revokedAt := Some(at))]
      else ids
  }

  function Run(ids: Registry, steps: seq<Step>): Registry
    decreases |steps|
  {
    if steps == [] then ids else Run(Apply(ids, steps[0]), steps[1..])
  }

  /** The clock never runs backwards from `now` on. */
  ghost predicate Timely(steps: seq<Step>, now: int)
    decreases |steps|
  {
    steps == [] || (now <= steps[0].at && Timely(steps[1..], steps[0].at))
  }

  ghost predicate Reregisters(steps: seq<Step>, id: string) {
    exists s :: s in steps && s.Register? && s.id == id
  }

  lemma ReregistersLater(steps: seq<Step>, id: string)
    requires steps != []
    ensures Reregisters(steps[1..], id) ==> Reregisters(steps, id)
  {
    if s :| s in steps[1..] && s.Register? && s.id == id {
      assert s in steps;
    }
  }

  /** Not revoked strictly before t. */
  ghost predicate TrustedAt(ids: Registry, id: string, t: int) {
    id in ids && (ids[id].status == Revoked && ids[id].revokedAt.Some? ==> t <= ids[id].revokedAt.value)
  }

  lemma {:induction false} TrustLasts(ids: Registry, steps: seq<Step>, id: string, t: int, now: int)
    requires TrustedAt(ids, id, t) && t <= now && Timely(steps, now)
    ensures TrustedAt(Run(ids, steps), id, t)
    ensures !Reregisters(steps, id) ==> Run(ids, steps)[id].publicKey == ids[id].publicKey
    decreases |steps|
  {
    if steps != [] {
      var next := Apply(ids, steps[0]);
      TrustLasts(next, steps[1..], id, t, steps[0].at);
      ReregistersLater(steps, id);
      assert steps[0] in steps;
    }
  }

  ghost predicate RevokedBeforeTime(ids: Registry, id: string, t: int) {
    id in ids && ids[id].status == Revoked && ids[id].revokedAt.Some? && ids[id].revokedAt.value < t
  }

  lemma {:induction false} RevocationLasts(ids: Registry, steps: seq<Step>, id: string, t: int)
    requires RevokedBeforeTime(ids, id, t) && !Reregisters(steps, id)
    ensures RevokedBeforeTime(Run(ids, steps), id, t)
    decreases |steps|
  {
    if steps != [] {
      assert steps[0] in steps;
      ReregistersLater(steps, id);
      RevocationLasts(Apply(ids, steps[0]), steps[1..], id, t);
    }
  }

  /** An envelope dated strictly after a revocation is invalid in every later state, whoever signed it. */
  lemma LateEnvelopeStaysInvalid(c: Signing, ids: Registry, steps: seq<Step>, e: Envelope)
    requires RevokedBeforeTime(ids, e.identityId, e.signedAt) && !Reregisters(steps, e.identityId)
    ensures var r := Verdict(c, Run(ids, steps), e);
            !r.isValid && r.status == RevokedBefore && AlreadyRevoked(e.identityId) in r.errors
  {
    RevocationLasts(ids, steps, e.identityId, e.signedAt);
  }

  // ---- exactly when a late envelope becomes valid again ----

  lemma {:induction false} RunSplit(ids: Registry, a: seq<Step>, b: seq<Step>)
    ensures Run(ids, a + b) == Run(Run(ids, a), b)
    decreases |a|
  {
    if a == [] {
      assert a + b == b;
    } else {
      assert (a + b)[0] == a[0] && (a + b)[1..] == a[1..] + b;
      RunSplit(Apply(ids, a[0]), a[1..], b);
    }
  }

  lemma {:induction false} TimelyFrom(steps: seq<Step>, now: int, k: nat)
    requires Timely(steps, now) && k < |steps|
    ensures now <= steps[k].at && Timely(steps[k + 1..], steps[k].at)
    decreases |steps|
  {
    if k > 0 {
      TimelyFrom(steps[1..], steps[0].at, k - 1);
      assert steps[1..][k..] == steps[k + 1..];
    }
  }

  /** Some revocation of the id among the steps is dated before t. */
  ghost predicate RevokesBefore(steps: seq<Step>, id: string, t: int) {
    exists s :: s in steps && s.Revoke? && s.id == id && s.at < t
  }

  lemma {:induction false} RevokedStays(ids: Registry, steps: seq<Step>, id: string)
    requires id in ids && ids[id].status == Revoked && !Reregisters(steps, id)
    ensures id in Run(ids, steps) && Run(ids, steps)[id] == ids[id]
    decreases |steps|
  {
    if steps != [] {
      assert steps[0] in steps;
      ReregistersLater(steps, id);
      RevokedStays(Apply(ids, steps[0]), steps[1..], id);
    }
  }

  lemma FirstRevocationDecides(steps: seq<Step>, id: string, t: int, now: int)
    requires steps != [] && steps[0] == Revoke(id, steps[0].at) && Timely(steps, now)
    ensures RevokesBefore(steps, id, t) <==> steps[0].at < t
  {
    if s :| s in steps && s.Revoke? && s.id == id && s.at < t {
      var k :| 0 <= k < |steps| && steps[k] == s;
      if k > 0 {
        TimelyFrom(steps[1..], steps[0].at, k - 1);
      }
    }
  }

  lemma RevokesLater(steps: seq<Step>, id: string, t: int)
    requires steps != [] && !(steps[0].Revoke? && steps[0].id == id)
    ensures RevokesBefore(steps, id, t) <==> RevokesBefore(steps[1..], id, t)
  {
    if s :| s in steps && s.Revoke? && s.id == id && s.at < t {
      assert s in steps[1..];
    }
    if s :| s in steps[1..] && s.Revoke? && s.id == id && s.at < t {
      assert s in steps;
    }
  }

  /** An active identity that is not registered again keeps its key, and its first revocation dates it. */
  lemma {:induction false} ActiveRuns(ids: Registry, steps: seq<Step>, id: string, t: int, now: int)
    requires id in ids && ids[id].status == Active && !Reregisters(steps, id) && Timely(steps, now)
    ensures var later := Run(ids, steps);
            && id in later && later[id].publicKey == ids[id].publicKey
            && (RevokedBeforeTime(later, id, t) <==> RevokesBefore(steps, id, t))
    decreases |steps|
  {
    if steps != [] {
      assert steps[0] in steps;
      ReregistersLater(steps, id);
      var next := Apply(ids, steps[0]);
      if steps[0].Revoke? && steps[0].id == id {
        RevokedStays(next, steps[1..], id);
        FirstRevocationDecides(steps, id, t, now);
      } else {
        RevokesLater(steps, id, t);
        ActiveRuns(next, steps[1..], id, t, steps[0].at);
      }
    }
  }

  ghost predicate Revokes(steps: seq<Step>, id: string) {
    exists s :: s in steps && s.Revoke? && s.id == id
  }

  /** An active identity that is not registered again ends up revoked exactly when a step revokes it. */
  lemma RevokedByStep(ids: Registry, steps: seq<Step>, id: string, now: int)
    requires id in ids && ids[id].status == Active && !Reregisters(steps, id) && Timely(steps, now)
    ensures id in Run(ids, steps)
    ensures Run(ids, steps)[id].status == Revoked && Run(ids, steps)[id].revokedAt.Some? <==> Revokes(steps, id)
  {
    ActiveRuns(ids, steps, id, now, now);
    if s :| s in steps && s.Revoke? && s.id == id {
      ActiveRuns(ids, steps, id, s.at + 1, now);
    }
    var later := Run(ids, steps)[id];
    if later.status == Revoked && later.revokedAt.Some? {
      ActiveRuns(ids, steps, id, later.revokedAt.value + 1, now);
    }
  }

  /**
   * Signing for an active identity with a readable key gives an envelope. In every later state, revocations included,
   * it is valid exactly when the id's current key still verifies it; without a second registration of the id, always.
   * Its status then says whether the id has been revoked since.
   */
  lemma HonestEnvelopeStaysValid(c: Signing, ids: Registry, steps: seq<Step>, id: string,
                                 event: Json, secret: string, now: int) returns (e: Envelope)
    requires SignsCorrectly(c) && id in ids && ids[id].id == id && ids[id].publicKey == c.publicKey(secret)
    requires ids[id].status == Active && c.isHex(c.publicKey(secret)) && Timely(steps, now)
    ensures MakeEnvelope(c, event, secret, ids[id], now) == Some(e)
    ensures e.event == event && e.identityId == id && e.signedAt == now
    ensures c.verify(ids[id].publicKey, e.signature, SignedBytes(event))
    ensures e.fingerprint == c.fingerprint(c.publicKey(secret))
    ensures var later := Run(ids, steps);
            && id in later
            && (Verdict(c, later, e).isValid <==> c.verify(later[id].publicKey, e.signature, SignedBytes(event)))
            && (Verdict(c, later, e).status == RevokedAfter
                <==> later[id].status == Revoked && later[id].revokedAt.Some?)
            && Verdict(c, later, e).status in {WasActive, RevokedAfter}
            && (!Reregisters(steps, id) ==>
                  && Verdict(c, later, e) == Result(true, id, Verdict(c, later, e).status, [])
                  && (Verdict(c, later, e).status == RevokedAfter <==> Revokes(steps, id)))
  {
    e := MakeEnvelope(c, event, secret, ids[id], now).value;
    TrustLasts(ids, steps, id, now, now);
    if !Reregisters(steps, id) {
      RevokedByStep(ids, steps, id, now);
    }
  }

  /** Signing refuses exactly the revoked identities and those whose key does not decode. */
  lemma SigningRefusesExactly(c: Signing, event: Json, secret: string, identity: Identity, now: int)
    ensures MakeEnvelope(c, event, secret, identity, now).None?
            <==> identity.status == Revoked || !c.isHex(identity.publicKey)
  {
  }

  /** Step k is the last registration of the id. */
  ghost predicate LastRegistration(steps: seq<Step>, id: string, k: nat) {
    k < |steps| && steps[k].Register? && steps[k].id == id && !Reregisters(steps[k + 1..], id)
  }

  lemma {:induction false} FindLastRegistration(steps: seq<Step>, id: string) returns (k: nat)
    requires Reregisters(steps, id)
    ensures LastRegistration(steps, id, k)
    decreases |steps|
  {
    if Reregisters(steps[1..], id) {
      k := FindLastRegistration(steps[1..], id);
      assert steps[1..][k + 1..] == steps[k + 2..];
      k := k + 1;
    } else {
      var s :| s in steps && s.Register? && s.id == id;
      assert s !in steps[1..];
      k := 0;
    }
  }

  /** Step k registers the envelope's id for the last time, with a key that verifies it,
      and no early revocation follows. */
  ghost predicate RevivedBy(c: Signing, steps: seq<Step>, e: Envelope, k: nat) {
    && LastRegistration(steps, e.identityId, k)
    && c.verify(steps[k].publicKey, e.signature, SignedBytes(e.event))
    && !RevokesBefore(steps[k + 1..], e.identityId, e.signedAt)
  }

  lemma AfterLastRegistration(c: Signing, ids: Registry, steps: seq<Step>, e: Envelope, k: nat, now: int)
    requires LastRegistration(steps, e.identityId, k) && Timely(steps, now)
    ensures Verdict(c, Run(ids, steps), e).isValid <==> RevivedBy(c, steps, e, k)
  {
    var before, after := steps[..k + 1], steps[k + 1..];
    assert steps == before + after && before == steps[..k] + [steps[k]];
    RunSplit(ids, before, after);
    RunSplit(ids, steps[..k], [steps[k]]);
    var mid := Run(ids, steps[..k]);
    assert Run(mid, [steps[k]]) == Apply(mid, steps[k]) by {
      assert [steps[k]][1..] == [];
    }
    TimelyFrom(steps, now, k);
    ActiveRuns(Apply(mid, steps[k]), after, e.identityId, e.signedAt, steps[k].at);
  }

  lemma RegisteredLater(steps: seq<Step>, id: string, k: nat, j: nat)
    requires k < j < |steps| && steps[j].Register? && steps[j].id == id
    ensures Reregisters(steps[k + 1..], id)
  {
    assert steps[k + 1..][j - k - 1] == steps[j];
  }

  lemma LastRegistrationUnique(steps: seq<Step>, id: string, j: nat, k: nat)
    requires LastRegistration(steps, id, j) && LastRegistration(steps, id, k)
    ensures j == k
  {
    if j < k {
      RegisteredLater(steps, id, j, k);
    } else if k < j {
      RegisteredLater(steps, id, k, j);
    }
  }

  /**
   * An envelope dated after a revocation is valid later on exactly when its id is registered again, the key of the
   * last registration verifies it, and no revocation after that registration is dated before the signature.
   */
  lemma LateEnvelopeRevivedExactly(c: Signing, ids: Registry, steps: seq<Step>, e: Envelope, now: int)
    requires RevokedBeforeTime(ids, e.identityId, e.signedAt) && Timely(steps, now)
    ensures Verdict(c, Run(ids, steps), e).isValid <==> exists k: nat :: RevivedBy(c, steps, e, k)
  {
    if Reregisters(steps, e.identityId) {
      var k := FindLastRegistration(steps, e.identityId);
      AfterLastRegistration(c, ids, steps, e, k, now);
      if j: nat :| RevivedBy(c, steps, e, j) {
        LastRegistrationUnique(steps, e.identityId, j, k);
      }
    } else {
      LateEnvelopeStaysInvalid(c, ids, steps, e);
    }
  }

  /** For instance: registering the id again with any key that verifies a late envelope makes it valid. */
  lemma ReregistrationRevives(c: Signing, ids: Registry, e: Envelope, publicKey: string, at: int)
    requires RevokedBeforeTime(ids, e.identityId, e.signedAt)
    requires c.verify(publicKey, e.signature, SignedBytes(e.event))
    ensures !Verdict(c, ids, e).isValid
    ensures Verdict(c, Run(ids, [Register(e.identityId, publicKey, at)]), e).isValid
  {
    var steps := [Register(e.identityId, publicKey, at)];
    assert steps[1..] == [];
    assert RevivedBy(c, steps, e, 0);
    LateEnvelopeRevivedExactly(c, ids, steps, e, at);
  }

  /** Reordering the keys of an event, or giving a datetime as its ISO text, changes nothing in the verdict. */
  lemma VerdictIgnoresEventKeyOrder(c: Signing, ids: Registry, e: Envelope, other: Json)
    requires WellFormed(e.event) && WellFormed(other)
    requires SameEvent(e.event, other)
    ensures Verdict(c, ids, e.(event := other)) == Verdict(c, ids, e)
  {
    SignedBytesDecideEvents(e.event, other);
  }

  // ---- the registry object ----

  class AttestationIdentity {
    const id: string
    const publicKey: string
    const createdAt: int
    var status: Status
    var revokedAt: Option<int>

    constructor (id: string, publicKey: string, now: int)
      ensures Value() == Identity(id, publicKey, Active, now, None)
    {
      this.id, this.publicKey, this.createdAt := id, publicKey, now;
      status, revokedAt := Active, None;
    }

    function Value(): Identity
      reads this
    {
      Identity(id, publicKey, status, createdAt, revokedAt)
    }
  }

  class RegistryStore {
    var identities: map<string, AttestationIdentity>

    constructor ()
      ensures Valid() && View() == map[]
    {
      identities := map[];
    }

    /** Every object is filed under its own id, so no two ids share an object. */
    ghost predicate Valid()
      reads this
    {
      forall k :: k in identities ==> identities[k].id == k
    }

    ghost function View(): Registry
      reads this, identities.Values
    {
      map k | k in identities :: identities[k].Value()
    }

    method RegisterIdentity(publicKey: string, identityId: string, freshId: string, now: int)
      returns (identity: AttestationIdentity)
      requires Valid()
      modifies this
      ensures Valid() && fresh(identity)
      ensures View() == Apply(old(View()), Register(if identityId == "" then freshId else identityId, publicKey, now))
      ensures identity.id == (if identityId == "" then freshId else identityId)
      ensures identity.publicKey == publicKey && identity.createdAt == now
      ensures identity.status == Active && identity.revokedAt == None
      ensures identities == old(identities)[identity.id := identity]
    {
      var id := if identityId == "" then freshId else identityId;
      identity := new AttestationIdentity(id, publicKey, now);
      identities := identities[id := identity];
    }

    method GetIdentity(identityId: string) returns (identity: Option<AttestationIdentity>)
      ensures identity.Some? <==> identityId in View()
      ensures identity.Some? ==> identity.value == identities[identityId]
      ensures identity.Some? ==> identity.value.Value() == View()[identityId]
    {
      identity := if identityId in identities then Some(identities[identityId]) else None;
    }

    method RevokeIdentity(identityId: string, now: int) returns (identity: Option<AttestationIdentity>)
      requires Valid()
      modifies this, identities.Values
      ensures Valid() && identities == old(identities)
      ensures View() == Apply(old(View()), Revoke(identityId, now))
      ensures identity.Some? <==> identityId in identities
      ensures identity.Some? ==> identity.value == identities[identityId] && identity.value.status == Revoked
      ensures identity.Some? ==>
                old(identities[identityId].status) == Active ==> identity.value.revokedAt == Some(now)
      ensures identity.Some? ==>
                old(identities[identityId].status) == Revoked ==>
                identity.value.revokedAt == old(identities[identityId].revokedAt)
      ensures forall k :: k in identities && k != identityId ==> unchanged(identities[k])
    {
      identity := GetIdentity(identityId);
      if identity.None? || identity.value.status == Revoked {
        return;
      }
      identity.value.status := Revoked;
      identity.value.revokedAt := Some(now);
      identities := identities[identityId := identity.value];
    }
  }

  /** The verifier, branch by branch, computes `Verdict` of the registry's current contents. */
  method Verify(c: Signing, registry: RegistryStore, envelope: Envelope) returns (r: Result)
    ensures r == Verdict(c, registry.View(), envelope)
    ensures envelope.identityId !in registry.identities ==>
              r == Result(false, envelope.identityId, Unknown, [NotFound(envelope.identityId)])
    ensures envelope.identityId in registry.identities ==>
              var identity := registry.identities[envelope.identityId];
              var good := c.verify(identity.publicKey, envelope.signature, SignedBytes(envelope.event));
              var dated := identity.status == Revoked && identity.revokedAt.Some?;
              && r.identityId == envelope.identityId
              && (r.isValid <==> good && !(dated && identity.revokedAt.value < envelope.signedAt))
              && (r.status == RevokedBefore <==> dated && identity.revokedAt.value < envelope.signedAt)
              && (r.status == RevokedAfter <==> dated && envelope.signedAt <= identity.revokedAt.value)
              && (r.status == WasActive <==> !dated)
              && r.errors == (if r.status == RevokedBefore then [AlreadyRevoked(envelope.identityId)] else [])
                             + (if good then [] else [CryptoFailed])
  {
    var errors: seq<VerifyError> := [];
    var id := envelope.identityId;
    var found := registry.GetIdentity(id);
    if found.None? {
      errors := errors + [NotFound(id)];
      return Result(false, id, Unknown, errors);
    }
    var identity := found.value;
    var status := Unknown;
    if identity.status == Revoked && identity.revokedAt.Some? {
      if envelope.signedAt > identity.revokedAt.value {
        status := RevokedBefore;
        errors := errors + [AlreadyRevoked(id)];
      } else {
        status := RevokedAfter;
      }
    } else {
      status := WasActive;
    }
    var isValid := false;
    if c.verify(identity.publicKey, envelope.signature, SignedBytes(envelope.event)) {
      isValid := status != RevokedBefore;
    } else {
      errors := errors + [CryptoFailed];
    }
    return Result(isValid, id, status, errors);
  }
}
