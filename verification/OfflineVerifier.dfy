/** The standalone bundle verifier: schema, content hash, signature. SHA-256 and Ed25519 are parameters. */
module OfflineVerifier {
  import opened Options
  import opened Json
  import opened Canonical
  import opened Attestation
  import opened StableSort
  import Utf8

  type Bytes = seq<Utf8.Byte>

  /** Outcome of the signature helper; `Broken` stands for the errors it re-raises. */
  datatype SignatureCheck = Good | Bad | Broken

  datatype Crypto = Crypto(sha256: Bytes -> string, verify: (string, string, Bytes) -> SignatureCheck)

  /** `Crashed` is an exception nobody catches (a non-dictionary bundle or attestation, a malformed key). */
  datatype Verdict = Valid | Invalid | Crashed

  /** Python's `not x`. */
  predicate Falsy(j: Json) {
    match j
    case Null => true
    case Bool(b) => !b
    case Int(n) => n == 0
    case Float(repr) => repr in {"0.0", "-0.0"}
    case Str(s) => s == []
    case Time(_) => false
    case List(items) => items == []
    case Obj(members) => members == []
  }

  predicate Absent(j: Option<Json>) {
    j.None? || Falsy(j.value)
  }

  /** The parts of a bundle the decision looks at. */
  datatype Fields = Fields(recordId: Option<Json>, event: Option<Json>, hash: Option<Json>, chainId: Option<Json>,
                           attestation: Option<Json>)

  function FieldsOf(ms: seq<Member>): Fields {
    Fields(Get(ms, "record_id"), Get(ms, "canonical_event"), Get(ms, "record_hash"), Get(ms, "chain_id"),
           Get(ms, "attestation"))
  }

  /** The decision on a bundle as loaded from its file; the version field only produces a warning. */
  function VerifyBundle(c: Crypto, data: Json): Verdict {
    if !data.Obj? then Crashed else Judge(c, FieldsOf(data.members))
  }

  function Judge(c: Crypto, f: Fields): Verdict {
    if f.recordId.None? || f.event.None? || f.hash.None? || f.chainId.None? then Invalid
    else
      match Canonicalize(f.event.value)
      case None => Crashed
      case Some(bytes) => JudgeBytes(c, f.hash.value, f.attestation, bytes)
  }

  function JudgeBytes(c: Crypto, hash: Json, attestation: Option<Json>, bytes: Bytes): Verdict {
    if Str(c.sha256(bytes)) != hash then Invalid
    else if Absent(attestation) then Valid
    else CheckAttestation(c, attestation.value, bytes)
  }

  function CheckAttestation(c: Crypto, attestation: Json, bytes: Bytes): Verdict {
    if !attestation.Obj? then Crashed
    else
      var key, signature := Get(attestation.members, "public_key"), Get(attestation.members, "signature");
      if Absent(key) || Absent(signature) then Invalid
      else if !key.value.Str? || !signature.value.Str? then Crashed
      else match c.verify(key.value.s, signature.value.s, bytes)
        case Good => Valid
        case Bad => Invalid
        case Broken => Crashed
  }

  /** An unreadable or unparsable file is rejected. */
  function VerifyFile(c: Crypto, text: Option<string>, pad: string): Verdict {
    if text.None? then Invalid
    else
      match Loads(text.value, pad)
      case None => Invalid
      case Some(data) => VerifyBundle(c, data)
  }

  // ---- the three verdicts, field by field ----

  /** Not there, or one of the values that Python's `not` accepts. */
  predicate NothingAt(ms: seq<Member>, key: string) {
    match Get(ms, key)
    case None => true
    case Some(v) => v in {Null, Bool(false), Int(0), Float("0.0"), Float("-0.0"), Str(""), List([]), Obj([])}
  }

  lemma NothingIsAbsent(ms: seq<Member>, key: string)
    ensures NothingAt(ms, key) <==> Absent(Get(ms, key))
  {
  }

  ghost predicate RequiredPresent(ms: seq<Member>) {
    forall key :: key in {"record_id", "canonical_event", "record_hash", "chain_id"} ==> Get(ms, key).Some?
  }

  /** The attestation holds two texts, and the signature helper's answer on them is `answer`. */
  ghost predicate SignatureAnswer(c: Crypto, attestation: Json, bytes: Bytes, answer: SignatureCheck) {
    && attestation.Obj?
    && !NothingAt(attestation.members, "public_key") && !NothingAt(attestation.members, "signature")
    && exists key, signature ::
         && Get(attestation.members, "public_key") == Some(Str(key))
         && Get(attestation.members, "signature") == Some(Str(signature))
         && c.verify(key, signature, bytes) == answer
  }

  /** Neither key nor signature is empty, but one of them is not a text. */
  predicate NotTexts(attestation: Json) {
    && attestation.Obj?
    && !NothingAt(attestation.members, "public_key") && !NothingAt(attestation.members, "signature")
    && !(Get(attestation.members, "public_key").value.Str? && Get(attestation.members, "signature").value.Str?)
  }

  lemma AttestationExactly(c: Crypto, attestation: Json, bytes: Bytes)
    ensures CheckAttestation(c, attestation, bytes) == Valid <==> SignatureAnswer(c, attestation, bytes, Good)
    ensures CheckAttestation(c, attestation, bytes) == Crashed <==>
            !attestation.Obj? || NotTexts(attestation) || SignatureAnswer(c, attestation, bytes, Broken)
  {
    if attestation.Obj? {
      NothingIsAbsent(attestation.members, "public_key");
      NothingIsAbsent(attestation.members, "signature");
    }
  }

  /**
   * Valid: the four required fields are there, the hash is that of the event's bytes, and either nothing is attested or
   * the attested signature is good. Crashed: the event has no bytes, or, behind a right hash, the attestation is
   * malformed or the signature helper breaks. Everything else is Invalid, and a bundle that is no dictionary crashes.
   */
  lemma BundleVerdictExactly(c: Crypto, ms: seq<Member>)
    ensures VerifyBundle(c, Obj(ms)) == Valid <==>
            && RequiredPresent(ms)
            && Canonicalize(Get(ms, "canonical_event").value).Some?
            && var bytes := Canonicalize(Get(ms, "canonical_event").value).value;
               && Get(ms, "record_hash") == Some(Str(c.sha256(bytes)))
               && (NothingAt(ms, "attestation")
                   || SignatureAnswer(c, Get(ms, "attestation").value, bytes, Good))
    ensures VerifyBundle(c, Obj(ms)) == Crashed <==>
            && RequiredPresent(ms)
            && (Canonicalize(Get(ms, "canonical_event").value).None?
                || var bytes := Canonicalize(Get(ms, "canonical_event").value).value;
                   && Get(ms, "record_hash") == Some(Str(c.sha256(bytes)))
                   && !NothingAt(ms, "attestation")
                   && var a := Get(ms, "attestation").value;
                      !a.Obj? || NotTexts(a) || SignatureAnswer(c, a, bytes, Broken))
  {
    RequiredAreThere(ms);
    NothingIsAbsent(ms, "attestation");
    if Get(ms, "canonical_event").Some? && Get(ms, "attestation").Some? {
      var bytes := Canonicalize(Get(ms, "canonical_event").value);
      if bytes.Some? {
        AttestationExactly(c, Get(ms, "attestation").value, bytes.value);
      }
    }
  }

  lemma RequiredAreThere(ms: seq<Member>)
    ensures var f := FieldsOf(ms);
            RequiredPresent(ms) <==> f.recordId.Some? && f.event.Some? && f.hash.Some? && f.chainId.Some?
  {
    if RequiredPresent(ms) {
      assert Get(ms, "record_id").Some? && Get(ms, "canonical_event").Some?;
      assert Get(ms, "record_hash").Some? && Get(ms, "chain_id").Some?;
    }
  }

  lemma OtherInputs(c: Crypto, data: Json, text: string, pad: string)
    ensures !data.Obj? ==> VerifyBundle(c, data) == Crashed
    ensures VerifyFile(c, None, pad) == Invalid
    ensures Loads(text, pad) == None ==> VerifyFile(c, Some(text), pad) == Invalid
    ensures Loads(text, pad) == Some(data) ==> VerifyFile(c, Some(text), pad) == VerifyBundle(c, data)
  {
  }

  // ---- the verdict reads the value, not its layout ----

  lemma GetIsPart(j: Json, key: string)
    requires j.Obj? && WellFormed(j) && Plain(j) && Get(j.members, key).Some?
    ensures WellFormed(Get(j.members, key).value) && Plain(Get(j.members, key).value)
  {
    GetFrom(j.members, key);
  }

  lemma FalsySorted(j: Json)
    ensures Falsy(Norm(j)) == Falsy(j)
  {
  }

  lemma AbsentSorted(j: Option<Json>)
    ensures Absent(NormOption(j)) == Absent(j)
  {
    if j.Some? {
      FalsySorted(j.value);
    }
  }

  lemma CanonicalizeSorted(j: Json)
    requires Plain(j)
    ensures Canonicalize(Norm(j)) == Canonicalize(j)
  {
    NormKeepsPlain(j);
    NormIdempotent(j);
  }

  lemma AttestationSorted(c: Crypto, j: Json, bytes: Bytes)
    requires WellFormed(j)
    ensures CheckAttestation(c, Norm(j), bytes) == CheckAttestation(c, j, bytes)
  {
    if j.Obj? {
      GetSorted(j.members, "public_key");
      GetSorted(j.members, "signature");
      AbsentSorted(Get(j.members, "public_key"));
      AbsentSorted(Get(j.members, "signature"));
    }
  }

  function NormFields(f: Fields): Fields {
    Fields(NormOption(f.recordId), NormOption(f.event), NormOption(f.hash),
           NormOption(f.chainId), NormOption(f.attestation))
  }

  lemma FieldsSorted(ms: seq<Member>)
    requires DistinctKeys(ms)
    ensures FieldsOf(Sort(KeyBefore, NormMembers(ms))) == NormFields(FieldsOf(ms))
  {
    GetSorted(ms, "record_id");
    GetSorted(ms, "canonical_event");
    GetSorted(ms, "record_hash");
    GetSorted(ms, "chain_id");
    GetSorted(ms, "attestation");
  }

  lemma TextSorted(j: Json, t: string)
    ensures Norm(j) == Str(t) <==> j == Str(t)
  {
  }

  lemma JudgeBytesSorted(c: Crypto, hash: Json, attestation: Option<Json>, bytes: Bytes)
    requires attestation.Some? ==> WellFormed(attestation.value)
    ensures JudgeBytes(c, Norm(hash), NormOption(attestation), bytes) == JudgeBytes(c, hash, attestation, bytes)
  {
    TextSorted(hash, c.sha256(bytes));
    AbsentSorted(attestation);
    if attestation.Some? {
      AttestationSorted(c, attestation.value, bytes);
    }
  }

  lemma JudgeSorted(c: Crypto, f: Fields)
    requires f.event.Some? ==> Plain(f.event.value)
    requires f.attestation.Some? ==> WellFormed(f.attestation.value)
    ensures Judge(c, NormFields(f)) == Judge(c, f)
  {
    if f.event.Some? && f.hash.Some? {
      CanonicalizeSorted(f.event.value);
      JudgeBytesSorted(c, f.hash.value, f.attestation, Canonicalize(f.event.value).value);
    }
  }

  lemma BundleSorted(c: Crypto, j: Json)
    requires WellFormed(j) && Plain(j)
    ensures VerifyBundle(c, Norm(j)) == VerifyBundle(c, j)
  {
    if j.Obj? {
      FieldsSorted(j.members);
      if Get(j.members, "canonical_event").Some? {
        GetIsPart(j, "canonical_event");
      }
      if Get(j.members, "attestation").Some? {
        GetIsPart(j, "attestation");
      }
      JudgeSorted(c, FieldsOf(j.members));
    }
  }

  /** Reordering keys anywhere in a bundle never changes its verdict. */
  lemma VerdictIgnoresKeyOrder(c: Crypto, a: Json, b: Json)
    requires WellFormed(a) && WellFormed(b) && Plain(a) && Plain(b) && SameJson(a, b)
    ensures VerifyBundle(c, a) == VerifyBundle(c, b)
  {
    NormDecidesSameness(a, b);
    BundleSorted(c, a);
    BundleSorted(c, b);
  }

  /** A bundle written to a file is judged like the bundle itself. */
  lemma FileVerdict(c: Crypto, bundle: Json, pad: string)
    requires WellFormed(bundle) && Plain(bundle)
    ensures Dumps(bundle, pad).Some?
    ensures VerifyFile(c, Dumps(bundle, pad), pad) == VerifyBundle(c, bundle)
  {
    DumpsReadsBack(bundle, pad);
    BundleSorted(c, bundle);
  }

  // ---- soundness and completeness for exported events ----

  function ExportAttestation(key: string, signature: string): Json {
    Obj([Member("public_key", Str(key)), Member("signature", Str(signature))])
  }

  /** The bundle exported for a signed event. */
  function Export(event: Json, recordId: string, chainId: string, hash: string, key: string, signature: string): Json {
    Bundle(Str(recordId), Str(chainId), NormalizeTimes(event), Str(hash), ExportAttestation(key, signature))
  }

  function Bundle(recordId: Json, chainId: Json, event: Json, hash: Json, attestation: Json): Json {
    Obj([Member("record_id", recordId), Member("chain_id", chainId), Member("canonical_event", event),
         Member("record_hash", hash), Member("attestation", attestation)])
  }

  lemma AttestationFields(key: string, signature: string)
    ensures WellFormed(ExportAttestation(key, signature)) && Plain(ExportAttestation(key, signature))
    ensures Get(ExportAttestation(key, signature).members, "public_key") == Some(Str(key))
    ensures Get(ExportAttestation(key, signature).members, "signature") == Some(Str(signature))
  {
    var ms := ExportAttestation(key, signature).members;
    assert "public_key"[0] != "signature"[0];
    GetAt(ms, 0);
    GetAt(ms, 1);
  }

  lemma DistinctByFirst(ms: seq<Member>)
    requires forall i :: 0 <= i < |ms| ==> |ms[i].key| >= 8
    requires forall i, j :: 0 <= i < j < |ms| ==> ms[i].key[0] != ms[j].key[0] || ms[i].key[7] != ms[j].key[7]
    ensures DistinctKeys(ms)
  {
  }

  lemma BundleKeysDistinct(recordId: Json, chainId: Json, event: Json, hash: Json, attestation: Json)
    ensures DistinctKeys(Bundle(recordId, chainId, event, hash, attestation).members)
  {
    DistinctByFirst(Bundle(recordId, chainId, event, hash, attestation).members);
  }

  lemma BundleIsJson(recordId: Json, chainId: Json, event: Json, hash: Json, attestation: Json)
    requires Plain(recordId) && Plain(chainId) && Plain(event) && Plain(hash) && Plain(attestation)
    requires WellFormed(recordId) && WellFormed(chainId) && WellFormed(event)
             && WellFormed(hash) && WellFormed(attestation)
    ensures var e := Bundle(recordId, chainId, event, hash, attestation); WellFormed(e) && Plain(e)
  {
    BundleKeysDistinct(recordId, chainId, event, hash, attestation);
    ObjectIsPlain(Bundle(recordId, chainId, event, hash, attestation).members);
    ObjectIsWellFormed(Bundle(recordId, chainId, event, hash, attestation).members);
  }

  lemma ExportIsJson(event: Json, recordId: string, chainId: string, hash: string, key: string, signature: string)
    requires WellFormed(event)
    ensures var e := Export(event, recordId, chainId, hash, key, signature); WellFormed(e) && Plain(e)
  {
    NormalizedIsPlain(event);
    AttestationFields(key, signature);
    BundleIsJson(Str(recordId), Str(chainId), NormalizeTimes(event), Str(hash), ExportAttestation(key, signature));
  }

  lemma BundleFields(recordId: Json, chainId: Json, event: Json, hash: Json, attestation: Json)
    ensures FieldsOf(Bundle(recordId, chainId, event, hash, attestation).members)
         == Fields(Some(recordId), Some(event), Some(hash), Some(chainId), Some(attestation))
  {
    var ms := Bundle(recordId, chainId, event, hash, attestation).members;
    BundleKeysDistinct(recordId, chainId, event, hash, attestation);
    GetAt(ms, 0);
    GetAt(ms, 1);
    GetAt(ms, 2);
    GetAt(ms, 3);
    GetAt(ms, 4);
  }

  lemma AttestedJudgement(c: Crypto, hash: string, key: string, signature: string, bytes: Bytes)
    ensures JudgeBytes(c, Str(hash), Some(ExportAttestation(key, signature)), bytes) == Valid <==>
            (hash == c.sha256(bytes) && key != "" && signature != "" && c.verify(key, signature, bytes) == Good)
  {
    AttestationFields(key, signature);
  }

  /**
   * The export of an event verifies from its file exactly when its hash is that of the signed bytes, neither key nor
   * signature is empty, and the signature is good for those bytes: signing before export and checking after it agree
   * on every nested event.
   */
  lemma ExportVerifiesExactly(c: Crypto, event: Json, recordId: string, chainId: string, hash: string,
                              key: string, signature: string, pad: string)
    requires WellFormed(event)
    ensures VerifyFile(c, Dumps(Export(event, recordId, chainId, hash, key, signature), pad), pad) == Valid <==>
            (hash == c.sha256(SignedBytes(event)) && key != "" && signature != ""
             && c.verify(key, signature, SignedBytes(event)) == Good)
  {
    ExportIsJson(event, recordId, chainId, hash, key, signature);
    BundleFields(Str(recordId), Str(chainId), NormalizeTimes(event), Str(hash), ExportAttestation(key, signature));
    FileVerdict(c, Export(event, recordId, chainId, hash, key, signature), pad);
    NormalizedIsPlain(event);
    AttestedJudgement(c, hash, key, signature, SignedBytes(event));
  }

  /** Two accepted bundles with one record hash hold the same event, or exhibit a SHA-256 collision. */
  lemma AcceptedBundlesAgree(c: Crypto, a: Json, b: Json)
    requires WellFormed(a) && WellFormed(b) && Plain(a) && Plain(b)
    requires VerifyBundle(c, a) == Valid && VerifyBundle(c, b) == Valid
    requires Get(a.members, "record_hash") == Get(b.members, "record_hash")
    ensures var ea, eb := Get(a.members, "canonical_event").value, Get(b.members, "canonical_event").value;
            var x, y := Canonicalize(ea), Canonicalize(eb);
            x.Some? && y.Some? && (SameJson(ea, eb) || (x != y && c.sha256(x.value) == c.sha256(y.value)))
  {
    GetIsPart(a, "canonical_event");
    GetIsPart(b, "canonical_event");
    SameBytesSameJson(Get(a.members, "canonical_event").value, Get(b.members, "canonical_event").value);
  }

  /** The same for two accepted files, whatever texts they hold. */
  lemma AcceptedFilesAgree(c: Crypto, s: string, t: string, pad: string)
    requires VerifyFile(c, Some(s), pad) == Valid && VerifyFile(c, Some(t), pad) == Valid
    requires var a, b := Loads(s, pad).value, Loads(t, pad).value;
             a.Obj? && b.Obj? && Get(a.members, "record_hash") == Get(b.members, "record_hash")
    ensures var a, b := Loads(s, pad).value, Loads(t, pad).value;
            var ea, eb := Get(a.members, "canonical_event").value, Get(b.members, "canonical_event").value;
            var x, y := Canonicalize(ea), Canonicalize(eb);
            x.Some? && y.Some? && (SameJson(ea, eb) || (x != y && c.sha256(x.value) == c.sha256(y.value)))
  {
    ReadIsJson(s, pad);
    ReadIsJson(t, pad);
    AcceptedBundlesAgree(c, Loads(s, pad).value, Loads(t, pad).value);
  }
}
