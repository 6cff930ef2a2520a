/** The demonstration hash chain: each record is hashed together with the hash of the one before it. */
module DemoChain {
  import opened Options
  import opened Json
  import opened Canonical

  /** The hashed fields of a record. */
  datatype Record = Record(
    sequence: nat, prevHash: string, system: string, requestId: string, userId: string,
    denied: bool, confidence: string, timestamp: string)

  datatype Risk = High | Medium | Standard

  datatype DemoDecision = DemoDecision(id: string, record: Record, riskLevel: Risk, recordHash: string)

  /**
   * What the generator draws from outside: SHA-256 of a text, the random ids, the clock, and how Python prints
   * the confidence float.
   */
  datatype World = World(
    sha256: string -> string, requestId: nat -> string, decisionId: nat -> string, timeAt: nat -> string,
    confidence: nat -> string)

  const SYSTEMS := ["loan_approval", "fraud_detection", "content_moderation", "credit_scoring"]

  const INPUT_KEYS := ["request_id", "user_id", "timestamp"]
  const OUTPUT_KEYS := ["decision", "confidence", "factors"]
  const RECORD_KEYS := ["sequence", "prev_hash", "system", "input", "output", "timestamp"]

  function InputValues(r: Record): (vs: seq<Json>)
    ensures |vs| == |INPUT_KEYS|
  {
    [Str(r.requestId), Str(r.userId), Str(r.timestamp)]
  }

  function Factors(): Json {
    List([Str("income"), Str("history"), Str("risk_score")])
  }

  function Verdict(denied: bool): string {
    if denied then "denied" else "approved"
  }

  function OutputValues(r: Record): (vs: seq<Json>)
    ensures |vs| == |OUTPUT_KEYS|
  {
    [Str(Verdict(r.denied)), Float(r.confidence), Factors()]
  }

  function RecordValues(r: Record): (vs: seq<Json>)
    ensures |vs| == |RECORD_KEYS|
  {
    [Int(r.sequence), Str(r.prevHash), Str(r.system),
     Object(INPUT_KEYS, InputValues(r)), Object(OUTPUT_KEYS, OutputValues(r)), Str(r.timestamp)]
  }

  function RecordJson(r: Record): Json {
    Object(RECORD_KEYS, RecordValues(r))
  }

  /** `json.dumps(record, sort_keys=True)`; every text in a record is printable ASCII. */
  function RecordText(r: Record): string {
    assert Plain(RecordJson(r)) by { RecordIsJson(r); }
    Dumps(RecordJson(r), " ").value
  }

  function MakeRecord(w: World, i: nat, prevHash: string): Record {
    Record(i + 1, prevHash, SYSTEMS[i % 4], w.requestId(i), "user_" + IntText(1000 + i % 100),
           i % 3 == 0, w.confidence(i % 10), w.timeAt(i))
  }

  function RiskOf(i: nat): Risk {
    if i % 5 == 0 then High else if i % 3 == 0 then Medium else Standard
  }

  /** The last hash so far, "genesis" for an empty chain. */
  function Tip(chain: seq<DemoDecision>): string {
    if chain == [] then "genesis" else chain[|chain| - 1].recordHash
  }

  /** Every record has its hash stored, is numbered consecutively, and holds the hash of the record before it. */
  ghost predicate Linked(h: Record -> string, chain: seq<DemoDecision>)
    decreases |chain|
  {
    chain == [] ||
    var n := |chain| - 1;
    && chain[n].recordHash == h(chain[n].record)
    && chain[n].record.sequence == n + 1
    && chain[n].record.prevHash == Tip(chain[..n])
    && Linked(h, chain[..n])
  }

  /** The hash of a record is SHA-256 of its text. */
  function HashWith(sha256: string -> string): Record -> string {
    r => sha256(RecordText(r))
  }

  ghost predicate IsChain(sha256: string -> string, chain: seq<DemoDecision>) {
    Linked(HashWith(sha256), chain) && Confident(chain)
  }

  /** Every confidence is printed as a float. */
  predicate Confident(chain: seq<DemoDecision>) {
    forall i :: 0 <= i < |chain| ==> IsFloatText(chain[i].record.confidence)
  }

  /** The generated records, in order. */
  ghost predicate Generated(w: World, chain: seq<DemoDecision>) {
    forall i :: 0 <= i < |chain| ==> GeneratedAs(w, i, Tip(chain[..i]), chain[i])
  }

  ghost predicate GeneratedAs(w: World, i: nat, prevHash: string, d: DemoDecision) {
    d.record == MakeRecord(w, i, prevHash) && d.riskLevel == RiskOf(i) && d.id == w.decisionId(i)
  }

  lemma LongerChain(h: Record -> string, chain: seq<DemoDecision>, d: DemoDecision)
    requires Linked(h, chain) && Confident(chain) && IsFloatText(d.record.confidence)
    requires d.record.sequence == |chain| + 1 && d.record.prevHash == Tip(chain) && d.recordHash == h(d.record)
    ensures Linked(h, chain + [d]) && Confident(chain + [d]) && Tip(chain + [d]) == d.recordHash
  {
    assert (chain + [d])[..|chain|] == chain;
  }

  lemma OneMoreGenerated(w: World, chain: seq<DemoDecision>, d: DemoDecision)
    requires Generated(w, chain) && GeneratedAs(w, |chain|, Tip(chain), d)
    ensures Generated(w, chain + [d])
  {
    var longer := chain + [d];
    forall i | 0 <= i < |longer| ensures GeneratedAs(w, i, Tip(longer[..i]), longer[i]) {
      assert longer[..i] == chain[..i];
      if i == |chain| {
        assert chain[..i] == chain;
      } else {
        assert GeneratedAs(w, i, Tip(chain[..i]), chain[i]);
      }
    }
  }

  method GenerateDemoDecisions(w: World, count: int) returns (decisions: seq<DemoDecision>)
    requires forall k: nat :: IsFloatText(w.confidence(k))
    ensures |decisions| == if count < 0 then 0 else count
    ensures IsChain(w.sha256, decisions) && Generated(w, decisions)
  {
    decisions := [];
    var prevHash := "genesis";
    var i := 0;
    while i < count
      invariant 0 <= i && (i <= count || i == 0) && |decisions| == i && prevHash == Tip(decisions)
      invariant Linked(HashWith(w.sha256), decisions) && Generated(w, decisions)
      invariant Confident(decisions)
    {
      var record := MakeRecord(w, i, prevHash);
      var recordHash := w.sha256(RecordText(record));
      var d := DemoDecision(w.decisionId(i), record, RiskOf(i), recordHash);
      LongerChain(HashWith(w.sha256), decisions, d);
      OneMoreGenerated(w, decisions, d);
      decisions := decisions + [d];
      prevHash := recordHash;
      i := i + 1;
    }
  }

  lemma GeneratedDecision(w: World, i: nat, prevHash: string, d: DemoDecision)
    requires GeneratedAs(w, i, prevHash, d)
    ensures var r := d.record;
            && r.sequence == i + 1 && r.prevHash == prevHash
            && r.requestId == w.requestId(i) && r.userId == "user_" + IntText(1000 + i % 100)
            && (r.denied <==> i % 3 == 0) && r.confidence == w.confidence(i % 10) && r.timestamp == w.timeAt(i)
    ensures d.record.system == SYSTEMS[i % 4]
  {
  }

  lemma SystemAt(i: nat)
    ensures SYSTEMS[i % 4] == match i % 4
                              case 0 => "loan_approval"
                              case 1 => "fraud_detection"
                              case 2 => "content_moderation"
                              case _ => "credit_scoring"
  {
  }

  /** What each generated decision holds. */
  lemma GeneratedAt(w: World, chain: seq<DemoDecision>, i: nat)
    requires Generated(w, chain) && i < |chain|
    ensures var r := chain[i].record;
            && r.sequence == i + 1 && r.prevHash == (if i == 0 then "genesis" else chain[i - 1].recordHash)
            && r.requestId == w.requestId(i) && r.userId == "user_" + IntText(1000 + i % 100)
            && (r.denied <==> i % 3 == 0) && r.confidence == w.confidence(i % 10) && r.timestamp == w.timeAt(i)
    ensures chain[i].record.system == match i % 4
                                      case 0 => "loan_approval"
                                      case 1 => "fraud_detection"
                                      case 2 => "content_moderation"
                                      case _ => "credit_scoring"
    ensures chain[i].riskLevel == if i % 5 == 0 then High else if i % 3 == 0 then Medium else Standard
    ensures chain[i].id == w.decisionId(i)
  {
    GeneratedDecision(w, i, Tip(chain[..i]), chain[i]);
    SystemAt(i);
  }

  // ---- the text determines the record ----

  lemma DistinctByTwoLetters(keys: seq<string>)
    requires forall i :: 0 <= i < |keys| ==> |keys[i]| >= 2
    requires forall i, j :: 0 <= i < j < |keys| ==> keys[i][0] != keys[j][0] || keys[i][1] != keys[j][1]
    ensures Distinct(keys)
  {
  }

  lemma KeysDistinct()
    ensures Distinct(INPUT_KEYS) && Distinct(OUTPUT_KEYS) && Distinct(RECORD_KEYS)
  {
    DistinctByTwoLetters(INPUT_KEYS);
    DistinctByTwoLetters(OUTPUT_KEYS);
    DistinctByTwoLetters(RECORD_KEYS);
  }

  lemma FactorsAreJson()
    ensures IsJson(Factors())
  {
  }

  lemma InputIsJson(r: Record)
    ensures IsJson(Object(INPUT_KEYS, InputValues(r)))
  {
    KeysDistinct();
    ObjectOfParts(INPUT_KEYS, InputValues(r));
  }

  lemma OutputIsJson(r: Record)
    ensures Plain(Object(OUTPUT_KEYS, OutputValues(r)))
    ensures IsFloatText(r.confidence) ==> WellFormed(Object(OUTPUT_KEYS, OutputValues(r)))
  {
    KeysDistinct();
    FactorsAreJson();
    ObjectOfParts(OUTPUT_KEYS, OutputValues(r));
  }

  lemma RecordIsJson(r: Record)
    ensures Plain(RecordJson(r))
    ensures IsFloatText(r.confidence) ==> WellFormed(RecordJson(r))
  {
    KeysDistinct();
    InputIsJson(r);
    OutputIsJson(r);
    ObjectOfParts(RECORD_KEYS, RecordValues(r));
  }

  lemma SameInput(a: Record, b: Record)
    requires Norm(Object(INPUT_KEYS, InputValues(a))) == Norm(Object(INPUT_KEYS, InputValues(b)))
    ensures a.requestId == b.requestId && a.userId == b.userId
  {
    KeysDistinct();
    SameValue(INPUT_KEYS, InputValues(a), InputValues(b), 0);
    SameValue(INPUT_KEYS, InputValues(a), InputValues(b), 1);
  }

  lemma SameOutput(a: Record, b: Record)
    requires Norm(Object(OUTPUT_KEYS, OutputValues(a))) == Norm(Object(OUTPUT_KEYS, OutputValues(b)))
    ensures a.denied == b.denied && a.confidence == b.confidence
  {
    KeysDistinct();
    SameValue(OUTPUT_KEYS, OutputValues(a), OutputValues(b), 0);
    SameValue(OUTPUT_KEYS, OutputValues(a), OutputValues(b), 1);
    assert Verdict(true)[0] != Verdict(false)[0];
  }

  lemma SameRecordValue(a: Record, b: Record, i: nat)
    requires Norm(RecordJson(a)) == Norm(RecordJson(b)) && i < 6
    ensures Norm(RecordValues(a)[i]) == Norm(RecordValues(b)[i])
  {
    KeysDistinct();
    SameValue(RECORD_KEYS, RecordValues(a), RecordValues(b), i);
  }

  ghost predicate SameValues(a: Record, b: Record) {
    forall i :: 0 <= i < 6 ==> Norm(RecordValues(a)[i]) == Norm(RecordValues(b)[i])
  }

  lemma SameScalars(a: Record, b: Record)
    requires SameValues(a, b)
    ensures a.sequence == b.sequence && a.prevHash == b.prevHash && a.system == b.system && a.timestamp == b.timestamp
  {
    assert Norm(RecordValues(a)[0]) == Norm(RecordValues(b)[0]) && Norm(RecordValues(a)[1]) == Norm(RecordValues(b)[1]);
    assert Norm(RecordValues(a)[2]) == Norm(RecordValues(b)[2]) && Norm(RecordValues(a)[5]) == Norm(RecordValues(b)[5]);
  }

  lemma SameParts(a: Record, b: Record)
    requires SameValues(a, b)
    ensures Norm(Object(INPUT_KEYS, InputValues(a))) == Norm(Object(INPUT_KEYS, InputValues(b)))
    ensures Norm(Object(OUTPUT_KEYS, OutputValues(a))) == Norm(Object(OUTPUT_KEYS, OutputValues(b)))
  {
    assert Norm(RecordValues(a)[3]) == Norm(RecordValues(b)[3]) && Norm(RecordValues(a)[4]) == Norm(RecordValues(b)[4]);
  }

  lemma SameRecordJson(a: Record, b: Record)
    requires Norm(RecordJson(a)) == Norm(RecordJson(b))
    ensures a == b
  {
    forall i | 0 <= i < 6 ensures Norm(RecordValues(a)[i]) == Norm(RecordValues(b)[i]) {
      SameRecordValue(a, b, i);
    }
    SameRecordOf(a, b);
  }

  lemma SameRecordOf(a: Record, b: Record)
    requires SameValues(a, b)
    ensures a == b
  {
    SameScalars(a, b);
    SameParts(a, b);
    SameInput(a, b);
    SameOutput(a, b);
  }

  lemma ObjectField(keys: seq<string>, values: seq<Json>, i: nat)
    requires |keys| == |values| && Distinct(keys) && i < |keys|
    ensures Get(Norm(Object(keys, values)).members, keys[i]) == Some(Norm(values[i]))
  {
    var ms := Object(keys, values).members;
    ObjectOfParts(keys, values);
    GetSorted(ms, keys[i]);
    GetAt(ms, i);
  }

  /** The members of a parsed text under two keys in turn. */
  function At(j: Option<Json>, key: string): Option<Json> {
    if j.Some? && j.value.Obj? then Get(j.value.members, key) else None
  }

  /** The hashed text is JSON, with a space after each comma and colon, and holds these fields. */
  lemma RecordTextReads(r: Record)
    requires IsFloatText(r.confidence)
    ensures var j := Loads(RecordText(r), " ");
            && j.Some? && KeysAscend(j.value)
            && At(j, "sequence") == Some(Int(r.sequence)) && At(j, "prev_hash") == Some(Str(r.prevHash))
            && At(j, "system") == Some(Str(r.system)) && At(j, "timestamp") == Some(Str(r.timestamp))
            && At(At(j, "input"), "request_id") == Some(Str(r.requestId))
            && At(At(j, "input"), "user_id") == Some(Str(r.userId))
            && At(At(j, "input"), "timestamp") == Some(Str(r.timestamp))
            && At(At(j, "output"), "decision") == Some(Str(if r.denied then "denied" else "approved"))
            && At(At(j, "output"), "confidence") == Some(Float(r.confidence))
            && At(At(j, "output"), "factors") == Some(List([Str("income"), Str("history"), Str("risk_score")]))
  {
    RecordIsJson(r);
    KeysDistinct();
    DumpsReadsBack(RecordJson(r), " ");
    NormAscends(RecordJson(r));
    RecordFields(r);
    InputFields(r);
    OutputFields(r);
  }

  lemma RecordFields(r: Record)
    ensures var j := Some(Norm(RecordJson(r)));
            && At(j, "sequence") == Some(Int(r.sequence)) && At(j, "prev_hash") == Some(Str(r.prevHash))
            && At(j, "system") == Some(Str(r.system)) && At(j, "timestamp") == Some(Str(r.timestamp))
            && At(j, "input") == Some(Norm(Object(INPUT_KEYS, InputValues(r))))
            && At(j, "output") == Some(Norm(Object(OUTPUT_KEYS, OutputValues(r))))
  {
    KeysDistinct();
    ObjectField(RECORD_KEYS, RecordValues(r), 0);
    ObjectField(RECORD_KEYS, RecordValues(r), 1);
    ObjectField(RECORD_KEYS, RecordValues(r), 2);
    ObjectField(RECORD_KEYS, RecordValues(r), 3);
    ObjectField(RECORD_KEYS, RecordValues(r), 4);
    ObjectField(RECORD_KEYS, RecordValues(r), 5);
  }

  lemma InputFields(r: Record)
    ensures var j := Some(Norm(Object(INPUT_KEYS, InputValues(r))));
            && At(j, "request_id") == Some(Str(r.requestId)) && At(j, "user_id") == Some(Str(r.userId))
            && At(j, "timestamp") == Some(Str(r.timestamp))
  {
    KeysDistinct();
    ObjectField(INPUT_KEYS, InputValues(r), 0);
    ObjectField(INPUT_KEYS, InputValues(r), 1);
    ObjectField(INPUT_KEYS, InputValues(r), 2);
  }

  lemma OutputFields(r: Record)
    ensures var j := Some(Norm(Object(OUTPUT_KEYS, OutputValues(r))));
            && At(j, "decision") == Some(Str(if r.denied then "denied" else "approved"))
            && At(j, "confidence") == Some(Float(r.confidence))
            && At(j, "factors") == Some(List([Str("income"), Str("history"), Str("risk_score")]))
  {
    KeysDistinct();
    ObjectField(OUTPUT_KEYS, OutputValues(r), 0);
    ObjectField(OUTPUT_KEYS, OutputValues(r), 1);
    ObjectField(OUTPUT_KEYS, OutputValues(r), 2);
    FactorsStay(Factors());
  }

  lemma FactorsStay(j: Json)
    requires j == Factors()
    ensures Norm(j) == j
  {
    var items := j.items;
    forall i | 0 <= i < |items| ensures NormItems(items)[i] == items[i] {
      assert items[i].Str?;
    }
    assert NormItems(items) == items;
  }

  /** Two records with the same hashed text are the same record. */
  lemma RecordTextInjective(a: Record, b: Record)
    requires IsFloatText(a.confidence) && IsFloatText(b.confidence) && RecordText(a) == RecordText(b)
    ensures a == b
  {
    RecordIsJson(a);
    RecordIsJson(b);
    DumpsReadsBack(RecordJson(a), " ");
    DumpsReadsBack(RecordJson(b), " ");
    SameRecordJson(a, b);
  }

  /** Some record of a and another one of b differ but share their hash. */
  ghost predicate Clash(h: Record -> string, a: seq<DemoDecision>, b: seq<DemoDecision>) {
    exists i, j :: 0 <= i < |a| && 0 <= j < |b| && a[i].record != b[j].record && h(a[i].record) == h(b[j].record)
  }

  lemma ClashInPrefix(h: Record -> string, a: seq<DemoDecision>, b: seq<DemoDecision>, m: nat, n: nat)
    requires m <= |a| && n <= |b| && Clash(h, a[..m], b[..n])
    ensures Clash(h, a, b)
  {
    var i, j :| 0 <= i < m && 0 <= j < n && a[..m][i].record != b[..n][j].record
               && h(a[..m][i].record) == h(b[..n][j].record);
    assert a[i] == a[..m][i] && b[j] == b[..n][j];
  }

  ghost predicate SameRecords(a: seq<DemoDecision>, b: seq<DemoDecision>) {
    |a| == |b| && forall i :: 0 <= i < |a| ==> a[i].record == b[i].record
  }

  lemma SameRecordsLonger(a: seq<DemoDecision>, b: seq<DemoDecision>, m: nat)
    requires |a| == |b| == m + 1 && SameRecords(a[..m], b[..m]) && a[m].record == b[m].record
    ensures SameRecords(a, b)
  {
    forall i | 0 <= i < m ensures a[i].record == b[i].record {
      assert a[..m][i].record == b[..m][i].record;
    }
  }

  lemma {:induction false} SameTipSameRecords(h: Record -> string, a: seq<DemoDecision>, b: seq<DemoDecision>)
    requires a != [] && b != [] && Linked(h, a) && Linked(h, b) && Tip(a) == Tip(b)
    ensures Clash(h, a, b) || SameRecords(a, b)
    decreases |a|
  {
    var m, n := |a| - 1, |b| - 1;
    if a[m].record == b[n].record {
      if m > 0 {
        SameTipSameRecords(h, a[..m], b[..n]);
        if Clash(h, a[..m], b[..n]) {
          ClashInPrefix(h, a, b, m, n);
        } else {
          SameRecordsLonger(a, b, m);
        }
      }
    } else {
      assert h(a[m].record) == h(b[n].record);
    }
  }

  ghost predicate HasCollision(sha256: string -> string, a: seq<DemoDecision>, b: seq<DemoDecision>) {
    exists i, j :: 0 <= i < |a| && 0 <= j < |b| && Collision(sha256, RecordText(a[i].record), RecordText(b[j].record))
  }

  ghost predicate Collision(sha256: string -> string, s: string, t: string) {
    s != t && sha256(s) == sha256(t)
  }

  /**
   * Two chains with the same last hash have the same length and agree on every hashed field, or the texts of two
   * of their records are a SHA-256 collision.
   */
  lemma SameTipSameChain(sha256: string -> string, a: seq<DemoDecision>, b: seq<DemoDecision>)
    requires a != [] && b != [] && IsChain(sha256, a) && IsChain(sha256, b) && Tip(a) == Tip(b)
    ensures HasCollision(sha256, a, b) || SameRecords(a, b)
  {
    var h := HashWith(sha256);
    SameTipSameRecords(h, a, b);
    if Clash(h, a, b) {
      var i, j :| 0 <= i < |a| && 0 <= j < |b| && a[i].record != b[j].record && h(a[i].record) == h(b[j].record);
      if RecordText(a[i].record) == RecordText(b[j].record) {
        RecordTextInjective(a[i].record, b[j].record);
      }
      assert Collision(sha256, RecordText(a[i].record), RecordText(b[j].record));
    }
  }

  // ---- the exported proof ----

  datatype ProofEntry = ProofEntry(id: string, sequence: nat, hash: string, prevHash: string)

  datatype Proof = Proof(recordCount: nat, firstHash: string, lastHash: string, decisions: seq<ProofEntry>)

  function ExportProof(chain: seq<DemoDecision>): Proof
    requires chain != []
  {
    Proof(|chain|, chain[0].recordHash, chain[|chain| - 1].recordHash, ProofEntries(chain))
  }

  function ProofEntries(chain: seq<DemoDecision>): (r: seq<ProofEntry>)
    ensures |r| == |chain| && forall i :: 0 <= i < |chain| ==> r[i] == EntryOf(chain[i])
  {
    if chain == [] then [] else ProofEntries(chain[..|chain| - 1]) + [EntryOf(chain[|chain| - 1])]
  }

  function EntryOf(d: DemoDecision): ProofEntry {
    ProofEntry(d.id, d.record.sequence, d.recordHash, d.record.prevHash)
  }

  /** The proof lists the decisions in order, each by its id, number, hash and previous hash. */
  lemma ProofExactly(chain: seq<DemoDecision>, i: nat)
    requires i < |chain|
    ensures var p := ExportProof(chain);
            && p.recordCount == |p.decisions| == |chain|
            && p.firstHash == p.decisions[0].hash && p.lastHash == p.decisions[|chain| - 1].hash
            && p.decisions[i].id == chain[i].id && p.decisions[i].sequence == chain[i].record.sequence
            && p.decisions[i].hash == chain[i].recordHash && p.decisions[i].prevHash == chain[i].record.prevHash
  {
  }

  lemma {:induction false} LinkedAt(h: Record -> string, chain: seq<DemoDecision>, i: nat)
    requires Linked(h, chain) && i < |chain|
    ensures chain[i].recordHash == h(chain[i].record)
    ensures chain[i].record.sequence == i + 1
    ensures chain[i].record.prevHash == if i == 0 then "genesis" else chain[i - 1].recordHash
    decreases |chain|
  {
    var n := |chain| - 1;
    if i < n {
      LinkedAt(h, chain[..n], i);
    }
  }

  lemma EntriesLinkUp(h: Record -> string, chain: seq<DemoDecision>, i: nat)
    requires Linked(h, chain) && i < |chain|
    ensures EntryOf(chain[i]).sequence == i + 1
    ensures EntryOf(chain[i]).prevHash == if i == 0 then "genesis" else EntryOf(chain[i - 1]).hash
  {
    LinkedAt(h, chain, i);
  }

  lemma EntriesAgree(h: Record -> string, a: seq<DemoDecision>, b: seq<DemoDecision>, i: nat)
    requires Linked(h, a) && Linked(h, b) && SameRecords(a, b) && i < |a|
    ensures a[i].recordHash == b[i].recordHash
  {
    LinkedAt(h, a, i);
    LinkedAt(h, b, i);
  }

  /** An exported proof can be checked link by link from its own entries, without the records. */
  lemma ProofLinksUp(sha256: string -> string, chain: seq<DemoDecision>, i: nat)
    requires chain != [] && IsChain(sha256, chain) && i < |chain|
    ensures var ds := ExportProof(chain).decisions;
            ds[i].sequence == i + 1 && ds[i].prevHash == if i == 0 then "genesis" else ds[i - 1].hash
  {
    EntriesLinkUp(HashWith(sha256), chain, i);
  }

  /**
   * The last hash of an exported proof fixes the rest of it but for the random ids: count, first hash, and every
   * hash, link and sequence number, unless a SHA-256 collision can be exhibited.
   */
  lemma LastHashFixesProof(sha256: string -> string, a: seq<DemoDecision>, b: seq<DemoDecision>)
    requires a != [] && b != [] && IsChain(sha256, a) && IsChain(sha256, b)
    requires ExportProof(a).lastHash == ExportProof(b).lastHash
    ensures HasCollision(sha256, a, b) ||
            var p, q := ExportProof(a), ExportProof(b);
            && p.recordCount == q.recordCount && p.firstHash == q.firstHash
            && forall i :: 0 <= i < p.recordCount ==> p.decisions[i].(id := "") == q.decisions[i].(id := "")
  {
    SameTipSameChain(sha256, a, b);
    if SameRecords(a, b) {
      forall i | 0 <= i < |a| ensures a[i].recordHash == b[i].recordHash {
        EntriesAgree(HashWith(sha256), a, b, i);
      }
    }
  }
}
