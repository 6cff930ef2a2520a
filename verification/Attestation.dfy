/** The bytes an attestation signs: datetimes become ISO 8601 text, then the canonical encoding. */
module Attestation {
  import opened Options
  import opened Json
  import opened Canonical
  import Utf8

  function NormalizeTimes(j: Json): Json
    decreases j, 0
  {
    match j
    case Time(iso) => Str(iso)
    case List(items) => List(NormalizeItems(items))
    case Obj(members) => Obj(NormalizeMembers(members))
    case _ => j
  }

  function NormalizeItems(items: seq<Json>): (r: seq<Json>)
    ensures |r| == |items|
    ensures forall i :: 0 <= i < |items| ==> r[i] == NormalizeTimes(items[i])
    decreases items, 0
  {
    if items == [] then [] else [NormalizeTimes(items[0])] + NormalizeItems(items[1..])
  }

  function NormalizeMembers(ms: seq<Member>): (r: seq<Member>)
    ensures |r| == |ms|
    ensures forall i :: 0 <= i < |ms| ==> r[i] == Member(ms[i].key, NormalizeTimes(ms[i].value))
    decreases ms, 0
  {
    if ms == [] then [] else [NormalizeMember(ms[0])] + NormalizeMembers(ms[1..])
  }

  function NormalizeMember(m: Member): Member
    decreases m, 1
  {
    Member(m.key, NormalizeTimes(m.value))
  }

  lemma {:induction false} NormalizedIsPlain(j: Json)
    ensures Plain(NormalizeTimes(j))
    ensures WellFormed(j) ==> WellFormed(NormalizeTimes(j))
    decreases j
  {
    match j
    case List(items) =>
      forall v | v in NormalizeItems(items) ensures Plain(v) && (WellFormed(j) ==> WellFormed(v)) {
        var i :| 0 <= i < |items| && v == NormalizeItems(items)[i];
        NormalizedIsPlain(items[i]);
      }
    case Obj(members) =>
      forall m | m in NormalizeMembers(members) ensures Plain(m.value) && (WellFormed(j) ==> WellFormed(m.value)) {
        var i :| 0 <= i < |members| && m == NormalizeMembers(members)[i];
        NormalizedIsPlain(members[i].value);
      }
    case _ =>
  }

  /** Normalisation touches nothing but datetimes. */
  lemma {:induction false} PlainUnchanged(j: Json)
    requires Plain(j)
    ensures NormalizeTimes(j) == j
    decreases j
  {
    match j
    case List(items) =>
      forall i | 0 <= i < |items| ensures NormalizeItems(items)[i] == items[i] {
        PlainUnchanged(items[i]);
      }
      assert NormalizeItems(items) == items;
    case Obj(members) =>
      forall i | 0 <= i < |members| ensures NormalizeMembers(members)[i] == members[i] {
        PlainUnchanged(members[i].value);
      }
      assert NormalizeMembers(members) == members;
    case _ =>
  }

  lemma NormalizeIdempotent(j: Json)
    ensures NormalizeTimes(NormalizeTimes(j)) == NormalizeTimes(j)
  {
    NormalizedIsPlain(j);
    PlainUnchanged(NormalizeTimes(j));
  }

  /** Total: after normalisation the encoder has nothing left to reject. */
  function SignedBytes(event: Json): seq<Utf8.Byte> {
    assert Plain(NormalizeTimes(event)) by { NormalizedIsPlain(event); }
    Canonicalize(NormalizeTimes(event)).value
  }

  /**
   * What the offline verifier recomputes from an exported event equals the signed bytes exactly when the
   * export is the normalised event up to key order.
   */
  lemma OfflineBytesAreSignedBytes(event: Json, exported: Json)
    requires WellFormed(event) && WellFormed(exported) && Plain(exported)
    ensures Canonicalize(exported) == Some(SignedBytes(event)) <==> SameJson(exported, NormalizeTimes(event))
  {
    NormalizedIsPlain(event);
    SameBytesSameJson(exported, NormalizeTimes(event));
  }

  /** Writing the normalised event to a file and reading it back keeps the signed bytes. */
  lemma SignedBytesSurviveTheFile(event: Json, pad: string)
    requires WellFormed(event)
    ensures Dumps(NormalizeTimes(event), pad).Some?
    ensures var loaded := Loads(Dumps(NormalizeTimes(event), pad).value, pad);
            loaded.Some? && Canonicalize(loaded.value) == Some(SignedBytes(event))
  {
    NormalizedIsPlain(event);
    var n := NormalizeTimes(event);
    DumpsReadsBack(n, pad);
    NormKeepsPlain(n);
    NormIdempotent(n);
  }

  /** Without normalisation the verifier's encoder fails as soon as one datetime is left. */
  lemma UnnormalizedBytes(event: Json)
    ensures Canonicalize(event) == if Plain(event) then Some(SignedBytes(event)) else None
  {
    if Plain(event) {
      PlainUnchanged(event);
    }
  }

  // ---- what two events with the same signed bytes have in common ----

  /** A string and a datetime are alike when the one is the ISO text of the other. */
  ghost predicate SameEvent(a: Json, b: Json)
    decreases a, 0
  {
    match a
    case Str(s) => b == Str(s) || b == Time(s)
    case Time(iso) => b == Str(iso) || b == Time(iso)
    case List(items) =>
      b.List? && |items| == |b.items| && forall i :: 0 <= i < |items| ==> SameEvent(items[i], b.items[i])
    case Obj(members) =>
      && b.Obj?
      && (forall m {:trigger HasAlike(m, b.members)} :: m in members ==> HasAlike(m, b.members))
      && (forall k {:trigger IsAlikeSome(members, k)} :: k in b.members ==> IsAlikeSome(members, k))
    case _ => a == b
  }

  ghost predicate HasAlike(m: Member, ks: seq<Member>)
    decreases m, 1
  {
    exists k :: k in ks && k.key == m.key && SameEvent(m.value, k.value)
  }

  ghost predicate IsAlikeSome(ms: seq<Member>, k: Member)
    decreases ms, 0
  {
    exists m :: m in ms && k.key == m.key && SameEvent(m.value, k.value)
  }

  lemma {:induction false} NormalizingDecides(a: Json, b: Json)
    ensures SameEvent(a, b) <==> SameJson(NormalizeTimes(a), NormalizeTimes(b))
    decreases a
  {
    if a.List? && b.List? {
      forall i | 0 <= i < |a.items| && i < |b.items|
        ensures SameEvent(a.items[i], b.items[i])
                <==> SameJson(NormalizeItems(a.items)[i], NormalizeItems(b.items)[i])
      {
        NormalizingDecides(a.items[i], b.items[i]);
      }
    } else if a.Obj? && b.Obj? {
      forall m, k | m in a.members && k in b.members
        ensures SameEvent(m.value, k.value) <==> SameJson(NormalizeTimes(m.value), NormalizeTimes(k.value))
      {
        NormalizingDecides(m.value, k.value);
      }
      NormalizingDecidesMembers(a.members, b.members);
    }
  }

  ghost predicate DecidedBelow(ms: seq<Member>, ks: seq<Member>) {
    forall m, k :: m in ms && k in ks ==>
      (SameEvent(m.value, k.value) <==> SameJson(NormalizeTimes(m.value), NormalizeTimes(k.value)))
  }

  lemma MemberNormalized(ms: seq<Member>, m: Member)
    requires m in ms
    ensures NormalizeMember(m) in NormalizeMembers(ms)
  {
    var i :| 0 <= i < |ms| && ms[i] == m;
    assert NormalizeMembers(ms)[i] == NormalizeMember(m);
  }

  lemma MemberBefore(ms: seq<Member>, n: Member) returns (m: Member)
    requires n in NormalizeMembers(ms)
    ensures m in ms && n == NormalizeMember(m)
  {
    var i :| 0 <= i < |ms| && NormalizeMembers(ms)[i] == n;
    m := ms[i];
  }

  lemma FoundDecided(ms: seq<Member>, ks: seq<Member>, m: Member)
    requires DecidedBelow(ms, ks) && m in ms
    ensures HasAlike(m, ks) <==> FoundIn(NormalizeMember(m), NormalizeMembers(ks))
  {
    if HasAlike(m, ks) {
      var k :| k in ks && k.key == m.key && SameEvent(m.value, k.value);
      MemberNormalized(ks, k);
    }
    if FoundIn(NormalizeMember(m), NormalizeMembers(ks)) {
      var n :| n in NormalizeMembers(ks) && n.key == m.key && SameJson(NormalizeTimes(m.value), n.value);
      var k := MemberBefore(ks, n);
    }
  }

  lemma CoverDecided(ms: seq<Member>, ks: seq<Member>, k: Member)
    requires DecidedBelow(ms, ks) && k in ks
    ensures IsAlikeSome(ms, k) <==> Covers(NormalizeMembers(ms), NormalizeMember(k))
  {
    if IsAlikeSome(ms, k) {
      var m :| m in ms && k.key == m.key && SameEvent(m.value, k.value);
      MemberNormalized(ms, m);
    }
    if Covers(NormalizeMembers(ms), NormalizeMember(k)) {
      var n :| n in NormalizeMembers(ms) && k.key == n.key && SameJson(n.value, NormalizeTimes(k.value));
      var m := MemberBefore(ms, n);
    }
  }

  lemma NormalizingDecidesMembers(ms: seq<Member>, ks: seq<Member>)
    requires DecidedBelow(ms, ks)
    ensures SameEvent(Obj(ms), Obj(ks)) <==> SameJson(Obj(NormalizeMembers(ms)), Obj(NormalizeMembers(ks)))
  {
    var na, nb := NormalizeMembers(ms), NormalizeMembers(ks);
    if SameEvent(Obj(ms), Obj(ks)) {
      forall n | n in na ensures FoundIn(n, nb) {
        var m := MemberBefore(ms, n);
        assert HasAlike(m, ks);
        FoundDecided(ms, ks, m);
      }
      forall n | n in nb ensures Covers(na, n) {
        var k := MemberBefore(ks, n);
        assert IsAlikeSome(ms, k);
        CoverDecided(ms, ks, k);
      }
    }
    if SameJson(Obj(na), Obj(nb)) {
      forall m | m in ms ensures HasAlike(m, ks) {
        MemberNormalized(ms, m);
        assert FoundIn(NormalizeMember(m), nb);
        FoundDecided(ms, ks, m);
      }
      forall k | k in ks ensures IsAlikeSome(ms, k) {
        MemberNormalized(ks, k);
        assert Covers(na, NormalizeMember(k));
        CoverDecided(ms, ks, k);
      }
    }
  }

  /** Two events have the same signed bytes exactly when they are the same JSON, each datetime read as its ISO text. */
  lemma SignedBytesDecideEvents(a: Json, b: Json)
    requires WellFormed(a) && WellFormed(b)
    ensures SignedBytes(a) == SignedBytes(b) <==> SameEvent(a, b)
    ensures SignedBytes(a) == SignedBytes(b) <==> SameJson(NormalizeTimes(a), NormalizeTimes(b))
  {
    NormalizedIsPlain(a);
    NormalizedIsPlain(b);
    SameBytesSameJson(NormalizeTimes(a), NormalizeTimes(b));
    NormalizingDecides(a, b);
  }

  /** The signed bytes are UTF-8 of a compact text that reads as the event, keys ascending, datetimes as ISO text. */
  lemma SignedText(event: Json) returns (text: string, v: Json)
    requires WellFormed(event)
    ensures SignedBytes(event) == Utf8.Encode(text)
    ensures Loads(text, "") == Some(v) && KeysAscend(v) && Plain(v) && SameEvent(event, v)
  {
    NormalizedIsPlain(event);
    var n := NormalizeTimes(event);
    text, v := CanonicalText(n);
    NormIsSame(n);
    ReadIsJson(text, "");
    PlainUnchanged(v);
    NormalizingDecides(event, v);
    NormDecidesSameness(v, n);
    NormDecidesSameness(n, v);
  }
}
