/** The append-only key rotation log and the three questions asked of it. */
module KeyRotation {
  import opened Options
  import opened StableSort

  datatype Entry = Entry(identityId: string, oldKey: string, newKey: string, effectiveAt: int, reason: string)

  predicate Effective(e: Entry, id: string, t: int) {
    e.identityId == id && e.effectiveAt <= t
  }

  predicate HasRotations(log: seq<Entry>, id: string) {
    exists e :: e in log && e.identityId == id
  }

  predicate MoreRecent(a: Entry, b: Entry) {
    a.effectiveAt > b.effectiveAt
  }

  function Relevant(log: seq<Entry>, id: string, t: int): seq<Entry> {
    if log == [] then []
    else if Effective(log[0], id, t) then [log[0]] + Relevant(log[1..], id, t)
    else Relevant(log[1..], id, t)
  }

  /** The single key: filter, sort newest first, take the head. */
  function ValidKeyAt(log: seq<Entry>, id: string, t: int): Option<string> {
    var sorted := Sort(MoreRecent, Relevant(log, id, t));
    if sorted == [] then None else Some(sorted[0].newKey)
  }

  /** Membership in the list of valid keys. */
  ghost predicate ListedAt(log: seq<Entry>, id: string, key: string, t: int) {
    exists e :: e in log && Effective(e, id, t) && (e.newKey == key || (e.oldKey == key && key != ""))
  }

  /** The yes/no check, which trusts every key of an identity that never rotated. */
  ghost predicate AcceptedAt(log: seq<Entry>, id: string, key: string, t: int) {
    HasRotations(log, id) ==> exists e :: e in log && Effective(e, id, t) && (e.oldKey == key || e.newKey == key)
  }

  lemma {:induction false} RelevantIn(log: seq<Entry>, id: string, t: int, e: Entry)
    ensures e in Relevant(log, id, t) <==> e in log && Effective(e, id, t)
  {
    if log != [] {
      RelevantIn(log[1..], id, t, e);
    }
  }

  /** The first entry of the log, in log order, among those of the greatest effective time up to t. */
  ghost predicate IsNewest(log: seq<Entry>, id: string, t: int, k: nat) {
    && k < |log| && Effective(log[k], id, t)
    && (forall i :: 0 <= i < |log| && Effective(log[i], id, t) ==> log[i].effectiveAt <= log[k].effectiveAt)
    && (forall i :: 0 <= i < k && Effective(log[i], id, t) ==> log[i].effectiveAt < log[k].effectiveAt)
  }

  /**
   * The single key is the new key of the newest rotation, and on equal times of the one recorded first:
   * a rotation recorded later at the same instant does not take effect in this query.
   */
  lemma {:induction false} ValidKeyIsNewest(log: seq<Entry>, id: string, t: int, k: nat)
    requires IsNewest(log, id, t, k)
    ensures Relevant(log, id, t) != [] && Sort(MoreRecent, Relevant(log, id, t))[0] == log[k]
    decreases |log|
  {
    var rest := Relevant(log[1..], id, t);
    if k == 0 {
      forall e | e in rest ensures !MoreRecent(e, log[0]) {
        RelevantIn(log[1..], id, t, e);
        var i :| 0 <= i < |log[1..]| && log[1..][i] == e;
        assert log[i + 1] == e;
      }
      SameElements(Sort(MoreRecent, rest), rest);
      assert Relevant(log, id, t)[1..] == rest;
    } else {
      assert IsNewest(log[1..], id, t, k - 1) by {
        forall i | 0 <= i < |log[1..]| && Effective(log[1..][i], id, t)
          ensures log[1..][i].effectiveAt <= log[k].effectiveAt
          ensures i < k - 1 ==> log[1..][i].effectiveAt < log[k].effectiveAt
        {
          assert log[i + 1] == log[1..][i];
        }
      }
      ValidKeyIsNewest(log[1..], id, t, k - 1);
      if Effective(log[0], id, t) {
        assert Relevant(log, id, t)[1..] == rest && MoreRecent(log[k], log[0]);
      } else {
        assert Relevant(log, id, t) == rest;
      }
    }
  }

  lemma {:induction false} NewestExists(log: seq<Entry>, id: string, t: int) returns (k: nat)
    requires exists e :: e in log && Effective(e, id, t)
    ensures IsNewest(log, id, t, k)
  {
    if e :| e in log[1..] && Effective(e, id, t) {
      k := NewestExists(log[1..], id, t);
      if Effective(log[0], id, t) && log[0].effectiveAt >= log[k + 1].effectiveAt {
        k := 0;
      } else {
        k := k + 1;
      }
      forall i | 0 < i < |log| ensures log[i] == log[1..][i - 1] {
      }
    } else {
      k := 0;
      forall i | 0 < i < |log| ensures !Effective(log[i], id, t) {
        assert log[i] in log[1..];
      }
    }
  }

  /**
   * With a nondecreasing clock a recorded rotation becomes the single key, unless an earlier rotation of the
   * identity carries the same instant: then the answer stays what it was.
   */
  lemma RotationTakesEffect(log: seq<Entry>, e: Entry, t: int)
    requires forall x :: x in log && x.identityId == e.identityId ==> x.effectiveAt <= e.effectiveAt
    requires e.effectiveAt <= t
    ensures ValidKeyAt(log + [e], e.identityId, t) ==
            if exists x :: x in log && x.identityId == e.identityId && x.effectiveAt == e.effectiveAt
            then ValidKeyAt(log, e.identityId, t) else Some(e.newKey)
  {
    var id, more := e.identityId, log + [e];
    if x :| x in log && x.identityId == id && x.effectiveAt == e.effectiveAt {
      assert Effective(x, id, t);
      var k := NewestExists(log, id, t);
      ValidKeyIsNewest(log, id, t, k);
      ValidKeyIsNewest(more, id, t, k);
    } else {
      ValidKeyIsNewest(more, id, t, |log|);
    }
  }

  /** For instance: two rotations recorded in one instant leave the first one's key. */
  lemma SameInstantKeepsFirst(log: seq<Entry>, e: Entry)
    requires log == [Entry("id", "k0", "k1", 5, "")] && e == Entry("id", "k1", "k2", 5, "")
    ensures ValidKeyAt(log + [e], "id", 5) == Some("k1")
  {
    RotationTakesEffect(log, e, 5);
    assert log[0] in log && IsNewest(log, "id", 5, 0);
    ValidKeyIsNewest(log, "id", 5, 0);
  }

  /** There is a single key exactly when some rotation is effective by t. */
  lemma ValidKeyExists(log: seq<Entry>, id: string, t: int)
    ensures ValidKeyAt(log, id, t).Some? <==> exists e :: e in log && Effective(e, id, t)
  {
    if Relevant(log, id, t) != [] {
      RelevantIn(log, id, t, Relevant(log, id, t)[0]);
    }
    if e :| e in log && Effective(e, id, t) {
      RelevantIn(log, id, t, e);
    }
  }

  /**
   * The list and the yes/no check agree about a key exactly unless the identity never rotated, or the key is
   * the empty fingerprint and only old keys are empty.
   */
  lemma QueriesAgreeExactly(log: seq<Entry>, id: string, key: string, t: int)
    ensures (ListedAt(log, id, key, t) <==> AcceptedAt(log, id, key, t)) <==>
            (HasRotations(log, id)
             && (key != "" || ((exists e :: e in log && Effective(e, id, t) && e.oldKey == "")
                               ==> exists e :: e in log && Effective(e, id, t) && e.newKey == "")))
  {
    if e :| e in log && Effective(e, id, t) && (e.oldKey == key || e.newKey == key) {
      assert HasRotations(log, id);
    }
  }

  /** For instance: an identity that never rotated, and one whose old fingerprint is empty. */
  lemma QueriesDisagree(id: string, key: string, t: int, log: seq<Entry>)
    requires log == [Entry(id, "", "k1", t, "")]
    ensures AcceptedAt([], id, key, t) && !ListedAt([], id, key, t)
    ensures AcceptedAt(log, id, "", t) && !ListedAt(log, id, "", t)
  {
    assert log[0] in log && Effective(log[0], id, t);
  }

  /** The single key, when there is one, is accepted by both other queries. */
  lemma ValidKeyAccepted(log: seq<Entry>, id: string, t: int)
    requires ValidKeyAt(log, id, t).Some?
    ensures ListedAt(log, id, ValidKeyAt(log, id, t).value, t)
    ensures AcceptedAt(log, id, ValidKeyAt(log, id, t).value, t)
  {
    var sorted := Sort(MoreRecent, Relevant(log, id, t));
    SameElements(sorted, Relevant(log, id, t));
    RelevantIn(log, id, t, sorted[0]);
  }

  lemma {:induction false} RelevantAppend(log: seq<Entry>, more: seq<Entry>, id: string, t: int)
    ensures Relevant(log + more, id, t) == Relevant(log, id, t) + Relevant(more, id, t)
  {
    if log == [] {
      assert log + more == more;
    } else {
      RelevantAppend(log[1..], more, id, t);
      assert (log + more)[1..] == log[1..] + more && (log + more)[0] == log[0];
    }
  }

  lemma {:induction false} NoneRelevant(more: seq<Entry>, id: string, t: int)
    requires forall e :: e in more ==> e.effectiveAt > t
    ensures Relevant(more, id, t) == []
  {
    if more != [] {
      assert more[0] in more;
      NoneRelevant(more[1..], id, t);
    }
  }

  /**
   * Rotations that take effect after t leave every answer at t as it was, except that the first rotation an
   * identity ever records ends the blanket trust of the yes/no check.
   */
  lemma LaterRotationsChangeNothing(log: seq<Entry>, more: seq<Entry>, id: string, key: string, t: int)
    requires forall e :: e in more ==> e.effectiveAt > t
    ensures ValidKeyAt(log + more, id, t) == ValidKeyAt(log, id, t)
    ensures ListedAt(log + more, id, key, t) <==> ListedAt(log, id, key, t)
    ensures (AcceptedAt(log + more, id, key, t) <==> AcceptedAt(log, id, key, t)) <==>
            (HasRotations(log, id) || !HasRotations(more, id))
  {
    RelevantAppend(log, more, id, t);
    NoneRelevant(more, id, t);
    assert Relevant(log, id, t) + [] == Relevant(log, id, t);
    EffectiveAppend(log, more, id, t);
    if HasRotations(log, id) {
      var e :| e in log && e.identityId == id;
      assert e in log + more;
    }
    if HasRotations(more, id) {
      var e :| e in more && e.identityId == id;
      assert e in log + more;
    }
  }

  lemma EffectiveAppend(log: seq<Entry>, more: seq<Entry>, id: string, t: int)
    requires forall e :: e in more ==> e.effectiveAt > t
    ensures forall e :: (e in log + more && Effective(e, id, t)) <==> (e in log && Effective(e, id, t))
  {
  }

  /** The three answers in terms of the recorded entries alone. */
  lemma SingleKeyExactly(log: seq<Entry>, id: string, t: int)
    ensures ValidKeyAt(log, id, t) == None <==> forall e :: e in log && e.identityId == id ==> t < e.effectiveAt
    ensures ValidKeyAt(log, id, t).Some? ==>
              exists k :: 0 <= k < |log| && log[k].identityId == id && log[k].effectiveAt <= t
                && ValidKeyAt(log, id, t).value == log[k].newKey
                && forall i :: 0 <= i < |log| && log[i].identityId == id && log[i].effectiveAt <= t && i != k ==>
                     if i < k then log[i].effectiveAt < log[k].effectiveAt
                     else log[i].effectiveAt <= log[k].effectiveAt
  {
    ValidKeyExists(log, id, t);
    if ValidKeyAt(log, id, t).Some? {
      var k := NewestExists(log, id, t);
      ValidKeyIsNewest(log, id, t, k);
      forall i | 0 <= i < |log| && log[i].identityId == id && log[i].effectiveAt <= t
        ensures log[i].effectiveAt <= log[k].effectiveAt && (i < k ==> log[i].effectiveAt < log[k].effectiveAt)
      {
        assert Effective(log[i], id, t);
      }
    }
  }

  lemma OtherAnswersExactly(log: seq<Entry>, id: string, key: string, t: int)
    ensures AcceptedAt(log, id, key, t) <==>
            (forall e :: e in log ==> e.identityId != id)
            || (exists e :: e in log && e.identityId == id && e.effectiveAt <= t && key in {e.oldKey, e.newKey})
    ensures ListedAt(log, id, key, t) <==>
            exists e :: e in log && e.identityId == id && e.effectiveAt <= t
                        && (key == e.newKey || (key == e.oldKey && key != ""))
  {
    if e :| e in log && e.identityId == id && e.effectiveAt <= t && key in {e.oldKey, e.newKey} {
      assert Effective(e, id, t);
    }
  }

  class KeyRotationLog {
    var entries: seq<Entry>

    constructor ()
      ensures entries == []
    {
      entries := [];
    }

    method RecordRotation(identityId: string, oldKey: string, newKey: string, reason: string, now: int)
      returns (entry: Entry)
      modifies this
      ensures entry == Entry(identityId, oldKey, newKey, now, reason)
      ensures entries == old(entries) + [entry]
    {
      entry := Entry(identityId, oldKey, newKey, now, reason);
      entries := entries + [entry];
    }

    method GetValidKeyAtTime(identityId: string, atTime: int) returns (key: Option<string>)
      ensures key == ValidKeyAt(entries, identityId, atTime)
    {
      var relevant := [];
      for i := 0 to |entries|
        invariant relevant == Relevant(entries[..i], identityId, atTime)
      {
        assert entries[..i + 1] == entries[..i] + [entries[i]];
        RelevantAppend(entries[..i], [entries[i]], identityId, atTime);
        if entries[i].identityId == identityId && entries[i].effectiveAt <= atTime {
          relevant := relevant + [entries[i]];
        }
      }
      assert entries[..|entries|] == entries;
      var sorted := Sort(MoreRecent, relevant);
      if relevant == [] {
        return None;
      }
      return Some(sorted[0].newKey);
    }

    method IsKeyValidAtTime(identityId: string, key: string, atTime: int) returns (valid: bool)
      ensures valid <==> AcceptedAt(entries, identityId, key, atTime)
    {
      var known := false;
      for i := 0 to |entries|
        invariant known <==> HasRotations(entries[..i], identityId)
        invariant forall e :: e in entries[..i] && Effective(e, identityId, atTime) ==>
                    e.oldKey != key && e.newKey != key
      {
        var entry := entries[i];
        assert entries[..i + 1] == entries[..i] + [entry];
        if entry.identityId == identityId {
          known := true;
          assert entry in entries[..i + 1];
          if entry.effectiveAt <= atTime && (entry.oldKey == key || entry.newKey == key) {
            assert entry in entries;
            return true;
          }
        }
      }
      assert entries[..|entries|] == entries;
      return !known;
    }

    /** Old and new keys of the effective rotations, as a set; an empty old fingerprint is skipped. */
    method GetValidKeysAt(timestamp: int, identityId: string) returns (keys: set<string>)
      ensures forall key :: key in keys <==> ListedAt(entries, identityId, key, timestamp)
    {
      keys := {};
      for i := 0 to |entries|
        invariant forall key :: key in keys <==> ListedAt(entries[..i], identityId, key, timestamp)
      {
        var entry := entries[i];
        assert entries[..i + 1] == entries[..i] + [entry];
        if entry.identityId == identityId && entry.effectiveAt <= timestamp {
          assert Effective(entry, identityId, timestamp) && entry in entries[..i + 1];
          if entry.oldKey != "" {
            keys := keys + {entry.oldKey};
          }
          keys := keys + {entry.newKey};
        }
      }
      assert entries[..|entries|] == entries;
    }
  }
}
