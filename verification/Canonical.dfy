/** Canonical bytes: sorted keys, compact separators, UTF-8. Equal bytes mean equal JSON up to key order. */
module Canonical {
  import opened Options
  import opened Json
  import opened StableSort
  import Utf8

  // ---- keys sort by code point ----

  predicate TextBefore(a: string, b: string) {
    b != [] && (a == [] || a[0] < b[0] || (a[0] == b[0] && TextBefore(a[1..], b[1..])))
  }

  /** At the first difference the smaller code point comes first; a proper prefix comes before the longer text. */
  lemma {:induction false} TextBeforeMeans(a: string, b: string)
    ensures TextBefore(a, b) <==> exists n: nat :: FirstDifference(a, b, n)
  {
    forall n: nat | FirstDifference(a, b, n) && n > 0 ensures a[0] == b[0] {
      assert a[..n][0] == b[..n][0];
    }
    if a != [] && b != [] && a[0] == b[0] {
      TextBeforeMeans(a[1..], b[1..]);
      assert a == [a[0]] + a[1..] && b == [b[0]] + b[1..];
      if n: nat :| FirstDifference(a[1..], b[1..], n) {
        assert FirstDifference(a, b, n + 1);
      }
      if n: nat :| FirstDifference(a, b, n) {
        assert n > 0 && FirstDifference(a[1..], b[1..], n - 1);
      }
    } else if TextBefore(a, b) {
      assert FirstDifference(a, b, 0);
    }
  }

  ghost predicate FirstDifference(a: string, b: string, n: nat) {
    n <= |a| && n < |b| && a[..n] == b[..n] && (n == |a| || a[n] < b[n])
  }

  predicate KeyBefore(a: Member, b: Member) {
    TextBefore(a.key, b.key)
  }

  lemma {:induction false} TextBeforeTransitive(a: string, b: string, c: string)
    ensures TextBefore(a, b) && TextBefore(b, c) ==> TextBefore(a, c)
    ensures !TextBefore(a, b) && !TextBefore(b, c) ==> !TextBefore(a, c)
    ensures !TextBefore(a, a)
  {
    if a != [] {
      TextBeforeTransitive(a[1..], if b == [] then [] else b[1..], if c == [] then [] else c[1..]);
    }
  }

  lemma {:induction false} TextBeforeTotal(a: string, b: string)
    requires !TextBefore(a, b) && !TextBefore(b, a)
    ensures a == b
  {
    if a != [] {
      TextBeforeTotal(a[1..], b[1..]);
      assert a == [a[0]] + a[1..] && b == [b[0]] + b[1..];
    }
  }

  lemma KeyOrder()
    ensures StrictWeakOrder(KeyBefore)
  {
    forall a: Member, b: Member, c: Member
      ensures !KeyBefore(a, a)
      ensures KeyBefore(a, b) && KeyBefore(b, c) ==> KeyBefore(a, c)
      ensures !KeyBefore(a, b) && !KeyBefore(b, c) ==> !KeyBefore(a, c)
    {
      TextBeforeTransitive(a.key, b.key, c.key);
    }
  }

  // ---- sorted form ----

  /** The value with the keys of every dictionary sorted, as `sort_keys=True` visits them. */
  function Norm(j: Json): Json
    decreases j, 0
  {
    match j
    case List(items) => List(NormItems(items))
    case Obj(members) => Obj(Sort(KeyBefore, NormMembers(members)))
    case _ => j
  }

  function NormItems(items: seq<Json>): (r: seq<Json>)
    ensures |r| == |items|
    ensures forall i :: 0 <= i < |items| ==> r[i] == Norm(items[i])
    decreases items, 0
  {
    if items == [] then [] else [Norm(items[0])] + NormItems(items[1..])
  }

  function NormMembers(ms: seq<Member>): (r: seq<Member>)
    ensures |r| == |ms|
    ensures forall i :: 0 <= i < |ms| ==> r[i] == Member(ms[i].key, Norm(ms[i].value))
    decreases ms, 0
  {
    if ms == [] then [] else [NormMember(ms[0])] + NormMembers(ms[1..])
  }

  function NormMember(m: Member): Member
    decreases m, 1
  {
    Member(m.key, Norm(m.value))
  }

  lemma NormMembersIn(ms: seq<Member>, k: Member)
    ensures k in Sort(KeyBefore, NormMembers(ms)) <==> exists m :: m in ms && k == Member(m.key, Norm(m.value))
  {
    var ns := NormMembers(ms);
    SameElements(Sort(KeyBefore, ns), ns);
    if k in ns {
      var i :| 0 <= i < |ns| && ns[i] == k;
      assert ms[i] in ms;
    }
    if m :| m in ms && k == Member(m.key, Norm(m.value)) {
      var i :| 0 <= i < |ms| && ms[i] == m;
      assert ns[i] == k;
    }
  }

  lemma {:induction false} InsertKeepsDistinctKeys(x: Member, s: seq<Member>)
    requires DistinctKeys([x] + s)
    ensures DistinctKeys(Insert(KeyBefore, x, s))
  {
    var both := [x] + s;
    if s != [] && KeyBefore(s[0], x) {
      var rest := [x] + s[1..];
      forall i, j | 0 <= i < j < |rest| ensures rest[i].key != rest[j].key {
        assert both[if i == 0 then 0 else i + 1].key != both[j + 1].key;
      }
      InsertKeepsDistinctKeys(x, s[1..]);
      SameElements(Insert(KeyBefore, x, s[1..]), rest);
      forall m | m in rest ensures m.key != s[0].key {
        var k :| 0 <= k < |rest| && rest[k] == m;
        assert both[0].key != both[1].key && (k > 0 ==> both[1].key != both[k + 1].key);
      }
    }
  }

  lemma {:induction false} SortKeepsDistinctKeys(ms: seq<Member>)
    requires DistinctKeys(ms)
    ensures DistinctKeys(Sort(KeyBefore, ms))
  {
    if ms != [] {
      var rest := Sort(KeyBefore, ms[1..]);
      SortKeepsDistinctKeys(ms[1..]);
      SameElements(rest, ms[1..]);
      forall m | m in rest ensures m.key != ms[0].key {
        var k :| 0 <= k < |ms[1..]| && ms[1..][k] == m;
      }
      InsertKeepsDistinctKeys(ms[0], rest);
    }
  }

  /** A key-sorted list with distinct keys is determined by its set of entries. */
  lemma {:induction false} SortedEntriesUnique(a: seq<Member>, b: seq<Member>)
    requires Sorted(KeyBefore, a) && Sorted(KeyBefore, b) && DistinctKeys(a) && DistinctKeys(b)
    requires forall m :: m in a <==> m in b
    ensures a == b
  {
    assert a == [] || a[0] in b;
    assert b == [] || b[0] in a;
    if a != [] {
      var i :| 0 <= i < |b| && b[i] == a[0];
      var k :| 0 <= k < |a| && a[k] == b[0];
      assert !KeyBefore(a[0], b[0]) && !KeyBefore(b[0], a[0]) by {
        KeyOrder();
      }
      TextBeforeTotal(a[0].key, b[0].key);
      assert a[0] == b[0];
      forall m ensures m in a[1..] <==> m in b[1..] {
        assert m in a[1..] <==> m in a && m != a[0] by {
          assert a[0] !in a[1..];
        }
        assert m in b[1..] <==> m in b && m != b[0] by {
          assert b[0] !in b[1..];
        }
      }
      SortedEntriesUnique(a[1..], b[1..]);
    }
  }

  // ---- equality up to key order ----

  /** The same JSON value: lists in order, dictionaries as maps. */
  ghost predicate SameJson(a: Json, b: Json)
    decreases a, 0
  {
    match a
    case List(items) =>
      b.List? && |items| == |b.items| && forall i :: 0 <= i < |items| ==> SameJson(items[i], b.items[i])
    case Obj(members) =>
      && b.Obj?
      && (forall m {:trigger FoundIn(m, b.members)} :: m in members ==> FoundIn(m, b.members))
      && (forall k {:trigger Covers(members, k)} :: k in b.members ==> Covers(members, k))
    case _ => a == b
  }

  ghost predicate FoundIn(m: Member, ks: seq<Member>)
    decreases m, 1
  {
    exists k :: k in ks && k.key == m.key && SameJson(m.value, k.value)
  }

  ghost predicate Covers(ms: seq<Member>, k: Member)
    decreases ms, 0
  {
    exists m :: m in ms && k.key == m.key && SameJson(m.value, k.value)
  }

  lemma {:induction false} NormDecidesSameness(a: Json, b: Json)
    requires WellFormed(a) && WellFormed(b)
    ensures Norm(a) == Norm(b) <==> SameJson(a, b)
    decreases a
  {
    if a.List? && b.List? && |a.items| == |b.items| {
      forall i | 0 <= i < |a.items| ensures Norm(a.items[i]) == Norm(b.items[i]) <==> SameJson(a.items[i], b.items[i]) {
        NormDecidesSameness(a.items[i], b.items[i]);
      }
      if SameJson(a, b) {
        assert NormItems(a.items) == NormItems(b.items);
      }
      if Norm(a) == Norm(b) {
        forall i | 0 <= i < |a.items| ensures SameJson(a.items[i], b.items[i]) {
          assert NormItems(a.items)[i] == NormItems(b.items)[i];
        }
      }
    } else if a.List? && b.List? {
      assert |NormItems(a.items)| != |NormItems(b.items)|;
    } else if a.Obj? && b.Obj? {
      forall m, k | m in a.members && k in b.members
        ensures Norm(m.value) == Norm(k.value) <==> SameJson(m.value, k.value)
      {
        NormDecidesSameness(m.value, k.value);
      }
      NormDecidesMembers(a, b);
    }
  }

  /** m has a twin in ks: same key, same sorted value. */
  ghost predicate HasTwin(m: Member, ks: seq<Member>) {
    exists k :: k in ks && k.key == m.key && Norm(m.value) == Norm(k.value)
  }

  ghost predicate HaveTwins(ms: seq<Member>, ks: seq<Member>) {
    forall m {:trigger HasTwin(m, ks)} :: m in ms ==> HasTwin(m, ks)
  }

  lemma OriginOf(ms: seq<Member>, e: Member) returns (m: Member)
    requires e in Sort(KeyBefore, NormMembers(ms))
    ensures m in ms && e == Member(m.key, Norm(m.value))
  {
    NormMembersIn(ms, e);
    m :| m in ms && e == Member(m.key, Norm(m.value));
  }

  lemma ImageOf(ms: seq<Member>, m: Member)
    requires m in ms
    ensures Member(m.key, Norm(m.value)) in Sort(KeyBefore, NormMembers(ms))
  {
    NormMembersIn(ms, Member(m.key, Norm(m.value)));
  }

  lemma EqualNormsHaveTwins(ms: seq<Member>, ks: seq<Member>)
    requires Sort(KeyBefore, NormMembers(ms)) == Sort(KeyBefore, NormMembers(ks))
    ensures HaveTwins(ms, ks)
  {
    forall m | m in ms ensures HasTwin(m, ks) {
      ImageOf(ms, m);
      var k := OriginOf(ks, Member(m.key, Norm(m.value)));
    }
  }

  lemma TwinEntries(ms: seq<Member>, ks: seq<Member>, e: Member)
    requires HaveTwins(ms, ks) && e in Sort(KeyBefore, NormMembers(ms))
    ensures e in Sort(KeyBefore, NormMembers(ks))
  {
    var m := OriginOf(ms, e);
    assert HasTwin(m, ks);
    var k :| k in ks && k.key == m.key && Norm(m.value) == Norm(k.value);
    ImageOf(ks, k);
  }

  lemma SortedMembers(ms: seq<Member>)
    requires DistinctKeys(ms)
    ensures Sorted(KeyBefore, Sort(KeyBefore, NormMembers(ms)))
    ensures DistinctKeys(Sort(KeyBefore, NormMembers(ms)))
  {
    KeyOrder();
    SortSorted(KeyBefore, NormMembers(ms));
    SortKeepsDistinctKeys(NormMembers(ms));
  }

  lemma TwinsSortAlike(ms: seq<Member>, ks: seq<Member>)
    requires DistinctKeys(ms) && DistinctKeys(ks) && HaveTwins(ms, ks) && HaveTwins(ks, ms)
    ensures Sort(KeyBefore, NormMembers(ms)) == Sort(KeyBefore, NormMembers(ks))
  {
    var na, nb := Sort(KeyBefore, NormMembers(ms)), Sort(KeyBefore, NormMembers(ks));
    forall e | e in na ensures e in nb {
      TwinEntries(ms, ks, e);
    }
    forall e | e in nb ensures e in na {
      TwinEntries(ks, ms, e);
    }
    SortedMembers(ms);
    SortedMembers(ks);
    SortedEntriesUnique(na, nb);
  }

  /** Norm decides sameness for every pair of entries of the two dictionaries. */
  ghost predicate DecidedBelow(ms: seq<Member>, ks: seq<Member>) {
    forall m, k :: m in ms && k in ks ==> (Norm(m.value) == Norm(k.value) <==> SameJson(m.value, k.value))
  }

  lemma TwinDecides(ms: seq<Member>, ks: seq<Member>)
    requires DecidedBelow(ms, ks)
    ensures forall m :: m in ms ==> (HasTwin(m, ks) <==> FoundIn(m, ks))
  {
  }

  lemma TwinDecidesBack(ms: seq<Member>, ks: seq<Member>)
    requires DecidedBelow(ms, ks)
    ensures forall k :: k in ks ==> (HasTwin(k, ms) <==> Covers(ms, k))
  {
  }

  lemma NormDecidesMembers(a: Json, b: Json)
    requires a.Obj? && b.Obj? && WellFormed(a) && WellFormed(b) && DecidedBelow(a.members, b.members)
    ensures Norm(a) == Norm(b) <==> SameJson(a, b)
  {
    TwinDecides(a.members, b.members);
    TwinDecidesBack(a.members, b.members);
    if Norm(a) == Norm(b) {
      EqualNormsHaveTwins(a.members, b.members);
      EqualNormsHaveTwins(b.members, a.members);
    } else if SameJson(a, b) {
      TwinsSortAlike(a.members, b.members);
    }
  }

  lemma {:induction false} NormKeepsPlain(j: Json)
    requires Plain(j)
    ensures Plain(Norm(j))
    decreases j
  {
    match j
    case List(items) =>
      forall v | v in NormItems(items) ensures Plain(v) {
        var i :| 0 <= i < |items| && v == NormItems(items)[i];
        NormKeepsPlain(items[i]);
      }
    case Obj(members) =>
      forall e | e in Sort(KeyBefore, NormMembers(members)) ensures Plain(e.value) {
        var m := OriginOf(members, e);
        NormKeepsPlain(m.value);
      }
    case _ =>
  }

  lemma {:induction false} NormKeepsWellFormed(j: Json)
    requires WellFormed(j)
    ensures WellFormed(Norm(j))
    decreases j
  {
    match j
    case List(items) =>
      forall v | v in NormItems(items) ensures WellFormed(v) {
        var i :| 0 <= i < |items| && v == NormItems(items)[i];
        NormKeepsWellFormed(items[i]);
      }
    case Obj(members) =>
      forall e | e in Sort(KeyBefore, NormMembers(members)) ensures WellFormed(e.value) {
        var m := OriginOf(members, e);
        NormKeepsWellFormed(m.value);
      }
      SortedMembers(members);
    case _ =>
  }

  lemma InsertIntoSorted(x: Member, s: seq<Member>)
    requires Sorted(KeyBefore, [x] + s)
    ensures Insert(KeyBefore, x, s) == [x] + s
  {
    if s == [] {
      assert [x] + s == [x];
    } else {
      var both := [x] + s;
      assert !KeyBefore(both[1], both[0]);
    }
  }

  lemma {:induction false} SortOfSorted(s: seq<Member>)
    requires Sorted(KeyBefore, s)
    ensures Sort(KeyBefore, s) == s
  {
    if s != [] {
      SortOfSorted(s[1..]);
      assert s == [s[0]] + s[1..];
      InsertIntoSorted(s[0], s[1..]);
    }
  }

  /** Sorting the keys of a sorted value changes nothing. */
  lemma {:induction false} NormIdempotent(j: Json)
    ensures Norm(Norm(j)) == Norm(j)
    decreases j
  {
    match j
    case List(items) =>
      var once := NormItems(items);
      forall i | 0 <= i < |items| ensures NormItems(once)[i] == once[i] {
        NormIdempotent(items[i]);
      }
      assert NormItems(once) == once;
    case Obj(members) =>
      var once := Sort(KeyBefore, NormMembers(members));
      forall i | 0 <= i < |once| ensures NormMembers(once)[i] == once[i] {
        var m := OriginOf(members, once[i]);
        NormIdempotent(m.value);
      }
      assert NormMembers(once) == once;
      KeyOrder();
      SortSorted(KeyBefore, NormMembers(members));
      SortOfSorted(once);
    case _ =>
  }

  // ---- lookup in a sorted dictionary ----

  lemma {:induction false} GetFinds(ms: seq<Member>, m: Member)
    requires DistinctKeys(ms) && m in ms
    ensures Get(ms, m.key) == Some(m.value)
  {
    if ms[0] != m {
      assert m in ms[1..];
      var i :| 0 <= i < |ms[1..]| && ms[1..][i] == m;
      assert ms[0].key != ms[i + 1].key;
      GetFinds(ms[1..], m);
    }
  }

  lemma {:induction false} GetFrom(ms: seq<Member>, key: string)
    requires Get(ms, key).Some?
    ensures Member(key, Get(ms, key).value) in ms
  {
    if ms[0].key != key {
      GetFrom(ms[1..], key);
    }
  }

  lemma GetAt(ms: seq<Member>, i: nat)
    requires DistinctKeys(ms) && i < |ms|
    ensures Get(ms, ms[i].key) == Some(ms[i].value)
  {
    GetFinds(ms, ms[i]);
  }

  function NormOption(j: Option<Json>): Option<Json> {
    match j
    case None => None
    case Some(v) => Some(Norm(v))
  }

  lemma GetSorted(ms: seq<Member>, key: string)
    requires DistinctKeys(ms)
    ensures Get(Sort(KeyBefore, NormMembers(ms)), key) == NormOption(Get(ms, key))
  {
    var sorted := Sort(KeyBefore, NormMembers(ms));
    SortedMembers(ms);
    if Get(ms, key).Some? {
      GetFrom(ms, key);
      var m := Member(key, Get(ms, key).value);
      ImageOf(ms, m);
      GetFinds(sorted, Member(key, Norm(m.value)));
    } else if Get(sorted, key).Some? {
      GetFrom(sorted, key);
      var m := OriginOf(ms, Member(key, Get(sorted, key).value));
      GetFinds(ms, m);
    }
  }

  /** Dictionaries with equal sorted forms have equal sorted values under each shared key. */
  lemma SameField(ms: seq<Member>, ks: seq<Member>, i: nat)
    requires DistinctKeys(ms) && DistinctKeys(ks) && i < |ms| && i < |ks| && ms[i].key == ks[i].key
    requires Sort(KeyBefore, NormMembers(ms)) == Sort(KeyBefore, NormMembers(ks))
    ensures Norm(ms[i].value) == Norm(ks[i].value)
  {
    GetSorted(ms, ms[i].key);
    GetSorted(ks, ms[i].key);
    GetAt(ms, i);
    GetAt(ks, i);
  }

  lemma SameValue(keys: seq<string>, vs: seq<Json>, ws: seq<Json>, i: nat)
    requires |vs| == |keys| && |ws| == |keys| && Distinct(keys) && i < |keys|
    requires Norm(Object(keys, vs)) == Norm(Object(keys, ws))
    ensures Norm(vs[i]) == Norm(ws[i])
  {
    ObjectOfParts(keys, vs);
    ObjectOfParts(keys, ws);
    SameField(Object(keys, vs).members, Object(keys, ws).members, i);
  }

  ghost predicate LooksUpAlike(ms: seq<Member>, ks: seq<Member>, key: string) {
    var v, w := Get(ms, key), Get(ks, key);
    if v.Some? && w.Some? then SameJson(v.value, w.value) else v.None? && w.None?
  }

  /** Dictionaries are the same JSON exactly when every key looks up the same JSON in both. */
  lemma SameByLookup(ms: seq<Member>, ks: seq<Member>)
    requires DistinctKeys(ms) && DistinctKeys(ks)
    ensures SameJson(Obj(ms), Obj(ks)) <==> forall key :: LooksUpAlike(ms, ks, key)
  {
    if SameJson(Obj(ms), Obj(ks)) {
      forall key ensures LooksUpAlike(ms, ks, key) {
        AlikeFromSame(ms, ks, key);
      }
    }
    if forall key :: LooksUpAlike(ms, ks, key) {
      forall m | m in ms ensures FoundIn(m, ks) {
        GetFinds(ms, m);
        assert LooksUpAlike(ms, ks, m.key);
        GetFrom(ks, m.key);
      }
      forall k | k in ks ensures Covers(ms, k) {
        GetFinds(ks, k);
        assert LooksUpAlike(ms, ks, k.key);
        GetFrom(ms, k.key);
      }
    }
  }

  lemma AlikeFromSame(ms: seq<Member>, ks: seq<Member>, key: string)
    requires DistinctKeys(ms) && DistinctKeys(ks) && SameJson(Obj(ms), Obj(ks))
    ensures LooksUpAlike(ms, ks, key)
  {
    if Get(ms, key).Some? {
      GetFrom(ms, key);
      var m := Member(key, Get(ms, key).value);
      assert FoundIn(m, ks);
      var k :| k in ks && k.key == m.key && SameJson(m.value, k.value);
      GetFinds(ks, k);
    } else if Get(ks, key).Some? {
      GetFrom(ks, key);
      var k := Member(key, Get(ks, key).value);
      assert Covers(ms, k);
      var m :| m in ms && k.key == m.key && SameJson(m.value, k.value);
      GetFinds(ms, m);
    }
  }

  // ---- the canonical bytes ----

  /** `json.dumps(j, sort_keys=True)` with the given separators; a datetime anywhere is a TypeError. */
  function Dumps(j: Json, pad: string): Option<string> {
    if Plain(j) then
      assert Plain(Norm(j)) by { NormKeepsPlain(j); }
      Some(Render(Norm(j), pad))
    else None
  }

  function Canonicalize(j: Json): Option<seq<Utf8.Byte>> {
    match Dumps(j, "")
    case None => None
    case Some(text) => Some(Utf8.Encode(text))
  }

  /** The strict reader on a whole text. */
  function Loads(text: string, pad: string): Option<Json> {
    var r := ReadValue(text, pad);
    if r.Parsed? && r.rest == [] then Some(r.value) else None
  }

  /** Printed text reads back as the printed value, keys sorted, for every separator style. */
  lemma DumpsReadsBack(j: Json, pad: string)
    requires WellFormed(j) && Plain(j)
    ensures Loads(Dumps(j, pad).value, pad) == Some(Norm(j))
  {
    NormKeepsPlain(j);
    NormKeepsWellFormed(j);
    ValueReads(Norm(j), pad, []);
    assert Render(Norm(j), pad) + [] == Render(Norm(j), pad);
  }

  /** The keys of every dictionary ascend by code point, at every depth. */
  ghost predicate KeysAscend(j: Json) {
    match j
    case List(items) => forall v :: v in items ==> KeysAscend(v)
    case Obj(members) =>
      && (forall i, k :: 0 <= i < k < |members| ==> TextBefore(members[i].key, members[k].key))
      && (forall m :: m in members ==> KeysAscend(m.value))
    case _ => true
  }

  lemma {:induction false} NormAscends(j: Json)
    requires WellFormed(j)
    ensures KeysAscend(Norm(j))
    decreases j
  {
    match j
    case List(items) =>
      forall v | v in NormItems(items) ensures KeysAscend(v) {
        var i :| 0 <= i < |items| && v == NormItems(items)[i];
        NormAscends(items[i]);
      }
    case Obj(members) =>
      var sorted := Sort(KeyBefore, NormMembers(members));
      forall e | e in sorted ensures KeysAscend(e.value) {
        var m := OriginOf(members, e);
        NormAscends(m.value);
      }
      SortedMembers(members);
      forall i, k | 0 <= i < k < |sorted| ensures TextBefore(sorted[i].key, sorted[k].key) {
        assert !KeyBefore(sorted[k], sorted[i]);
        if !TextBefore(sorted[i].key, sorted[k].key) {
          TextBeforeTotal(sorted[i].key, sorted[k].key);
        }
      }
    case _ =>
  }

  lemma NormIsSame(j: Json)
    requires WellFormed(j)
    ensures SameJson(Norm(j), j)
  {
    NormIdempotent(j);
    NormKeepsWellFormed(j);
    NormDecidesSameness(Norm(j), j);
  }

  /**
   * The canonical bytes are UTF-8 of a text which, read without any space after commas and colons, is the same JSON
   * with the keys of every dictionary ascending by code point.
   */
  lemma CanonicalText(j: Json) returns (text: string, v: Json)
    requires WellFormed(j) && Plain(j)
    ensures Canonicalize(j) == Some(Utf8.Encode(text))
    ensures Loads(text, "") == Some(v) && SameJson(v, j) && KeysAscend(v)
  {
    text, v := Dumps(j, "").value, Norm(j);
    DumpsReadsBack(j, "");
    NormIsSame(j);
    NormAscends(j);
  }

  lemma OneEntryText(m: Member, pad: string)
    requires Norm(m.value) == m.value && Plain(m.value)
    ensures Dumps(Obj([m]), pad) == Some("{" + RenderMember(m, pad) + "}")
  {
    var ms := [m];
    ObjectIsPlain(ms);
    assert NormMembers(ms) == ms;
    assert Sort(KeyBefore, ms) == ms;
    assert Norm(Obj(ms)) == Obj(ms);
    assert RenderMembers(ms, pad) == RenderMember(m, pad);
    assert Render(Obj(ms), pad) == "{" + RenderMembers(ms, pad) + "}";
  }

  /** For instance `{"a":1}`, byte by byte. */
  lemma SmallEventBytes(m: Member)
    requires m == Member("a", Int(1))
    ensures Canonicalize(Obj([m])) == Some([0x7B, 0x22, 0x61, 0x22, 0x3A, 0x31, 0x7D])
  {
    OneEntryText(m, "");
    EntryText(m, "");
    PlainTextQuoted(m.key);
    DecimalText(0, 1);
    var text := "{" + RenderMember(m, "") + "}";
    assert text == ['{', '"', 'a', '"', ':', '1', '}'];
    Utf8.EncodeAscii(text);
    assert Utf8.Encode(text) == [0x7B, 0x22, 0x61, 0x22, 0x3A, 0x31, 0x7D];
  }

  lemma SameTextSameJson(a: Json, b: Json, pad: string)
    requires WellFormed(a) && WellFormed(b) && Plain(a) && Plain(b)
    ensures Dumps(a, pad) == Dumps(b, pad) <==> SameJson(a, b)
  {
    DumpsReadsBack(a, pad);
    DumpsReadsBack(b, pad);
    NormDecidesSameness(a, b);
  }

  /** Two events have the same canonical bytes exactly when they are the same JSON value up to key order. */
  lemma SameBytesSameJson(a: Json, b: Json)
    requires WellFormed(a) && WellFormed(b) && Plain(a) && Plain(b)
    ensures Canonicalize(a) == Canonicalize(b) <==> SameJson(a, b)
  {
    SameTextSameJson(a, b, "");
    if Canonicalize(a) == Canonicalize(b) {
      Utf8.EncodeInjective(Dumps(a, "").value, Dumps(b, "").value);
    }
  }
}
