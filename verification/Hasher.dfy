/** The SDK's hashing engine: a canonical form for Python data, its sorted JSON text, and the hash of that text. */
module Hasher {
  import opened Options
  import opened Json
  import opened Canonical
  import opened IsoTime
  import opened StableSort
  import Utf8

  datatype FloatValue = NaN | Infinite | Finite(x: real)

  datatype Timestamp = Naive | Aware(instant: int)

  /**
   * Python data as the hasher sees it; `POther` is any unsupported type. A dictionary key is given by the text
   * `str(key)` yields and by whether it is a string, so 1 and "1" are two keys with one text.
   */
  datatype Data =
    | PNone
    | PBool(b: bool)
    | PInt(n: int)
    | PFloat(f: FloatValue)
    | PStr(s: string)
    | PTime(t: Timestamp)
    | PSeq(isTuple: bool, items: seq<Data>)
    | PDict(entries: seq<Entry>)
    | POther
  datatype Entry = Entry(isStr: bool, text: string, value: Data)

  /**
   * What depends on the platform: `round(x, 15)`, `repr` of a float, and the UTC offset, in seconds, of the machine's
   * own time zone at an instant, which is the zone `astimezone(tz=None)` converts to.
   */
  datatype Platform = Platform(round15: real -> real, repr: real -> string, offsetAt: int -> int)

  ghost predicate Sane(p: Platform) {
    && (forall x :: p.round15(p.round15(x)) == p.round15(x))
    && (forall x :: IsFloatText(p.repr(x)))
    && (forall instant :: IsOffset(p.offsetAt(instant)))
  }

  predicate SameKey(e: Entry, f: Entry) {
    e.isStr == f.isStr && e.text == f.text
  }

  /** Assignment under a text key: an existing key keeps its place and takes the new value. */
  function Put(es: seq<Entry>, text: string, v: Data): seq<Entry> {
    if es == [] then [Entry(true, text, v)]
    else if es[0].isStr && es[0].text == text then [Entry(true, text, v)] + es[1..]
    else [es[0]] + Put(es[1..], text, v)
  }

  /** The canonical form; None stands for HashingError. */
  function Canon(p: Platform, d: Data): Option<Data>
    decreases d, 0
  {
    match d
    case PNone => Some(d)
    case PBool(_) => Some(d)
    case PInt(_) => Some(d)
    case PFloat(f) => if f.Finite? then Some(PFloat(Finite(p.round15(f.x)))) else None
    case PStr(_) => Some(d)
    case PTime(t) => if t.Aware? then Some(PStr(Iso(t.instant, p.offsetAt(t.instant)))) else None
    case PSeq(_, items) =>
      (match CanonItems(p, items)
       case None => None
       case Some(cs) => Some(PSeq(false, cs)))
    case PDict(entries) =>
      (match CanonEntries(p, entries)
       case None => None
       case Some(es) => Some(PDict(es)))
    case POther => None
  }

  function CanonItems(p: Platform, items: seq<Data>): Option<seq<Data>>
    decreases items, 0
  {
    if items == [] then Some([])
    else
      match (Canon(p, items[0]), CanonItems(p, items[1..]))
      case (Some(c), Some(cs)) => Some([c] + cs)
      case _ => None
  }

  /** The dictionary comprehension `{str(key): canon(value) ...}`, built entry by entry. */
  function CanonEntries(p: Platform, es: seq<Entry>): Option<seq<Entry>>
    decreases es, 0
  {
    if es == [] then Some([])
    else
      var n := |es| - 1;
      match (CanonEntries(p, es[..n]), CanonValue(p, es[n]))
      case (Some(done), Some(c)) => Some(Put(done, es[n].text, c))
      case _ => None
  }

  function CanonValue(p: Platform, e: Entry): Option<Data>
    decreases e, 1
  {
    Canon(p, e.value)
  }

  /** Every leaf is of a supported kind: no NaN, infinity, naive datetime or foreign object, at any depth. */
  predicate Supported(d: Data) {
    match d
    case PFloat(f) => f.Finite?
    case PTime(t) => t.Aware?
    case PSeq(_, items) => forall v :: v in items ==> Supported(v)
    case PDict(entries) => forall e :: e in entries ==> Supported(e.value)
    case POther => false
    case _ => true
  }

  /** Canonicalisation accepts exactly the supported data. */
  lemma {:induction false} AcceptsExactlySupported(p: Platform, d: Data)
    ensures Canon(p, d).Some? <==> Supported(d)
    decreases d, 0
  {
    match d
    case PSeq(_, items) => ItemsAccepted(p, items);
    case PDict(entries) => EntriesAccepted(p, entries);
    case _ =>
  }

  lemma {:induction false} ItemsAccepted(p: Platform, items: seq<Data>)
    ensures CanonItems(p, items).Some? <==> forall v :: v in items ==> Supported(v)
    decreases items, 0
  {
    if items != [] {
      AcceptsExactlySupported(p, items[0]);
      ItemsAccepted(p, items[1..]);
      assert forall v :: v in items <==> v == items[0] || v in items[1..];
    }
  }

  lemma {:induction false} EntriesAccepted(p: Platform, es: seq<Entry>)
    ensures CanonEntries(p, es).Some? <==> forall e :: e in es ==> Supported(e.value)
    decreases es, 0
  {
    if es != [] {
      var n := |es| - 1;
      AcceptsExactlySupported(p, es[n].value);
      EntriesAccepted(p, es[..n]);
      assert forall e :: e in es <==> e == es[n] || e in es[..n];
    }
  }

  // ---- idempotence ----

  /** Text keys only, all different. */
  predicate DistinctTextKeys(es: seq<Entry>) {
    (forall e :: e in es ==> e.isStr) && forall i, j :: 0 <= i < j < |es| ==> es[i].text != es[j].text
  }

  lemma {:induction false} PutFresh(es: seq<Entry>, text: string, v: Data)
    requires forall e :: e in es ==> e.text != text
    ensures Put(es, text, v) == es + [Entry(true, text, v)]
  {
    if es != [] {
      PutFresh(es[1..], text, v);
      assert es == [es[0]] + es[1..];
    }
  }

  lemma {:induction false} PutElements(es: seq<Entry>, text: string, v: Data, e: Entry)
    requires e in Put(es, text, v)
    ensures e == Entry(true, text, v) || e in es
  {
    if es != [] && !(es[0].isStr && es[0].text == text) && e != es[0] {
      PutElements(es[1..], text, v, e);
    }
  }

  lemma {:induction false} PutDistinct(es: seq<Entry>, text: string, v: Data)
    requires DistinctTextKeys(es)
    ensures DistinctTextKeys(Put(es, text, v))
  {
    if es != [] {
      assert es[0] in es && forall e :: e in es[1..] ==> e in es;
      if es[0].text != text {
        var rest := Put(es[1..], text, v);
        PutDistinct(es[1..], text, v);
        forall e | e in rest ensures e.isStr && e.text != es[0].text {
          PutElements(es[1..], text, v, e);
          if e in es[1..] {
            var k :| 0 <= k < |es[1..]| && es[1..][k] == e;
            assert es[k + 1] == e;
          }
        }
      }
    }
  }

  /** Canonical data: text keys, distinct in each dictionary, lists only, and nothing left to convert. */
  ghost predicate IsCanonical(p: Platform, d: Data) {
    match d
    case PFloat(f) => f.Finite? && p.round15(f.x) == f.x
    case PTime(_) => false
    case PSeq(isTuple, items) => !isTuple && forall v :: v in items ==> IsCanonical(p, v)
    case PDict(es) => DistinctTextKeys(es) && forall e :: e in es ==> IsCanonical(p, e.value)
    case POther => false
    case _ => true
  }

  lemma {:induction false} CanonIsCanonical(p: Platform, d: Data)
    requires Sane(p) && Canon(p, d).Some?
    ensures IsCanonical(p, Canon(p, d).value)
    decreases d, 0
  {
    match d
    case PSeq(_, items) => ItemsCanonical(p, items);
    case PDict(entries) => EntriesCanonical(p, entries);
    case _ =>
  }

  lemma {:induction false} ItemsCanonical(p: Platform, items: seq<Data>)
    requires Sane(p) && CanonItems(p, items).Some?
    ensures forall c :: c in CanonItems(p, items).value ==> IsCanonical(p, c)
    decreases items, 0
  {
    if items != [] {
      CanonIsCanonical(p, items[0]);
      ItemsCanonical(p, items[1..]);
    }
  }

  lemma {:induction false} EntriesCanonical(p: Platform, es: seq<Entry>)
    requires Sane(p) && CanonEntries(p, es).Some?
    ensures var cs := CanonEntries(p, es).value;
            DistinctTextKeys(cs) && forall e :: e in cs ==> IsCanonical(p, e.value)
    decreases es, 0
  {
    if es != [] {
      var n := |es| - 1;
      EntriesCanonical(p, es[..n]);
      CanonIsCanonical(p, es[n].value);
      var done, c := CanonEntries(p, es[..n]).value, Canon(p, es[n].value).value;
      PutDistinct(done, es[n].text, c);
      forall e | e in Put(done, es[n].text, c) ensures IsCanonical(p, e.value) {
        PutElements(done, es[n].text, c, e);
      }
    }
  }

  lemma {:induction false} CanonicalUnchanged(p: Platform, d: Data)
    requires IsCanonical(p, d)
    ensures Canon(p, d) == Some(d)
    decreases d, 0
  {
    match d
    case PSeq(_, items) => ItemsUnchanged(p, items);
    case PDict(entries) => EntriesUnchanged(p, entries);
    case _ =>
  }

  lemma {:induction false} ItemsUnchanged(p: Platform, items: seq<Data>)
    requires forall v :: v in items ==> IsCanonical(p, v)
    ensures CanonItems(p, items) == Some(items)
    decreases items, 0
  {
    if items != [] {
      CanonicalUnchanged(p, items[0]);
      ItemsUnchanged(p, items[1..]);
      assert items == [items[0]] + items[1..];
    }
  }

  lemma LastKeyDiffers(es: seq<Entry>)
    requires DistinctTextKeys(es) && es != []
    ensures var n := |es| - 1;
            DistinctTextKeys(es[..n]) && es[n].isStr && forall e :: e in es[..n] ==> e.text != es[n].text
  {
    assert es[|es| - 1] in es;
  }

  lemma {:induction false} EntriesUnchanged(p: Platform, es: seq<Entry>)
    requires DistinctTextKeys(es) && forall e :: e in es ==> IsCanonical(p, e.value)
    ensures CanonEntries(p, es) == Some(es)
    decreases es, 0
  {
    if es != [] {
      var n := |es| - 1;
      var front, last := es[..n], es[n];
      LastKeyDiffers(es);
      EntriesUnchanged(p, front);
      CanonicalUnchanged(p, last.value);
      PutFresh(front, last.text, last.value);
      assert es == front + [last];
    }
  }

  /** Canonicalising accepted data twice is canonicalising it once. */
  lemma CanonIdempotent(p: Platform, d: Data)
    requires Sane(p) && Canon(p, d).Some?
    ensures Canon(p, Canon(p, d).value) == Canon(p, d)
  {
    CanonIsCanonical(p, d);
    CanonicalUnchanged(p, Canon(p, d).value);
  }

  // ---- the hashed text ----

  /** Canonical data as JSON. */
  function ToJson(p: Platform, d: Data): Json
    decreases d, 0
  {
    match d
    case PBool(b) => Bool(b)
    case PInt(n) => Int(n)
    case PFloat(f) => if f.Finite? then Float(p.repr(f.x)) else Null
    case PStr(s) => Str(s)
    case PSeq(_, items) => List(ToJsonItems(p, items))
    case PDict(es) => Obj(ToJsonEntries(p, es))
    case _ => Null
  }

  function ToJsonItems(p: Platform, items: seq<Data>): (r: seq<Json>)
    ensures |r| == |items|
    ensures forall i :: 0 <= i < |items| ==> r[i] == ToJson(p, items[i])
    decreases items, 0
  {
    if items == [] then [] else [ToJson(p, items[0])] + ToJsonItems(p, items[1..])
  }

  function ToJsonEntries(p: Platform, es: seq<Entry>): (r: seq<Member>)
    ensures |r| == |es|
    ensures forall i :: 0 <= i < |es| ==> r[i] == Member(es[i].text, ToJson(p, es[i].value))
    decreases es, 0
  {
    if es == [] then [] else [ToJsonEntry(p, es[0])] + ToJsonEntries(p, es[1..])
  }

  function ToJsonEntry(p: Platform, e: Entry): Member
    decreases e, 1
  {
    Member(e.text, ToJson(p, e.value))
  }

  lemma {:induction false} JsonIsPlain(p: Platform, d: Data)
    ensures Plain(ToJson(p, d))
    decreases d
  {
    match d
    case PSeq(_, items) =>
      forall v | v in ToJsonItems(p, items) ensures Plain(v) {
        var i :| 0 <= i < |items| && v == ToJsonItems(p, items)[i];
        JsonIsPlain(p, items[i]);
      }
    case PDict(es) =>
      forall m | m in ToJsonEntries(p, es) ensures Plain(m.value) {
        var i :| 0 <= i < |es| && m == ToJsonEntries(p, es)[i];
        JsonIsPlain(p, es[i].value);
      }
    case _ =>
  }

  lemma {:induction false} JsonIsWellFormed(p: Platform, d: Data)
    requires Sane(p) && IsCanonical(p, d)
    ensures WellFormed(ToJson(p, d))
    decreases d
  {
    match d
    case PSeq(_, items) =>
      forall v | v in ToJsonItems(p, items) ensures WellFormed(v) {
        var i :| 0 <= i < |items| && v == ToJsonItems(p, items)[i];
        JsonIsWellFormed(p, items[i]);
      }
    case PDict(es) =>
      forall m | m in ToJsonEntries(p, es) ensures WellFormed(m.value) {
        var i :| 0 <= i < |es| && m == ToJsonEntries(p, es)[i];
        JsonIsWellFormed(p, es[i].value);
      }
      assert DistinctKeys(ToJsonEntries(p, es)) by {
        assert forall i :: 0 <= i < |es| ==> es[i] in es;
      }
    case _ =>
  }

  /** The serialised text that gets hashed: sorted keys, default separators. */
  function HashedText(p: Platform, d: Data): Option<string> {
    match Canon(p, d)
    case None => None
    case Some(c) => Dumps(ToJson(p, c), " ")
  }

  function HashData(p: Platform, sha256: seq<Utf8.Byte> -> string, d: Data): Option<string> {
    match HashedText(p, d)
    case None => None
    case Some(text) => Some(sha256(Utf8.Encode(text)))
  }

  function VerifyHash(p: Platform, sha256: seq<Utf8.Byte> -> string, d: Data, expected: string): bool {
    HashData(p, sha256, d) == Some(expected)
  }

  // ---- insertion order ----

  /** No dictionary, at any depth, has two keys with the same text. */
  predicate ClearKeys(d: Data) {
    match d
    case PSeq(_, items) => forall v :: v in items ==> ClearKeys(v)
    case PDict(es) =>
      && (forall i, j :: 0 <= i < j < |es| ==> es[i].text != es[j].text)
      && forall e :: e in es ==> ClearKeys(e.value)
    case _ => true
  }

  /** Python equality of nested data, up to the insertion order of dictionaries. */
  ghost predicate EqualData(a: Data, b: Data)
    decreases a, 0
  {
    match a
    case PSeq(isTuple, items) =>
      && b.PSeq? && isTuple == b.isTuple && |items| == |b.items|
      && forall i :: 0 <= i < |items| ==> EqualData(items[i], b.items[i])
    case PDict(es) =>
      && b.PDict?
      && (forall e {:trigger EntryFound(e, b.entries)} :: e in es ==> EntryFound(e, b.entries))
      && (forall f {:trigger EntryCovered(es, f)} :: f in b.entries ==> EntryCovered(es, f))
    case _ => a == b
  }

  ghost predicate EntryFound(e: Entry, fs: seq<Entry>)
    decreases e, 1
  {
    exists f :: f in fs && SameKey(f, e) && EqualData(e.value, f.value)
  }

  ghost predicate EntryCovered(es: seq<Entry>, f: Entry)
    decreases es, 0
  {
    exists e :: e in es && SameKey(f, e) && EqualData(e.value, f.value)
  }

  /** cs holds the canonical entries of es, one for one and in order. */
  ghost predicate Kept(p: Platform, es: seq<Entry>, cs: seq<Entry>) {
    |cs| == |es| && forall i :: 0 <= i < |es| ==> KeptAt(p, es[i], cs[i])
  }

  predicate KeptAt(p: Platform, e: Entry, c: Entry) {
    c.isStr && c.text == e.text && Canon(p, e.value) == Some(c.value)
  }

  lemma KeptLonger(p: Platform, es: seq<Entry>, cs: seq<Entry>, e: Entry, c: Data)
    requires Kept(p, es, cs) && Canon(p, e.value) == Some(c) && forall x :: x in es ==> x.text != e.text
    ensures Kept(p, es + [e], Put(cs, e.text, c))
  {
    forall x | x in cs ensures x.text != e.text {
      var i :| 0 <= i < |cs| && cs[i] == x;
      assert KeptAt(p, es[i], cs[i]) && es[i] in es;
    }
    PutFresh(cs, e.text, c);
  }

  /** With clear keys the comprehension keeps every entry, in order. */
  lemma {:induction false} ClearEntriesKept(p: Platform, es: seq<Entry>)
    requires forall i, j :: 0 <= i < j < |es| ==> es[i].text != es[j].text
    requires CanonEntries(p, es).Some?
    ensures Kept(p, es, CanonEntries(p, es).value)
    decreases |es|
  {
    if es != [] {
      var n := |es| - 1;
      var front, last := es[..n], es[n];
      ClearEntriesKept(p, front);
      forall x | x in front ensures x.text != last.text {
        var i :| 0 <= i < n && front[i] == x;
        assert es[i].text != es[n].text;
      }
      KeptLonger(p, front, CanonEntries(p, front).value, last, Canon(p, last.value).value);
      assert es == front + [last];
    }
  }

  lemma {:induction false} ItemsKept(p: Platform, items: seq<Data>)
    requires CanonItems(p, items).Some?
    ensures var cs := CanonItems(p, items).value;
            |cs| == |items| && forall i :: 0 <= i < |items| ==> Canon(p, items[i]) == Some(cs[i])
  {
    if items != [] {
      ItemsKept(p, items[1..]);
    }
  }

  /** The JSON that gets printed for accepted data. */
  function JsonOf(p: Platform, d: Data): Json {
    match Canon(p, d)
    case None => Null
    case Some(c) => ToJson(p, c)
  }

  lemma JsonOfItems(p: Platform, d: Data)
    requires d.PSeq? && Canon(p, d).Some?
    ensures JsonOf(p, d).List? && |JsonOf(p, d).items| == |d.items|
    ensures forall i :: 0 <= i < |d.items| ==> Canon(p, d.items[i]).Some?
    ensures forall i :: 0 <= i < |d.items| ==> JsonOf(p, d).items[i] == JsonOf(p, d.items[i])
  {
    ItemsKept(p, d.items);
  }

  lemma JsonOfEntries(p: Platform, d: Data)
    requires d.PDict? && Canon(p, d).Some? && ClearKeys(d)
    ensures JsonOf(p, d).Obj? && |JsonOf(p, d).members| == |d.entries|
    ensures forall i :: 0 <= i < |d.entries| ==>
              Canon(p, d.entries[i].value).Some?
              && JsonOf(p, d).members[i] == Member(d.entries[i].text, JsonOf(p, d.entries[i].value))
  {
    ClearEntriesKept(p, d.entries);
    assert forall i :: 0 <= i < |d.entries| ==> KeptAt(p, d.entries[i], CanonEntries(p, d.entries).value[i]);
  }

  lemma {:induction false} EqualDataSameJson(p: Platform, a: Data, b: Data)
    requires Canon(p, a).Some? && Canon(p, b).Some? && ClearKeys(a) && ClearKeys(b) && EqualData(a, b)
    ensures SameJson(JsonOf(p, a), JsonOf(p, b))
    decreases a, 1
  {
    match a
    case PSeq(_, items) =>
      JsonOfItems(p, a);
      JsonOfItems(p, b);
      forall i | 0 <= i < |items| ensures SameJson(JsonOf(p, items[i]), JsonOf(p, b.items[i])) {
        EqualDataSameJson(p, items[i], b.items[i]);
      }
    case PDict(es) =>
      JsonOfEntries(p, a);
      JsonOfEntries(p, b);
      forall m | m in JsonOf(p, a).members ensures FoundIn(m, JsonOf(p, b).members) {
        EntryFoundInJson(p, a, b, m);
      }
      forall k | k in JsonOf(p, b).members ensures Covers(JsonOf(p, a).members, k) {
        EntryCoveredInJson(p, a, b, k);
      }
    case _ =>
  }

  lemma {:induction false} EntryFoundInJson(p: Platform, a: Data, b: Data, m: Member)
    requires a.PDict? && b.PDict? && EqualData(a, b)
    requires Canon(p, a).Some? && Canon(p, b).Some? && ClearKeys(a) && ClearKeys(b)
    requires JsonOf(p, a).Obj? && JsonOf(p, b).Obj? && m in JsonOf(p, a).members
    ensures FoundIn(m, JsonOf(p, b).members)
    decreases a, 0
  {
    JsonOfEntries(p, a);
    JsonOfEntries(p, b);
    var i :| 0 <= i < |JsonOf(p, a).members| && JsonOf(p, a).members[i] == m;
    var e := a.entries[i];
    assert EntryFound(e, b.entries);
    var f :| f in b.entries && SameKey(f, e) && EqualData(e.value, f.value);
    var j :| 0 <= j < |b.entries| && b.entries[j] == f;
    EqualDataSameJson(p, e.value, f.value);
    var k := JsonOf(p, b).members[j];
    assert k in JsonOf(p, b).members && k.key == m.key;
  }

  lemma {:induction false} EntryCoveredInJson(p: Platform, a: Data, b: Data, k: Member)
    requires a.PDict? && b.PDict? && EqualData(a, b)
    requires Canon(p, a).Some? && Canon(p, b).Some? && ClearKeys(a) && ClearKeys(b)
    requires JsonOf(p, a).Obj? && JsonOf(p, b).Obj? && k in JsonOf(p, b).members
    ensures Covers(JsonOf(p, a).members, k)
    decreases a, 0
  {
    JsonOfEntries(p, a);
    JsonOfEntries(p, b);
    var j :| 0 <= j < |JsonOf(p, b).members| && JsonOf(p, b).members[j] == k;
    var f := b.entries[j];
    assert EntryCovered(a.entries, f);
    var e :| e in a.entries && SameKey(f, e) && EqualData(e.value, f.value);
    var i :| 0 <= i < |a.entries| && a.entries[i] == e;
    EqualDataSameJson(p, e.value, f.value);
    var m := JsonOf(p, a).members[i];
    assert m in JsonOf(p, a).members && m.key == k.key;
  }

  /** Accepted data gives equal texts exactly when its printed JSON is the same up to key order. */
  lemma TextDecidesJson(p: Platform, a: Data, b: Data)
    requires Sane(p) && Supported(a) && Supported(b)
    ensures HashedText(p, a).Some? && HashedText(p, b).Some?
    ensures HashedText(p, a) == HashedText(p, b) <==> SameJson(JsonOf(p, a), JsonOf(p, b))
  {
    AcceptsExactlySupported(p, a);
    AcceptsExactlySupported(p, b);
    CanonIsCanonical(p, a);
    CanonIsCanonical(p, b);
    JsonIsPlain(p, Canon(p, a).value);
    JsonIsPlain(p, Canon(p, b).value);
    JsonIsWellFormed(p, Canon(p, a).value);
    JsonIsWellFormed(p, Canon(p, b).value);
    SameTextSameJson(JsonOf(p, a), JsonOf(p, b), " ");
  }

  /** Equal nested data hashes alike in any insertion order, provided no dictionary has two keys with one text. */
  lemma InsertionOrderIrrelevant(p: Platform, sha256: seq<Utf8.Byte> -> string, a: Data, b: Data)
    requires Sane(p) && Supported(a) && Supported(b) && ClearKeys(a) && ClearKeys(b) && EqualData(a, b)
    ensures HashedText(p, a) == HashedText(p, b) && HashData(p, sha256, a) == HashData(p, sha256, b)
  {
    TextDecidesJson(p, a, b);
    AcceptsExactlySupported(p, a);
    AcceptsExactlySupported(p, b);
    EqualDataSameJson(p, a, b);
  }

  // ---- dictionaries whose keys share a text ----

  /** The value of the last entry whose key has the given text. */
  function LastValue(es: seq<Entry>, text: string): Option<Data>
    decreases |es|
  {
    if es == [] then None
    else if es[|es| - 1].text == text then Some(es[|es| - 1].value)
    else LastValue(es[..|es| - 1], text)
  }

  lemma {:induction false} PutThenGet(p: Platform, cs: seq<Entry>, text: string, v: Data, t: string)
    requires forall e :: e in cs ==> e.isStr
    ensures Get(ToJsonEntries(p, Put(cs, text, v)), t)
         == if t == text then Some(ToJson(p, v)) else Get(ToJsonEntries(p, cs), t)
  {
    if cs != [] {
      assert cs[0] in cs;
      PutThenGet(p, cs[1..], text, v, t);
    }
  }

  /** Under each key text the comprehension prints the value of the last entry with that text. */
  lemma {:induction false} LastEntryWins(p: Platform, es: seq<Entry>, text: string)
    requires Sane(p) && CanonEntries(p, es).Some?
    ensures Get(ToJsonEntries(p, CanonEntries(p, es).value), text)
         == match LastValue(es, text) case None => None case Some(v) => Some(JsonOf(p, v))
    decreases |es|
  {
    if es != [] {
      var n := |es| - 1;
      EntriesCanonical(p, es[..n]);
      LastEntryWins(p, es[..n], text);
      PutThenGet(p, CanonEntries(p, es[..n]).value, es[n].text, Canon(p, es[n].value).value, text);
    }
  }

  ghost predicate LastValuesAlike(p: Platform, es: seq<Entry>, fs: seq<Entry>, text: string) {
    var v, w := LastValue(es, text), LastValue(fs, text);
    if v.Some? && w.Some? then SameJson(JsonOf(p, v.value), JsonOf(p, w.value)) else v.None? && w.None?
  }

  lemma DictionaryJson(p: Platform, d: Data)
    requires Sane(p) && d.PDict? && Supported(d)
    ensures Canon(p, d).Some? && JsonOf(p, d).Obj? && DistinctKeys(JsonOf(p, d).members)
    ensures JsonOf(p, d).members == ToJsonEntries(p, CanonEntries(p, d.entries).value)
  {
    AcceptsExactlySupported(p, d);
    CanonIsCanonical(p, d);
    JsonIsWellFormed(p, Canon(p, d).value);
  }

  lemma AlikeByLastValues(p: Platform, a: Data, b: Data, text: string)
    requires Sane(p) && a.PDict? && b.PDict? && Supported(a) && Supported(b)
    requires JsonOf(p, a).Obj? && JsonOf(p, b).Obj?
    ensures LooksUpAlike(JsonOf(p, a).members, JsonOf(p, b).members, text)
       <==> LastValuesAlike(p, a.entries, b.entries, text)
  {
    DictionaryJson(p, a);
    DictionaryJson(p, b);
    LastEntryWins(p, a.entries, text);
    LastEntryWins(p, b.entries, text);
  }

  /**
   * Exactly when two accepted dictionaries give one text, key clashes or not: the same key texts occur, and the
   * last entry of each text prints the same JSON in both.
   */
  lemma DictionariesHashAlikeExactly(p: Platform, a: Data, b: Data)
    requires Sane(p) && a.PDict? && b.PDict? && Supported(a) && Supported(b)
    ensures HashedText(p, a) == HashedText(p, b) <==> forall text :: LastValuesAlike(p, a.entries, b.entries, text)
  {
    DictionaryJson(p, a);
    DictionaryJson(p, b);
    forall text {
      AlikeByLastValues(p, a, b, text);
    }
    TextDecidesJson(p, a, b);
    SameByLookup(JsonOf(p, a).members, JsonOf(p, b).members);
  }

  /** Without that proviso order matters: {1: "x", "1": "y"} and {"1": "y", 1: "x"} are equal but hash differently. */
  lemma SharedKeyTextDependsOnOrder(p: Platform, a: Data, b: Data)
    requires Sane(p)
    requires a == PDict([Entry(false, "1", PStr("x")), Entry(true, "1", PStr("y"))])
    requires b == PDict([Entry(true, "1", PStr("y")), Entry(false, "1", PStr("x"))])
    ensures EqualData(a, b) && HashedText(p, a) != HashedText(p, b)
  {
    var i, s := Entry(false, "1", PStr("x")), Entry(true, "1", PStr("y"));
    SwappedEntriesEqual(i, s);
    TwoEntries(p, i, s);
    TwoEntries(p, s, i);
    TextDecidesJson(p, a, b);
    DifferentSingletons("1", "x", "y");
  }

  /** Values that Python calls equal across types are told apart: True and 1, and an integer and a float. */
  lemma NumericTypesTextDiffer(p: Platform, b: bool, n: int, x: real)
    requires Sane(p)
    ensures HashedText(p, PBool(b)) != HashedText(p, PInt(n))
    ensures HashedText(p, PInt(n)) != HashedText(p, PFloat(Finite(x)))
    ensures HashedText(p, PBool(b)) != HashedText(p, PFloat(Finite(x)))
  {
    TextDecidesJson(p, PBool(b), PInt(n));
    TextDecidesJson(p, PInt(n), PFloat(Finite(x)));
    TextDecidesJson(p, PBool(b), PFloat(Finite(x)));
  }

  lemma DifferentSingletons(key: string, s: string, t: string)
    requires s != t
    ensures !SameJson(Obj([Member(key, Str(t))]), Obj([Member(key, Str(s))]))
  {
    var m, ks := Member(key, Str(t)), [Member(key, Str(s))];
    assert m in [m];
    assert !FoundIn(m, ks);
  }

  lemma SwappedEntriesEqual(e: Entry, f: Entry)
    requires e.value.PStr? && f.value.PStr?
    ensures EqualData(PDict([e, f]), PDict([f, e]))
  {
    var es, fs := [e, f], [f, e];
    assert e in es && f in es && e in fs && f in fs;
    assert EqualData(e.value, e.value) && EqualData(f.value, f.value);
    assert EntryFound(e, fs) && EntryFound(f, fs);
    assert EntryCovered(es, e) && EntryCovered(es, f);
  }

  /** The later of two entries with one text wins. */
  lemma TwoEntries(p: Platform, e: Entry, f: Entry)
    requires e.text == f.text && e.value.PStr? && f.value.PStr?
    ensures JsonOf(p, PDict([e, f])) == Obj([Member(e.text, Str(f.value.s))])
  {
    LastEntry(p, [], e);
    LastEntry(p, [e], f);
    assert [] + [e] == [e] && [e] + [f] == [e, f];
  }

  lemma LastEntry(p: Platform, es: seq<Entry>, e: Entry)
    requires CanonEntries(p, es).Some? && Canon(p, e.value).Some?
    ensures CanonEntries(p, es + [e]) == Some(Put(CanonEntries(p, es).value, e.text, Canon(p, e.value).value))
  {
    assert (es + [e])[..|es|] == es;
  }

  /** Two accepted values with one hash print the same JSON up to key order, or their texts are a SHA-256 collision. */
  lemma EqualHashesMean(p: Platform, sha256: seq<Utf8.Byte> -> string, a: Data, b: Data)
    requires Sane(p) && Supported(a) && Supported(b)
    requires HashData(p, sha256, a).Some? && VerifyHash(p, sha256, b, HashData(p, sha256, a).value)
    ensures SameJson(JsonOf(p, a), JsonOf(p, b))
         || (Utf8.Encode(HashedText(p, a).value) != Utf8.Encode(HashedText(p, b).value)
             && sha256(Utf8.Encode(HashedText(p, a).value)) == sha256(Utf8.Encode(HashedText(p, b).value)))
  {
    TextDecidesJson(p, a, b);
    if Utf8.Encode(HashedText(p, a).value) == Utf8.Encode(HashedText(p, b).value) {
      Utf8.EncodeInjective(HashedText(p, a).value, HashedText(p, b).value);
    }
  }

  /** Unsupported data has no hash, and no expected hash verifies for it. */
  lemma HashesExactlySupported(p: Platform, sha256: seq<Utf8.Byte> -> string, d: Data, expected: string)
    ensures HashData(p, sha256, d).Some? <==> Supported(d)
    ensures VerifyHash(p, sha256, d, expected) ==> Supported(d)
  {
    AcceptsExactlySupported(p, d);
    if Supported(d) {
      JsonIsPlain(p, Canon(p, d).value);
    }
  }

  // ---- what the hashed text says about the data ----

  /** Entry i is printed: no later entry has its key text. */
  predicate Printed(es: seq<Entry>, i: nat) {
    i < |es| && forall j :: i < j < |es| ==> es[j].text != es[i].text
  }

  /** The JSON read from the hashed text: floats rounded, datetimes as ISO text, under each key text the last entry. */
  ghost predicate PrintsAs(p: Platform, d: Data, j: Json)
    decreases d, 0
  {
    match d
    case PNone => j == Null
    case PBool(b) => j == Bool(b)
    case PInt(n) => j == Int(n)
    case PFloat(f) => f.Finite? && j == Float(p.repr(p.round15(f.x)))
    case PStr(s) => j == Str(s)
    case PTime(t) => t.Aware? && j == Str(Iso(t.instant, p.offsetAt(t.instant)))
    case PSeq(_, items) =>
      j.List? && |j.items| == |items| && forall i :: 0 <= i < |items| ==> PrintsAs(p, items[i], j.items[i])
    case PDict(es) =>
      && j.Obj? && DistinctKeys(j.members)
      && (forall e :: e in es ==> HasKey(j.members, e.text))
      && (forall m :: m in j.members ==> FromLastEntry(p, es, m))
    case POther => false
  }

  ghost predicate HasKey(ms: seq<Member>, key: string) {
    exists m :: m in ms && m.key == key
  }

  ghost predicate FromLastEntry(p: Platform, es: seq<Entry>, m: Member)
    decreases es, 0
  {
    exists i :: 0 <= i < |es| && Printed(es, i) && es[i].text == m.key && EntryPrintsAs(p, es[i], m.value)
  }

  ghost predicate EntryPrintsAs(p: Platform, e: Entry, j: Json)
    decreases e, 1
  {
    PrintsAs(p, e.value, j)
  }

  lemma {:induction false} LastValueAt(es: seq<Entry>, text: string) returns (i: nat)
    requires LastValue(es, text).Some?
    ensures Printed(es, i) && es[i].text == text && es[i].value == LastValue(es, text).value
    decreases |es|
  {
    var n := |es| - 1;
    if es[n].text == text {
      i := n;
    } else {
      i := LastValueAt(es[..n], text);
      forall j | i < j < |es| ensures es[j].text != es[i].text {
        assert j < n ==> es[..n][j] == es[j];
      }
    }
  }

  lemma {:induction false} PrintedIsLast(es: seq<Entry>, i: nat)
    requires Printed(es, i)
    ensures LastValue(es, es[i].text) == Some(es[i].value)
    decreases |es|
  {
    var n := |es| - 1;
    if i < n {
      forall j | i < j < n ensures es[..n][j].text != es[..n][i].text {
        assert es[j].text != es[i].text;
      }
      PrintedIsLast(es[..n], i);
    }
  }

  lemma {:induction false} LastValueExists(es: seq<Entry>, e: Entry)
    requires e in es
    ensures LastValue(es, e.text).Some?
    decreases |es|
  {
    var n := |es| - 1;
    if es[n].text != e.text {
      assert e in es[..n];
      LastValueExists(es[..n], e);
    }
  }

  lemma {:induction false} JsonIsPrinted(p: Platform, d: Data)
    requires Sane(p) && Supported(d)
    ensures PrintsAs(p, d, Norm(JsonOf(p, d)))
    decreases d, 1
  {
    AcceptsExactlySupported(p, d);
    match d
    case PSeq(_, items) =>
      JsonOfItems(p, d);
      var printed := NormItems(JsonOf(p, d).items);
      assert Norm(JsonOf(p, d)) == List(printed);
      forall i | 0 <= i < |items| ensures PrintsAs(p, items[i], printed[i]) {
        JsonIsPrinted(p, items[i]);
      }
    case PDict(es) =>
      DictionaryJson(p, d);
      var ms := JsonOf(p, d).members;
      SortedMembers(ms);
      forall e | e in es ensures HasKey(Norm(JsonOf(p, d)).members, e.text) {
        LastValueExists(es, e);
        LastEntryWins(p, es, e.text);
        GetFrom(ms, e.text);
        ImageOf(ms, Member(e.text, Get(ms, e.text).value));
      }
      forall m | m in Norm(JsonOf(p, d)).members ensures FromLastEntry(p, es, m) {
        EntryIsPrinted(p, d, m);
      }
    case _ =>
  }

  lemma {:induction false} EntryIsPrinted(p: Platform, d: Data, m: Member)
    requires Sane(p) && Supported(d) && d.PDict?
    requires JsonOf(p, d).Obj? && m in Sort(KeyBefore, NormMembers(JsonOf(p, d).members))
    ensures FromLastEntry(p, d.entries, m)
    decreases d, 0
  {
    DictionaryJson(p, d);
    var es, ms := d.entries, JsonOf(p, d).members;
    var k := OriginOf(ms, m);
    GetFinds(ms, k);
    LastEntryWins(p, es, k.key);
    var i := LastValueAt(es, k.key);
    assert es[i] in es;
    JsonIsPrinted(p, es[i].value);
    assert EntryPrintsAs(p, es[i], m.value);
  }

  /**
   * The hash of accepted data is that of a text which, with one space after each comma and colon, is JSON with
   * ascending keys that prints the data.
   */
  lemma HashedTextExactly(p: Platform, sha256: seq<Utf8.Byte> -> string, d: Data) returns (text: string, v: Json)
    requires Sane(p) && Supported(d)
    ensures HashedText(p, d) == Some(text) && HashData(p, sha256, d) == Some(sha256(Utf8.Encode(text)))
    ensures forall h :: VerifyHash(p, sha256, d, h) <==> h == sha256(Utf8.Encode(text))
    ensures Loads(text, " ") == Some(v) && KeysAscend(v) && PrintsAs(p, d, v)
  {
    AcceptsExactlySupported(p, d);
    CanonIsCanonical(p, d);
    var j := JsonOf(p, d);
    JsonIsPlain(p, Canon(p, d).value);
    JsonIsWellFormed(p, Canon(p, d).value);
    text, v := HashedText(p, d).value, Norm(j);
    DumpsReadsBack(j, " ");
    NormAscends(j);
    JsonIsPrinted(p, d);
  }

  // ---- datetimes are printed in the machine's own zone, not in UTC ----

  /** The same machine with its clock set to UTC: the text the documentation promises. */
  function InUtc(p: Platform): Platform {
    p.(offsetAt := _ => 0)
  }

  /** The platforms differ in their time zones only. */
  ghost predicate SameNumbers(p: Platform, q: Platform) {
    (forall x :: p.round15(x) == q.round15(x)) && (forall x :: p.repr(x) == q.repr(x))
  }

  /** The zones have one offset at every instant in the data that is printed. */
  predicate OffsetsAgree(p: Platform, q: Platform, d: Data)
    decreases d, 0
  {
    match d
    case PTime(t) => t.Aware? ==> p.offsetAt(t.instant) == q.offsetAt(t.instant)
    case PSeq(_, items) => forall v :: v in items ==> OffsetsAgree(p, q, v)
    case PDict(es) => forall i :: 0 <= i < |es| && Printed(es, i) ==> OffsetsAgreeIn(p, q, es[i])
    case _ => true
  }

  predicate OffsetsAgreeIn(p: Platform, q: Platform, e: Entry)
    decreases e, 1
  {
    OffsetsAgree(p, q, e.value)
  }

  lemma TimeJson(p: Platform, q: Platform, instant: int)
    requires Sane(p) && Sane(q)
    ensures SameJson(JsonOf(p, PTime(Aware(instant))), JsonOf(q, PTime(Aware(instant))))
       <==> p.offsetAt(instant) == q.offsetAt(instant)
  {
    IsoShowsOffset(instant, p.offsetAt(instant), q.offsetAt(instant));
    SameStrings(Iso(instant, p.offsetAt(instant)), Iso(instant, q.offsetAt(instant)));
  }

  lemma SameStrings(s: string, t: string)
    ensures SameJson(Str(s), Str(t)) <==> s == t
  {
  }

  lemma {:induction false} ZonesDecideJson(p: Platform, q: Platform, d: Data)
    requires Sane(p) && Sane(q) && SameNumbers(p, q) && Supported(d)
    ensures SameJson(JsonOf(p, d), JsonOf(q, d)) <==> OffsetsAgree(p, q, d)
    decreases d, 2
  {
    AcceptsExactlySupported(p, d);
    AcceptsExactlySupported(q, d);
    match d
    case PTime(t) => TimeJson(p, q, t.instant);
    case PSeq(_, items) => ZonesDecideItems(p, q, d);
    case PDict(es) => ZonesDecideEntries(p, q, d);
    case _ =>
  }

  lemma {:induction false} ZonesDecideItems(p: Platform, q: Platform, d: Data)
    requires Sane(p) && Sane(q) && SameNumbers(p, q) && Supported(d)
    requires d.PSeq? && Canon(p, d).Some? && Canon(q, d).Some?
    ensures SameJson(JsonOf(p, d), JsonOf(q, d)) <==> OffsetsAgree(p, q, d)
    decreases d, 0
  {
    JsonOfItems(p, d);
    JsonOfItems(q, d);
    forall i | 0 <= i < |d.items|
      ensures SameJson(JsonOf(p, d).items[i], JsonOf(q, d).items[i]) <==> OffsetsAgree(p, q, d.items[i])
    {
      ZonesDecideJson(p, q, d.items[i]);
    }
  }

  /** The value under a key text prints alike on both machines. */
  ghost predicate PrintsAlike(p: Platform, q: Platform, es: seq<Entry>, text: string) {
    var v := LastValue(es, text);
    v.Some? ==> SameJson(JsonOf(p, v.value), JsonOf(q, v.value))
  }

  lemma LookupsByZone(p: Platform, q: Platform, d: Data, text: string)
    requires Sane(p) && Sane(q) && Supported(d) && d.PDict? && JsonOf(p, d).Obj? && JsonOf(q, d).Obj?
    ensures LooksUpAlike(JsonOf(p, d).members, JsonOf(q, d).members, text) <==> PrintsAlike(p, q, d.entries, text)
  {
    DictionaryJson(p, d);
    DictionaryJson(q, d);
    LastEntryWins(p, d.entries, text);
    LastEntryWins(q, d.entries, text);
  }

  /** Key text by key text, two machines print a dictionary alike exactly when they print its last entries alike. */
  lemma DictionaryByZone(p: Platform, q: Platform, d: Data)
    requires Sane(p) && Sane(q) && Supported(d) && d.PDict?
    ensures SameJson(JsonOf(p, d), JsonOf(q, d)) <==> forall text :: PrintsAlike(p, q, d.entries, text)
  {
    DictionaryJson(p, d);
    DictionaryJson(q, d);
    forall text {
      LookupsByZone(p, q, d, text);
    }
    SameByLookup(JsonOf(p, d).members, JsonOf(q, d).members);
  }

  lemma {:induction false} ZonesDecideEntries(p: Platform, q: Platform, d: Data)
    requires Sane(p) && Sane(q) && SameNumbers(p, q) && Supported(d) && d.PDict?
    ensures SameJson(JsonOf(p, d), JsonOf(q, d)) <==> OffsetsAgree(p, q, d)
    decreases d, 1
  {
    var es := d.entries;
    DictionaryByZone(p, q, d);
    forall i | 0 <= i < |es|
      ensures SameJson(JsonOf(p, es[i].value), JsonOf(q, es[i].value)) <==> OffsetsAgreeIn(p, q, es[i])
    {
      ZonesDecideJson(p, q, es[i].value);
    }
    if forall text :: PrintsAlike(p, q, es, text) {
      forall i | 0 <= i < |es| && Printed(es, i) ensures OffsetsAgreeIn(p, q, es[i]) {
        PrintedIsLast(es, i);
        assert PrintsAlike(p, q, es, es[i].text);
      }
    }
    if OffsetsAgree(p, q, d) {
      forall text ensures PrintsAlike(p, q, es, text) {
        if LastValue(es, text).Some? {
          var i := LastValueAt(es, text);
        }
      }
    }
  }

  /** Two machines that differ in their zones hash data alike exactly when the zones agree at every printed instant. */
  lemma ZonesDecideText(p: Platform, q: Platform, d: Data)
    requires Sane(p) && Sane(q) && SameNumbers(p, q) && Supported(d)
    ensures HashedText(p, d) == HashedText(q, d) <==> OffsetsAgree(p, q, d)
  {
    ZonesDecideJson(p, q, d);
    AcceptsExactlySupported(p, d);
    AcceptsExactlySupported(q, d);
    CanonIsCanonical(p, d);
    CanonIsCanonical(q, d);
    JsonIsPlain(p, Canon(p, d).value);
    JsonIsPlain(q, Canon(q, d).value);
    JsonIsWellFormed(p, Canon(p, d).value);
    JsonIsWellFormed(q, Canon(q, d).value);
    SameTextSameJson(JsonOf(p, d), JsonOf(q, d), " ");
  }

  /** The promised UTC text is hashed exactly when the machine's offset is zero at every printed instant. */
  lemma UtcExactly(p: Platform, d: Data)
    requires Sane(p) && Supported(d)
    ensures HashedText(p, d) == HashedText(InUtc(p), d) <==> OffsetsAgree(p, InUtc(p), d)
  {
    ZonesDecideText(p, InUtc(p), d);
  }

  /** For instance: one hour east of Greenwich the first instant of 1970 is not hashed as its UTC text. */
  lemma LocalTextIsNotUtc(p: Platform)
    requires Sane(p) && p.offsetAt(0) == 3600
    ensures HashedText(p, PTime(Aware(0))) != HashedText(InUtc(p), PTime(Aware(0)))
  {
    UtcExactly(p, PTime(Aware(0)));
  }
}
