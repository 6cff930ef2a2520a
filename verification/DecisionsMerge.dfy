/** The "all projects" listing: newest-first pages from every project, merged, sorted and cut to one page. */
module DecisionsMerge {
  import opened StableSort
  import opened Canonical
  import opened IsoTime

  /** Timestamps are ISO 8601 texts and compare by code point; a missing one counts as the empty text. */
  datatype Decision = Decision(id: string, timestamp: string)

  /** What one project's request gave: a page, a single decision object, or an error or anything else. */
  datatype Reply = Page(decisions: seq<Decision>) | Single(decision: Decision) | Other

  predicate Newer(a: Decision, b: Decision) {
    TextBefore(b.timestamp, a.timestamp)
  }

  /** `s[:limit]` */
  function Cut<T>(s: seq<T>, limit: int): seq<T> {
    if limit >= 0 then (if limit <= |s| then s[..limit] else s)
    else if -limit <= |s| then s[..|s| + limit] else []
  }

  function Accepted(replies: seq<Reply>): seq<Decision> {
    if replies == [] then []
    else
      var rest := Accepted(replies[1..]);
      match replies[0]
      case Page(ds) => ds + rest
      case Single(d) => [d] + rest
      case Other => rest
  }

  method ListAll(replies: seq<Reply>, limit: int) returns (page: seq<Decision>)
    ensures page == Cut(Sort(Newer, Accepted(replies)), limit)
  {
    var all := [];
    for i := 0 to |replies|
      invariant all + Accepted(replies[i..]) == Accepted(replies)
    {
      assert replies[i..][1..] == replies[i + 1..];
      match replies[i] {
        case Page(ds) => all := all + ds;
        case Single(d) => all := all + [d];
        case Other =>
      }
    }
    assert all == Accepted(replies);
    all := Sort(Newer, all);
    page := Cut(all, limit);
  }

  lemma NewerOrder()
    ensures StrictWeakOrder(Newer)
  {
    forall a: Decision, b: Decision, c: Decision
      ensures !Newer(a, a)
      ensures Newer(a, b) && Newer(b, c) ==> Newer(a, c)
      ensures !Newer(a, b) && !Newer(b, c) ==> !Newer(a, c)
    {
      TextBeforeTransitive(c.timestamp, b.timestamp, a.timestamp);
      TextBeforeTransitive(a.timestamp, a.timestamp, a.timestamp);
    }
  }

  // ---- dropping an element that enough others precede does not change the first page ----

  /** How many entries of s are at least as new as x. */
  function AtLeast(s: seq<Decision>, x: Decision): nat {
    if s == [] then 0 else (if Newer(x, s[0]) then 0 else 1) + AtLeast(s[1..], x)
  }

  /** x sits in `with` at position p, and removing it leaves `without`. */
  ghost predicate ExtraAt(with: seq<Decision>, without: seq<Decision>, x: Decision, p: nat) {
    p <= |without| && with == without[..p] + [x] + without[p..]
  }

  lemma ConsSplit(s: seq<Decision>, q: nat, y: Decision)
    requires s != [] && q <= |s| - 1
    ensures [s[0]] + (s[1..][..q] + [y] + s[1..][q..]) == s[..q + 1] + [y] + s[q + 1..]
  {
  }

  lemma {:induction false} InsertPosition(y: Decision, s: seq<Decision>) returns (q: nat)
    ensures q <= |s| && Insert(Newer, y, s) == s[..q] + [y] + s[q..]
    ensures forall i :: 0 <= i < q ==> Newer(s[i], y)
    ensures q < |s| ==> !Newer(s[q], y)
  {
    if s != [] && Newer(s[0], y) {
      var k := InsertPosition(y, s[1..]);
      ConsSplit(s, k, y);
      q := k + 1;
      forall i | 0 <= i < q ensures Newer(s[i], y) {
        assert i > 0 ==> s[i] == s[1..][i - 1];
      }
      assert q < |s| ==> s[q] == s[1..][k];
    } else {
      q := 0;
      assert s[..0] + [y] + s[0..] == [y] + s;
    }
  }

  lemma InsertAt(y: Decision, s: seq<Decision>, q: nat)
    requires q <= |s| && (forall i :: 0 <= i < q ==> Newer(s[i], y)) && (q < |s| ==> !Newer(s[q], y))
    ensures Insert(Newer, y, s) == s[..q] + [y] + s[q..]
  {
    var k := InsertPosition(y, s);
    assert k == q;
  }

  lemma PutBehind(without: seq<Decision>, x: Decision, p: nat, y: Decision, q: nat)
    requires p <= q <= |without|
    ensures var with := without[..p] + [x] + without[p..];
            ExtraAt(with[..q + 1] + [y] + with[q + 1..], without[..q] + [y] + without[q..], x, p)
  {
    var with, more := without[..p] + [x] + without[p..], without[..q] + [y] + without[q..];
    assert with[..q + 1] + [y] + with[q + 1..] == more[..p] + [x] + more[p..];
  }

  lemma PutInFront(without: seq<Decision>, x: Decision, p: nat, y: Decision, q: nat)
    requires q <= p <= |without|
    ensures var with := without[..p] + [x] + without[p..];
            ExtraAt(with[..q] + [y] + with[q..], without[..q] + [y] + without[q..], x, p + 1)
  {
    var with, more := without[..p] + [x] + without[p..], without[..q] + [y] + without[q..];
    assert with[..q] + [y] + with[q..] == more[..p + 1] + [x] + more[p + 1..];
  }

  lemma ExtraElements(with: seq<Decision>, without: seq<Decision>, x: Decision, p: nat)
    requires ExtraAt(with, without, x, p)
    ensures |with| == |without| + 1 && with[p] == x
    ensures forall i :: 0 <= i < p ==> with[i] == without[i]
    ensures forall i :: p <= i < |without| ==> with[i + 1] == without[i]
  {
  }

  /** An older y goes behind the extra element in both lists, a y at least as new in front of it. */
  lemma InsertBehind(y: Decision, with: seq<Decision>, without: seq<Decision>, x: Decision, p: nat)
    requires StrictWeakOrder(Newer) && Sorted(Newer, with) && ExtraAt(with, without, x, p) && Newer(x, y)
    ensures ExtraAt(Insert(Newer, y, with), Insert(Newer, y, without), x, p)
  {
    var q := InsertPosition(y, without);
    ExtraElements(with, without, x, p);
    AllBeforeAreNewer(with, p, y);
    forall i | 0 <= i < p ensures Newer(without[i], y) {
      assert with[i] == without[i];
    }
    assert p <= q;
    forall i | 0 <= i < q + 1 ensures Newer(with[i], y) {
      assert i > p ==> with[(i - 1) + 1] == without[i - 1];
    }
    InsertAt(y, with, q + 1);
    PutBehind(without, x, p, y, q);
  }

  lemma AllBeforeAreNewer(s: seq<Decision>, p: nat, y: Decision)
    requires StrictWeakOrder(Newer) && Sorted(Newer, s) && p < |s| && Newer(s[p], y)
    ensures forall i :: 0 <= i <= p ==> Newer(s[i], y)
  {
    forall i | 0 <= i < p ensures Newer(s[i], y) {
      assert !Newer(s[p], s[i]);
      var a, b := s[p], s[i];
      assert !Newer(a, b) && !Newer(b, y) ==> !Newer(a, y);
    }
  }

  lemma InsertInFront(y: Decision, with: seq<Decision>, without: seq<Decision>, x: Decision, p: nat)
    requires StrictWeakOrder(Newer) && Sorted(Newer, with) && ExtraAt(with, without, x, p) && !Newer(x, y)
    ensures ExtraAt(Insert(Newer, y, with), Insert(Newer, y, without), x, p + 1)
  {
    var q := InsertPosition(y, without);
    ExtraElements(with, without, x, p);
    if p < |without| {
      assert !Newer(with[p + 1], with[p]) && with[p + 1] == without[p];
      assert !Newer(without[p], y);
    }
    assert q <= p;
    InsertAt(y, with, q);
    PutInFront(without, x, p, y, q);
  }

  lemma SortCons(y: Decision, s: seq<Decision>)
    ensures Sort(Newer, [y] + s) == Insert(Newer, y, Sort(Newer, s))
  {
    assert ([y] + s)[1..] == s;
  }

  lemma Regroup(a: seq<Decision>, b: seq<Decision>, c: seq<Decision>)
    ensures (a + b) + c == a + (b + c)
  {
  }

  /** In the sorted merge, x comes after everything before it in the unsorted one that is at least as new. */
  lemma {:induction false} ExtraIsLate(a: seq<Decision>, x: Decision, b: seq<Decision>) returns (p: nat)
    ensures ExtraAt(Sort(Newer, a + ([x] + b)), Sort(Newer, a + b), x, p) && p >= AtLeast(a, x)
    decreases |a|
  {
    if a == [] {
      assert a + ([x] + b) == [x] + b && a + b == b;
      SortCons(x, b);
      p := InsertPosition(x, Sort(Newer, b));
    } else {
      var y, rest := a[0], a[1..];
      var with, without := rest + ([x] + b), rest + b;
      assert a == [y] + rest;
      Regroup([y], rest, [x] + b);
      Regroup([y], rest, b);
      SortCons(y, with);
      SortCons(y, without);
      p := ExtraIsLate(rest, x, b);
      NewerOrder();
      SortSorted(Newer, with);
      if Newer(x, y) {
        InsertBehind(y, Sort(Newer, with), Sort(Newer, without), x, p);
      } else {
        InsertInFront(y, Sort(Newer, with), Sort(Newer, without), x, p);
        p := p + 1;
      }
    }
  }

  lemma CutBeforeExtra(with: seq<Decision>, without: seq<Decision>, x: Decision, p: nat, limit: nat)
    requires ExtraAt(with, without, x, p) && limit <= p
    ensures Cut(with, limit) == Cut(without, limit)
  {
  }

  /** Dropping an element that `limit` earlier, at least as new ones precede leaves the page as it was. */
  lemma DropLate(a: seq<Decision>, x: Decision, b: seq<Decision>, limit: nat)
    requires AtLeast(a, x) >= limit
    ensures Cut(Sort(Newer, a + ([x] + b)), limit) == Cut(Sort(Newer, a + b), limit)
  {
    var p := ExtraIsLate(a, x, b);
    CutBeforeExtra(Sort(Newer, a + ([x] + b)), Sort(Newer, a + b), x, p, limit);
  }

  // ---- pages of at most `limit` are enough ----

  lemma {:induction false} AtLeastInStore(store: seq<Decision>, x: Decision)
    requires forall y :: y in store ==> !Newer(x, y)
    ensures AtLeast(store, x) == |store|
  {
    if store != [] {
      AtLeastInStore(store[1..], x);
    }
  }

  lemma {:induction false} AtLeastConcat(a: seq<Decision>, b: seq<Decision>, x: Decision)
    ensures AtLeast(a + b, x) == AtLeast(a, x) + AtLeast(b, x)
  {
    if a == [] {
      assert a + b == b;
    } else {
      AtLeastConcat(a[1..], b, x);
      assert (a + b)[1..] == a[1..] + b;
    }
  }

  /** The last decision of a store longer than `limit` never reaches the merged page. */
  lemma TrimOne(a: seq<Decision>, front: seq<Decision>, x: Decision, b: seq<Decision>, limit: nat)
    requires |front| >= limit && forall y :: y in front ==> !Newer(x, y)
    ensures Cut(Sort(Newer, a + ((front + [x]) + b)), limit) == Cut(Sort(Newer, a + (front + b)), limit)
  {
    AtLeastInStore(front, x);
    AtLeastConcat(a, front, x);
    DropLate(a + front, x, b, limit);
    Regroup(front, [x], b);
    Regroup(a, front, [x] + b);
    Regroup(a, front, b);
  }

  /** Cutting one newest-first store to `limit` inside a merge leaves the merged page as it was. */
  lemma {:induction false} TrimStore(a: seq<Decision>, store: seq<Decision>, b: seq<Decision>, limit: nat)
    requires Sorted(Newer, store)
    ensures Cut(Sort(Newer, a + (store + b)), limit) == Cut(Sort(Newer, a + (Cut(store, limit) + b)), limit)
    decreases |store|
  {
    if |store| > limit {
      var n := |store| - 1;
      var front, x := store[..n], store[n];
      forall y | y in front ensures !Newer(x, y) {
        var i :| 0 <= i < n && front[i] == y;
        assert !Newer(store[n], store[i]);
      }
      TrimOne(a, front, x, b, limit);
      assert store == front + [x];
      TrimStore(a, front, b, limit);
      assert Cut(front, limit) == Cut(store, limit);
    } else {
      assert Cut(store, limit) == store;
    }
  }

  function Concat(stores: seq<seq<Decision>>): seq<Decision> {
    if stores == [] then [] else stores[0] + Concat(stores[1..])
  }

  function FirstPages(stores: seq<seq<Decision>>, limit: int): seq<Reply> {
    if stores == [] then [] else [Page(Cut(stores[0], limit))] + FirstPages(stores[1..], limit)
  }

  lemma {:induction false} TrimAll(a: seq<Decision>, stores: seq<seq<Decision>>, limit: nat)
    requires forall s :: s in stores ==> Sorted(Newer, s)
    ensures Cut(Sort(Newer, a + Concat(stores)), limit)
         == Cut(Sort(Newer, a + Accepted(FirstPages(stores, limit))), limit)
    decreases |stores|
  {
    if stores != [] {
      var page, rest := Cut(stores[0], limit), Concat(stores[1..]);
      var more := Accepted(FirstPages(stores[1..], limit));
      TrimStore(a, stores[0], rest, limit);
      TrimAll(a + page, stores[1..], limit);
      Regroup(a, page, rest);
      Regroup(a, page, more);
      AcceptedPages(stores, limit);
    }
  }

  lemma AcceptedPages(stores: seq<seq<Decision>>, limit: nat)
    requires stores != []
    ensures Accepted(FirstPages(stores, limit)) == Cut(stores[0], limit) + Accepted(FirstPages(stores[1..], limit))
  {
    assert FirstPages(stores, limit)[1..] == FirstPages(stores[1..], limit);
  }

  /**
   * Asking each project for its newest `limit` decisions gives the same page, in the same order, as fetching every
   * decision of every project, sorting once and cutting.
   */
  lemma MergeRefinesFullSort(stores: seq<seq<Decision>>, limit: nat)
    requires forall s :: s in stores ==> Sorted(Newer, s)
    ensures Cut(Sort(Newer, Accepted(FirstPages(stores, limit))), limit) == Cut(Sort(Newer, Concat(stores)), limit)
  {
    TrimAll([], stores, limit);
    assert [] + Concat(stores) == Concat(stores);
    assert [] + Accepted(FirstPages(stores, limit)) == Accepted(FirstPages(stores, limit));
  }

  lemma CutOfSorted(all: seq<Decision>, limit: int) returns (omitted: seq<Decision>)
    requires Sorted(Newer, all)
    ensures Cut(all, limit) + omitted == all && Sorted(Newer, Cut(all, limit))
    ensures forall x, y :: x in omitted && y in Cut(all, limit) ==> !Newer(x, y)
  {
    var n := |Cut(all, limit)|;
    omitted := all[n..];
    forall x, y | x in omitted && y in Cut(all, limit) ensures !Newer(x, y) {
      var i :| 0 <= i < |omitted| && omitted[i] == x;
      var j :| 0 <= j < n && Cut(all, limit)[j] == y;
      assert all[n + i] == x && all[j] == y;
    }
  }

  /** So the page is a global newest-`limit`: full length, newest first, and nothing left out is newer. */
  lemma MergeIsGlobalNewest(stores: seq<seq<Decision>>, limit: nat) returns (omitted: seq<Decision>)
    requires forall s :: s in stores ==> Sorted(Newer, s)
    ensures var page := Cut(Sort(Newer, Accepted(FirstPages(stores, limit))), limit);
            && |page| == (if limit <= |Concat(stores)| then limit else |Concat(stores)|)
            && Sorted(Newer, page)
            && multiset(page) + multiset(omitted) == multiset(Concat(stores))
            && forall x, y :: x in omitted && y in page ==> !Newer(x, y)
  {
    var all := Sort(Newer, Concat(stores));
    MergeRefinesFullSort(stores, limit);
    assert Sorted(Newer, all) by {
      NewerOrder();
      SortSorted(Newer, Concat(stores));
    }
    omitted := CutOfSorted(all, limit);
    assert multiset(Cut(all, limit)) + multiset(omitted) == multiset(Cut(all, limit) + omitted);
  }

  /** Replies are gathered in order: pages whole, single decisions as one, anything else not at all. */
  lemma {:induction false} AcceptedInOrder(replies: seq<Reply>, r: Reply)
    ensures Accepted([]) == []
    ensures Accepted(replies + [r])
         == Accepted(replies) + if r.Page? then r.decisions else if r.Single? then [r.decision] else []
  {
    if replies == [] {
      assert replies + [r] == [r] && [r][1..] == [];
    } else {
      AcceptedInOrder(replies[1..], r);
      assert (replies + [r])[0] == replies[0] && (replies + [r])[1..] == replies[1..] + [r];
    }
  }

  /**
   * The listed page for any limit: nothing gathered is lost or invented, timestamps never increase along the page, and
   * nothing left out has a later one. A negative limit leaves out that many.
   */
  lemma ListedExactly(replies: seq<Reply>, limit: int) returns (omitted: seq<Decision>)
    ensures var page, n := Cut(Sort(Newer, Accepted(replies)), limit), |Accepted(replies)|;
            && multiset(page + omitted) == multiset(Accepted(replies))
            && |page| == (if limit > n then n else if limit >= 0 then limit
                          else if n + limit >= 0 then n + limit else 0)
            && (forall i, j :: 0 <= i < j < |page| ==> !TextBefore(page[i].timestamp, page[j].timestamp))
            && forall x, y :: x in omitted && y in page ==> !TextBefore(y.timestamp, x.timestamp)
  {
    var all := Sort(Newer, Accepted(replies));
    NewerOrder();
    SortSorted(Newer, Accepted(replies));
    omitted := CutOfSorted(all, limit);
    SortedByText(Cut(all, limit));
    LaterByText(omitted, Cut(all, limit));
  }

  lemma SortedByText(page: seq<Decision>)
    requires Sorted(Newer, page)
    ensures forall i, j :: 0 <= i < j < |page| ==> !TextBefore(page[i].timestamp, page[j].timestamp)
  {
    forall i, j | 0 <= i < j < |page| ensures !TextBefore(page[i].timestamp, page[j].timestamp) {
      assert !Newer(page[j], page[i]);
    }
  }

  lemma LaterByText(omitted: seq<Decision>, page: seq<Decision>)
    requires forall x, y :: x in omitted && y in page ==> !Newer(x, y)
    ensures forall x, y :: x in omitted && y in page ==> !TextBefore(y.timestamp, x.timestamp)
  {
    forall x, y | x in omitted && y in page ensures !TextBefore(y.timestamp, x.timestamp) {
      assert !Newer(x, y);
    }
  }

  // ---- when text order is time order ----

  /** A time as the recorder prints it: fixed-width date and time, a fraction unless it is zero, and the zone suffix. */
  datatype Stamp = Stamp(second: string, micros: nat)

  predicate IsStamp(s: Stamp) {
    |s.second| == 19 && s.micros < 1_000_000
  }

  function StampText(s: Stamp, zone: string): string {
    s.second + (FractionText(s.micros) + zone)
  }

  /** Earlier in time; the fields of `second` have fixed widths, so they compare like their texts. */
  predicate Earlier(a: Stamp, b: Stamp) {
    TextBefore(a.second, b.second) || (a.second == b.second && a.micros < b.micros)
  }

  lemma {:induction false} BeforeConcat(a: string, b: string, x: string, y: string)
    requires |a| == |b|
    ensures TextBefore(a + x, b + y) <==> TextBefore(a, b) || (a == b && TextBefore(x, y))
  {
    if a == [] {
      assert a + x == x && b + y == y;
    } else {
      assert (a + x)[1..] == a[1..] + x && (b + y)[1..] == b[1..] + y;
      BeforeConcat(a[1..], b[1..], x, y);
      assert a == [a[0]] + a[1..] && b == [b[0]] + b[1..];
    }
  }

  lemma DigitOrder(a: nat, b: nat)
    requires a < 10 && b < 10
    ensures TextBefore(["0123456789"[a]], ["0123456789"[b]]) <==> a < b
  {
  }

  lemma {:induction false} DigitsOrder(a: nat, b: nat, width: nat)
    requires a < Pow10(width) && b < Pow10(width)
    ensures TextBefore(Digits(a, width), Digits(b, width)) <==> a < b
  {
    if width > 0 {
      DigitsOrder(a / 10, b / 10, width - 1);
      DigitOrder(a % 10, b % 10);
      BeforeConcat(Digits(a / 10, width - 1), Digits(b / 10, width - 1),
                   ["0123456789"[a % 10]], ["0123456789"[b % 10]]);
      if Digits(a / 10, width - 1) == Digits(b / 10, width - 1) {
        DigitsInjective(a / 10, b / 10, width - 1);
      }
    }
  }

  lemma Million()
    ensures Pow10(6) == 1_000_000
  {
    assert Pow10(3) == 1000;
  }

  lemma FractionOrder(a: nat, b: nat, zone: string)
    requires 0 < a < 1_000_000 && 0 < b < 1_000_000
    ensures TextBefore(FractionText(a) + zone, FractionText(b) + zone) <==> a < b
  {
    Million();
    TextBeforeTransitive(zone, zone, zone);
    DigitsOrder(a, b, 6);
    BeforeConcat(".", ".", Digits(a, 6), Digits(b, 6));
    BeforeConcat(FractionText(a), FractionText(b), zone, zone);
    TextBeforeTransitive(".", ".", ".");
  }

  lemma WholeAgainstFraction(m: nat, zone: string)
    requires m > 0 && (zone == "" || zone[0] != '.')
    ensures TextBefore(FractionText(0) + zone, FractionText(m) + zone) <==> zone == "" || zone[0] < '.'
    ensures TextBefore(FractionText(m) + zone, FractionText(0) + zone) <==> zone != "" && zone[0] > '.'
  {
    assert FractionText(0) + zone == zone && (FractionText(m) + zone)[0] == '.';
  }

  /** One of two stamps of the same second has no fraction, and the zone suffix sorts after the decimal point. */
  predicate WholeSecondClash(a: Stamp, b: Stamp, zone: string) {
    a.second == b.second && (a.micros == 0) != (b.micros == 0) && zone != "" && zone[0] > '.'
  }

  /** Text order is time order exactly without such a clash: "Z" clashes, "+00:00" and no suffix never do. */
  lemma TextOrderIsTimeOrderExactly(a: Stamp, b: Stamp, zone: string)
    requires IsStamp(a) && IsStamp(b) && (zone == "" || zone[0] != '.')
    ensures (TextBefore(StampText(a, zone), StampText(b, zone)) <==> Earlier(a, b)) <==> !WholeSecondClash(a, b, zone)
  {
    BeforeConcat(a.second, b.second, FractionText(a.micros) + zone, FractionText(b.micros) + zone);
    TextBeforeTransitive(a.second, a.second, a.second);
    if a.micros > 0 && b.micros > 0 {
      FractionOrder(a.micros, b.micros, zone);
    } else if a.micros > 0 {
      WholeAgainstFraction(a.micros, zone);
    } else if b.micros > 0 {
      WholeAgainstFraction(b.micros, zone);
    } else {
      var rest := FractionText(0) + zone;
      TextBeforeTransitive(rest, rest, rest);
    }
  }

  ghost predicate StampedWith(ds: seq<Decision>, stamps: seq<Stamp>, zone: string) {
    && |ds| == |stamps| && (zone == "" || zone[0] != '.')
    && forall i :: 0 <= i < |ds| ==> IsStamp(stamps[i]) && ds[i].timestamp == StampText(stamps[i], zone)
  }

  ghost predicate NewestFirst(stamps: seq<Stamp>) {
    forall i, j :: 0 <= i < j < |stamps| ==> !Earlier(stamps[i], stamps[j])
  }

  ghost predicate NoClash(stamps: seq<Stamp>, zone: string) {
    forall i, j :: 0 <= i < j < |stamps| ==> !WholeSecondClash(stamps[i], stamps[j], zone)
  }

  lemma EarlierAsymmetric(a: Stamp, b: Stamp)
    ensures !(Earlier(a, b) && Earlier(b, a))
  {
    TextBeforeTransitive(a.second, b.second, a.second);
    TextBeforeTransitive(a.second, a.second, a.second);
    TextBeforeTransitive(b.second, b.second, b.second);
  }

  /** A clashing pair is in order by exactly one of text and time, whichever way round it stands. */
  lemma ClashSplits(a: Stamp, b: Stamp, zone: string)
    requires IsStamp(a) && IsStamp(b) && (zone == "" || zone[0] != '.') && WholeSecondClash(a, b, zone)
    ensures TextBefore(StampText(a, zone), StampText(b, zone)) <==> !Earlier(a, b)
  {
    TextOrderIsTimeOrderExactly(a, b, zone);
  }

  /** A store that is newest first in time is sorted as the merge assumes exactly when no two of its stamps clash. */
  lemma TimeSortedStore(store: seq<Decision>, stamps: seq<Stamp>, zone: string)
    requires StampedWith(store, stamps, zone) && NewestFirst(stamps)
    ensures Sorted(Newer, store) <==> NoClash(stamps, zone)
  {
    forall i, j | 0 <= i < j < |store|
      ensures !Newer(store[j], store[i]) <==> !WholeSecondClash(stamps[i], stamps[j], zone)
    {
      TextOrderIsTimeOrderExactly(stamps[i], stamps[j], zone);
    }
  }

  /** A store sorted by text is newest first in time exactly when no two of its stamps clash. */
  lemma TextSortedStore(store: seq<Decision>, stamps: seq<Stamp>, zone: string)
    requires StampedWith(store, stamps, zone) && Sorted(Newer, store)
    ensures NewestFirst(stamps) <==> NoClash(stamps, zone)
  {
    forall i, j | 0 <= i < j < |store|
      ensures !Earlier(stamps[i], stamps[j]) <==> !WholeSecondClash(stamps[i], stamps[j], zone)
    {
      assert !Newer(store[j], store[i]);
      TextOrderIsTimeOrderExactly(stamps[i], stamps[j], zone);
    }
  }

  lemma PageSorted(replies: seq<Reply>, limit: int)
    ensures Sorted(Newer, Cut(Sort(Newer, Accepted(replies)), limit))
  {
    NewerOrder();
    SortSorted(Newer, Accepted(replies));
  }

  /** The listed page, whatever the replies and the limit, is newest first in time exactly without a clash on it. */
  lemma PageNewestFirstExactly(replies: seq<Reply>, limit: int, stamps: seq<Stamp>, zone: string)
    requires StampedWith(Cut(Sort(Newer, Accepted(replies)), limit), stamps, zone)
    ensures NewestFirst(stamps) <==> NoClash(stamps, zone)
  {
    PageSorted(replies, limit);
    TextSortedStore(Cut(Sort(Newer, Accepted(replies)), limit), stamps, zone);
  }

  /** For instance: with "Z", ten o'clock sharp sorts as newer than half a second past it. */
  lemma WholeSecondSortsLate(a: Stamp, b: Stamp)
    requires a == Stamp("2024-05-01T10:00:00", 0) && b == Stamp("2024-05-01T10:00:00", 500_000)
    ensures Earlier(a, b) && Newer(Decision("a", StampText(a, "Z")), Decision("b", StampText(b, "Z")))
  {
    EarlierAsymmetric(a, b);
    ClashSplits(b, a, "Z");
  }
}
