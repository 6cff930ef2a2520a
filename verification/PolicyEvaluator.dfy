/**
 * The declarative policy evaluator: dotted-path lookup, comparison and text operators, and the AND of a policy's
 * conditions. Python's `str.lower`, `str`, `==` and `float`, the regular-expression search and the language model's
 * reply are parameters.
 */
module PolicyEvaluator {
  import opened Options
  import opened Json
  import opened Canonical

  /** What `float(x)` gives: an error, a NaN, or a number. */
  datatype Number = NotNumeric | NotANumber | Number(x: real)

  /**
   * `search(pattern, text)` is None for a malformed pattern; `ask(condition, text)` is the stripped, upper-cased reply,
   * None without a configured key or on any failure.
   */
  datatype Python = Python(
    lower: string -> string,
    str: Json -> string,
    equal: (Json, Json) -> bool,
    float: Json -> Number,
    search: (string, string) -> Option<bool>,
    ask: (string, string) -> Option<string>)

  datatype Operator =
    Eq | Neq | In | NotIn | Contains | NotContains | StartsWith | Regex | Gt | Lt | Gte | Lte | LlmEvaluate

  datatype Condition = Condition(field: string, operator: Operator, value: Json)

  // ---- path lookup ----

  function SplitDots(s: string): (r: seq<string>)
    ensures r != []
  {
    if s == [] then [""]
    else
      var rest := SplitDots(s[1..]);
      if s[0] == '.' then [""] + rest else [[s[0]] + rest[0]] + rest[1..]
  }

  /** `".".join(parts)` */
  function JoinDots(parts: seq<string>): string {
    if parts == [] then [] else if |parts| == 1 then parts[0] else parts[0] + "." + JoinDots(parts[1..])
  }

  ghost predicate DotFree(parts: seq<string>) {
    forall p :: p in parts ==> '.' !in p
  }

  lemma JoinDotsFirst(c: char, parts: seq<string>)
    requires parts != []
    ensures JoinDots([[c] + parts[0]] + parts[1..]) == [c] + JoinDots(parts)
  {
    var longer := [[c] + parts[0]] + parts[1..];
    var rest := JoinDots(parts[1..]);
    assert longer[1..] == parts[1..];
    assert ([c] + parts[0]) + "." + rest == [c] + (parts[0] + "." + rest);
  }

  lemma JoinDotsEmpty(parts: seq<string>)
    requires parts != []
    ensures JoinDots([""] + parts) == "." + JoinDots(parts)
  {
    assert ([""] + parts)[1..] == parts;
  }

  /** The parts are the pieces between the dots: none contains a dot, and joined with dots they give the text back. */
  lemma {:induction false} SplitDotsParts(s: string)
    ensures JoinDots(SplitDots(s)) == s && DotFree(SplitDots(s))
  {
    if s != [] {
      SplitDotsParts(s[1..]);
      var rest := SplitDots(s[1..]);
      JoinDotsFirst(s[0], rest);
      JoinDotsEmpty(rest);
      assert s == [s[0]] + s[1..];
      assert rest[0] in rest && forall p :: p in rest[1..] ==> p in rest;
    }
  }

  lemma SplitDotsLetter(c: char, s: string)
    requires c != '.'
    ensures SplitDots([c] + s) == [[c] + SplitDots(s)[0]] + SplitDots(s)[1..]
  {
    assert ([c] + s)[1..] == s;
  }

  /** No other list of dot-free parts joins to the same text. */
  lemma {:induction false} SplitDotsUnique(parts: seq<string>)
    requires parts != [] && DotFree(parts)
    ensures SplitDots(JoinDots(parts)) == parts
    decreases |parts|, |parts[0]|
  {
    var p := parts[0];
    if p == "" && |parts| > 1 {
      SplitDotsUnique(parts[1..]);
      assert JoinDots(parts) == "." + JoinDots(parts[1..]);
      assert ("." + JoinDots(parts[1..]))[1..] == JoinDots(parts[1..]);
      assert parts == [""] + parts[1..];
    } else if p != "" {
      assert p[0] in p && forall c :: c in p[1..] ==> c in p;
      var shorter := [p[1..]] + parts[1..];
      assert forall q :: q in parts[1..] ==> q in parts;
      SplitDotsUnique(shorter);
      JoinDotsFirst(p[0], shorter);
      assert [p[0]] + p[1..] == p && shorter[1..] == parts[1..];
      assert [[p[0]] + shorter[0]] + shorter[1..] == parts;
      SplitDotsLetter(p[0], JoinDots(shorter));
    } else {
      assert parts == [""];
    }
  }

  /** `dict.get(key, default)` */
  function GetOr(ms: seq<Member>, key: string, default: Json): Json {
    match Get(ms, key)
    case None => default
    case Some(v) => v
  }

  function Lookup(v: Json, path: seq<string>): Json
    decreases |path|
  {
    if path == [] then v else if v.Obj? then Lookup(GetOr(v.members, path[0], Null), path[1..]) else Null
  }

  /** A chain of dictionary entries under the given keys. */
  ghost predicate Chain(vs: seq<Json>, path: seq<string>) {
    && |vs| == |path| + 1
    && forall i :: 0 <= i < |path| ==> vs[i].Obj? && Member(path[i], vs[i + 1]) in vs[i].members
  }

  ghost predicate Leads(v: Json, path: seq<string>, r: Json) {
    exists vs: seq<Json> :: Chain(vs, path) && vs[0] == v && vs[|path|] == r
  }

  lemma LeadsFurther(ms: seq<Member>, path: seq<string>, w: Json, r: Json)
    requires path != [] && Member(path[0], w) in ms && Leads(w, path[1..], r)
    ensures Leads(Obj(ms), path, r)
  {
    var vs: seq<Json> :| Chain(vs, path[1..]) && vs[0] == w && vs[|path| - 1] == r;
    var longer := [Obj(ms)] + vs;
    forall i | 0 <= i < |path| ensures longer[i].Obj? && Member(path[i], longer[i + 1]) in longer[i].members {
      assert i > 0 ==> path[1..][i - 1] == path[i];
    }
    assert Chain(longer, path) && longer[|path|] == r;
  }

  lemma LeadsOneStep(v: Json, path: seq<string>, r: Json) returns (w: Json)
    requires path != [] && Leads(v, path, r)
    ensures v.Obj? && Member(path[0], w) in v.members && Leads(w, path[1..], r)
  {
    var vs: seq<Json> :| Chain(vs, path) && vs[0] == v && vs[|path|] == r;
    w := vs[1];
    forall i | 0 <= i < |path| - 1
      ensures vs[1..][i].Obj? && Member(path[1..][i], vs[1..][i + 1]) in vs[1..][i].members
    {
      assert vs[1..][i] == vs[i + 1] && vs[1..][i + 1] == vs[i + 2] && path[1..][i] == path[i + 1];
    }
    assert Chain(vs[1..], path[1..]) && vs[1..][|path| - 1] == r;
  }

  /** The lookup finds a value exactly when entries under the path's keys lead to it; anything else is null. */
  lemma {:induction false} LookupExactly(v: Json, path: seq<string>, r: Json)
    requires WellFormed(v) && r != Null
    ensures Lookup(v, path) == r <==> Leads(v, path, r)
    decreases |path|
  {
    if path == [] {
      assert Chain([v], path);
    } else if v.Obj? {
      var found := Get(v.members, path[0]);
      if found.Some? {
        GetFrom(v.members, path[0]);
        LookupExactly(found.value, path[1..], r);
        if Leads(found.value, path[1..], r) {
          LeadsFurther(v.members, path, found.value, r);
        }
      }
      if Leads(v, path, r) {
        var w := LeadsOneStep(v, path, r);
        GetFinds(v.members, Member(path[0], w));
      }
      if found.None? {
        NullLeadsNowhere(path[1..]);
      }
    } else if Leads(v, path, r) {
      var w := LeadsOneStep(v, path, r);
    }
  }

  lemma NullLeadsNowhere(path: seq<string>)
    ensures Lookup(Null, path) == Null
  {
  }

  method ResolveField(context: Json, field: string) returns (value: Json)
    ensures value == Lookup(context, SplitDots(field))
  {
    var path := SplitDots(field);
    value := context;
    for i := 0 to |path|
      invariant Lookup(context, path) == Lookup(value, path[i..])
    {
      if value.Obj? {
        assert path[i..][1..] == path[i + 1..];
        value := GetOr(value.members, path[i], Null);
      } else {
        return Null;
      }
    }
  }

  // ---- text flattening ----

  /** The texts of the leaves, in order; null contributes nothing. */
  function Leaves(py: Python, v: Json): seq<string>
    decreases v, 0
  {
    match v
    case Str(s) => [s]
    case Obj(members) => MemberLeaves(py, members)
    case List(items) => ItemLeaves(py, items)
    case Null => []
    case _ => [py.str(v)]
  }

  function ItemLeaves(py: Python, items: seq<Json>): seq<string>
    decreases items, 0
  {
    if items == [] then [] else Leaves(py, items[0]) + ItemLeaves(py, items[1..])
  }

  function MemberLeaves(py: Python, ms: seq<Member>): seq<string>
    decreases ms, 0
  {
    if ms == [] then [] else MemberLeaf(py, ms[0]) + MemberLeaves(py, ms[1..])
  }

  function MemberLeaf(py: Python, m: Member): seq<string>
    decreases m, 1
  {
    Leaves(py, m.value)
  }

  lemma NextItem(py: Python, parts: seq<string>, items: seq<Json>, i: nat)
    requires i < |items|
    ensures parts + ItemLeaves(py, items[i..]) == parts + Leaves(py, items[i]) + ItemLeaves(py, items[i + 1..])
  {
    assert items[i..][1..] == items[i + 1..];
  }

  lemma NextMember(py: Python, parts: seq<string>, ms: seq<Member>, i: nat)
    requires i < |ms|
    ensures parts + MemberLeaves(py, ms[i..]) == parts + Leaves(py, ms[i].value) + MemberLeaves(py, ms[i + 1..])
  {
    assert ms[i..][1..] == ms[i + 1..];
  }

  /** A text is its own leaf, null has none, and any other scalar is one leaf with its `str`. */
  lemma ScalarLeaves(py: Python, v: Json)
    requires !v.List? && !v.Obj?
    ensures Leaves(py, v) == if v.Str? then [v.s] else if v == Null then [] else [py.str(v)]
    ensures Strings(v) == if v.Str? then [v.s] else []
  {
  }

  function Values(ms: seq<Member>): (r: seq<Json>)
    ensures |r| == |ms| && forall i :: 0 <= i < |ms| ==> r[i] == ms[i].value
  {
    seq(|ms|, i requires 0 <= i < |ms| => ms[i].value)
  }

  lemma {:induction false} MembersAsItems(py: Python, ms: seq<Member>)
    ensures MemberLeaves(py, ms) == ItemLeaves(py, Values(ms)) && MemberStrings(ms) == ItemStrings(Values(ms))
  {
    if ms != [] {
      MembersAsItems(py, ms[1..]);
      assert Values(ms)[1..] == Values(ms[1..]);
    }
  }

  /** The leaves of a dictionary are those of the list of its values. */
  lemma DictionaryLeaves(py: Python, ms: seq<Member>)
    ensures Leaves(py, Obj(ms)) == Leaves(py, List(Values(ms)))
    ensures Strings(Obj(ms)) == Strings(List(Values(ms)))
  {
    MembersAsItems(py, ms);
  }

  /** The leaves of a list are those of its items, in order. */
  lemma {:induction false} LastItemLeaves(py: Python, items: seq<Json>, v: Json)
    ensures Leaves(py, List(items + [v])) == Leaves(py, List(items)) + Leaves(py, v)
    ensures Strings(List(items + [v])) == Strings(List(items)) + Strings(v)
    ensures Leaves(py, List([])) == [] && Strings(List([])) == []
  {
    if items == [] {
      assert items + [v] == [v] && [v][1..] == [];
    } else {
      LastItemLeaves(py, items[1..], v);
      assert (items + [v])[0] == items[0] && (items + [v])[1..] == items[1..] + [v];
    }
  }

  /** The string leaves only, in order, as the language-model operator collects them. */
  function Strings(v: Json): seq<string>
    decreases v, 0
  {
    match v
    case Str(s) => [s]
    case Obj(members) => MemberStrings(members)
    case List(items) => ItemStrings(items)
    case _ => []
  }

  function ItemStrings(items: seq<Json>): seq<string>
    decreases items, 0
  {
    if items == [] then [] else Strings(items[0]) + ItemStrings(items[1..])
  }

  function MemberStrings(ms: seq<Member>): seq<string>
    decreases ms, 0
  {
    if ms == [] then [] else MemberString(ms[0]) + MemberStrings(ms[1..])
  }

  function MemberString(m: Member): seq<string>
    decreases m, 1
  {
    Strings(m.value)
  }

  lemma NextStringItem(parts: seq<string>, items: seq<Json>, i: nat)
    requires i < |items|
    ensures parts + ItemStrings(items[i..]) == parts + Strings(items[i]) + ItemStrings(items[i + 1..])
  {
    assert items[i..][1..] == items[i + 1..];
  }

  lemma NextStringMember(parts: seq<string>, ms: seq<Member>, i: nat)
    requires i < |ms|
    ensures parts + MemberStrings(ms[i..]) == parts + Strings(ms[i].value) + MemberStrings(ms[i + 1..])
  {
    assert ms[i..][1..] == ms[i + 1..];
  }

  /** `"\n".join(parts)` */
  function Join(parts: seq<string>): string {
    if parts == [] then [] else if |parts| == 1 then parts[0] else parts[0] + "\n" + Join(parts[1..])
  }

  lemma {:induction false} JoinLast(parts: seq<string>, p: string)
    ensures Join(parts + [p]) == if parts == [] then p else Join(parts) + "\n" + p
  {
    if parts == [] {
      assert parts + [p] == [p];
    } else {
      JoinLast(parts[1..], p);
      assert (parts + [p])[0] == parts[0] && (parts + [p])[1..] == parts[1..] + [p];
      if |parts| > 1 {
        assert parts[0] + "\n" + (Join(parts[1..]) + "\n" + p) == (parts[0] + "\n" + Join(parts[1..])) + "\n" + p;
      }
    }
  }

  predicate OccursAt(t: string, s: string, i: int) {
    0 <= i && i + |t| <= |s| && s[i..i + |t|] == t
  }

  predicate Within(t: string, s: string) {
    exists i :: 0 <= i <= |s| && OccursAt(t, s, i)
  }

  /** The shared list of the flattening helper. */
  class TextCollector {
    var parts: seq<string>

    constructor ()
      ensures parts == []
    {
      parts := [];
    }

    method Extract(py: Python, v: Json)
      modifies this
      ensures parts == old(parts) + Leaves(py, v)
      decreases v
    {
      match v {
        case Str(s) => parts := parts + [s];
        case Obj(members) =>
          for i := 0 to |members|
            invariant parts + MemberLeaves(py, members[i..]) == old(parts) + MemberLeaves(py, members)
          {
            NextMember(py, parts, members, i);
            Extract(py, members[i].value);
          }
        case List(items) =>
          for i := 0 to |items|
            invariant parts + ItemLeaves(py, items[i..]) == old(parts) + ItemLeaves(py, items)
          {
            NextItem(py, parts, items, i);
            Extract(py, items[i]);
          }
        case Null =>
        case _ => parts := parts + [py.str(v)];
      }
    }

    method ExtractStrings(v: Json)
      modifies this
      ensures parts == old(parts) + Strings(v)
      decreases v
    {
      match v {
        case Str(s) => parts := parts + [s];
        case Obj(members) =>
          for i := 0 to |members|
            invariant parts + MemberStrings(members[i..]) == old(parts) + MemberStrings(members)
          {
            NextStringMember(parts, members, i);
            ExtractStrings(members[i].value);
          }
        case List(items) =>
          for i := 0 to |items|
            invariant parts + ItemStrings(items[i..]) == old(parts) + ItemStrings(items)
          {
            NextStringItem(parts, items, i);
            ExtractStrings(items[i]);
          }
        case _ =>
      }
    }
  }

  function FullText(py: Python, v: Json): string {
    py.lower(Join(Leaves(py, v)))
  }

  function Target(py: Python, v: Json): string {
    py.lower(py.str(v))
  }

  // ---- conditions ----

  predicate SameText(py: Python, a: Json, b: Json) {
    if a.Str? && b.Str? then py.lower(a.s) == py.lower(b.s) else py.equal(a, b)
  }

  predicate Listed(py: Python, v: Json, options: seq<Json>) {
    exists o :: o in options && if v.Str? then py.lower(py.str(o)) == py.lower(v.s) else py.equal(v, o)
  }

  predicate Compared(py: Python, op: Operator, a: Json, b: Json) {
    var x, y := py.float(a), py.float(b);
    x.Number? && y.Number? &&
    match op
    case Gt => x.x > y.x
    case Lt => x.x < y.x
    case Gte => x.x >= y.x
    case Lte => x.x <= y.x
    case _ => false
  }

  /** The text shown to the language model: the string leaves of a dictionary, a string itself, else `str`. */
  function ModelText(py: Python, v: Json): string {
    if v.Obj? then Join(Strings(v)) else if v.Str? then v.s else py.str(v)
  }

  /** An empty text is never shown to the model. */
  predicate ModelAgrees(py: Python, condition: string, text: string) {
    text != "" && match py.ask(condition, text)
                  case None => false
                  case Some(reply) => Within("YES", reply)
  }

  predicate Holds(py: Python, op: Operator, field: Json, target: Json) {
    match op
    case Eq => SameText(py, field, target)
    case Neq => !SameText(py, field, target)
    case In => target.List? && Listed(py, field, target.items)
    case NotIn => !(target.List? && Listed(py, field, target.items))
    case Contains => target != Null && Within(Target(py, target), FullText(py, field))
    case NotContains => target == Null || !Within(Target(py, target), FullText(py, field))
    case StartsWith => target != Null && field != Null && Target(py, target) <= FullText(py, field)
    case Regex => target != Null && field != Null && py.search(py.str(target), Join(Leaves(py, field))) == Some(true)
    case LlmEvaluate => target != Null && field != Null && ModelAgrees(py, py.str(target), ModelText(py, field))
    case _ => Compared(py, op, field, target)
  }

  /** Equality, membership and the four comparisons, in terms of what Python answers about the two values. */
  lemma ValueOperatorsExactly(py: Python, v: Json, t: Json)
    ensures Holds(py, Eq, v, t) <==> if v.Str? && t.Str? then py.lower(v.s) == py.lower(t.s) else py.equal(v, t)
    ensures Holds(py, In, v, t) <==>
            t.List? && exists i :: 0 <= i < |t.items|
                         && if v.Str? then py.lower(py.str(t.items[i])) == py.lower(v.s) else py.equal(v, t.items[i])
    ensures var x, y := py.float(v), py.float(t);
            var numbers := x.Number? && y.Number?;
            && (Holds(py, Gt, v, t) <==> numbers && x.x > y.x)
            && (Holds(py, Gte, v, t) <==> numbers && x.x >= y.x)
            && (Holds(py, Lt, v, t) <==> numbers && x.x < y.x)
            && (Holds(py, Lte, v, t) <==> numbers && x.x <= y.x)
  {
    if t.List? && Listed(py, v, t.items) {
      var o :| o in t.items && if v.Str? then py.lower(py.str(o)) == py.lower(v.s) else py.equal(v, o);
      var i :| 0 <= i < |t.items| && t.items[i] == o;
    }
  }

  /** The text operators, in terms of positions in the joined texts. */
  lemma TextOperatorsExactly(py: Python, v: Json, t: Json)
    ensures Holds(py, Contains, v, t) <==>
            t != Null && var text, part := py.lower(Join(Leaves(py, v))), py.lower(py.str(t));
                         exists front, back :: text == front + part + back
    ensures Holds(py, StartsWith, v, t) <==>
            t != Null && v != Null && var text, part := py.lower(Join(Leaves(py, v))), py.lower(py.str(t));
                                      |part| <= |text| && text[..|part|] == part
    ensures Holds(py, Regex, v, t) <==>
            t != Null && v != Null && py.search(py.str(t), Join(Leaves(py, v))) == Some(true)
    ensures Holds(py, LlmEvaluate, v, t) <==>
            t != Null && v != Null
            && var text := if v.Obj? then Join(Strings(v)) else if v.Str? then v.s else py.str(v);
               text != "" && py.ask(py.str(t), text).Some?
               && var reply := py.ask(py.str(t), text).value;
                  exists front, back :: reply == front + "YES" + back
  {
    var text, part := py.lower(Join(Leaves(py, v))), py.lower(py.str(t));
    WithinExactly(part, text);
    if v != Null {
      var shown := ModelText(py, v);
      if py.ask(py.str(t), shown).Some? {
        WithinExactly("YES", py.ask(py.str(t), shown).value);
      }
    }
  }

  lemma WithinExactly(part: string, text: string)
    ensures Within(part, text) <==> exists front, back :: text == front + part + back
  {
    if i :| 0 <= i <= |text| && OccursAt(part, text, i) {
      assert text == text[..i] + part + text[i + |part|..];
    }
    if front, back :| text == front + part + back {
      assert OccursAt(part, text, |front|);
    }
  }

  /** One condition: the field is looked up, then compared with the condition's value. */
  method EvaluateCondition(py: Python, c: Condition, context: Json) returns (r: bool)
    ensures r == Holds(py, c.operator, Lookup(context, SplitDots(c.field)), c.value)
    ensures var v, t := Lookup(context, SplitDots(c.field)), c.value;
            var x, y := py.float(v), py.float(t);
            var numbers := x.Number? && y.Number?;
            && (c.operator == Gt ==> (r <==> numbers && x.x > y.x))
            && (c.operator == Gte ==> (r <==> numbers && x.x >= y.x))
            && (c.operator == Lt ==> (r <==> numbers && x.x < y.x))
            && (c.operator == Lte ==> (r <==> numbers && x.x <= y.x))
            && (c.operator in {Eq, Neq} ==>
                  (r <==> (c.operator == Eq)
                          == if v.Str? && t.Str? then py.lower(v.s) == py.lower(t.s) else py.equal(v, t)))
  {
    var field := ResolveField(context, c.field);
    ValueOperatorsExactly(py, field, c.value);
    r := CompareValues(py, c.operator, field, c.value);
  }

  /** The comparison, operator by operator. */
  method CompareValues(py: Python, operator: Operator, field: Json, target: Json) returns (r: bool)
    ensures r == Holds(py, operator, field, target)
  {
    match operator {
      case Eq =>
        if field.Str? && target.Str? {
          return py.lower(field.s) == py.lower(target.s);
        }
        return py.equal(field, target);
      case Neq =>
        if field.Str? && target.Str? {
          return py.lower(field.s) != py.lower(target.s);
        }
        return !py.equal(field, target);
      case In =>
        if target.List? {
          r := AnyListed(py, field, target.items);
        } else {
          r := false;
        }
      case NotIn =>
        if target.List? {
          var listed := AnyListed(py, field, target.items);
          r := !listed;
        } else {
          r := true;
        }
      case Contains =>
        if target == Null {
          return false;
        }
        var text := CollectText(py, field);
        return Within(Target(py, target), text);
      case NotContains =>
        if target == Null {
          return true;
        }
        var text := CollectText(py, field);
        return !Within(Target(py, target), text);
      case StartsWith =>
        if target == Null || field == Null {
          return false;
        }
        var text := CollectText(py, field);
        return Target(py, target) <= text;
      case Regex =>
        if target == Null || field == Null {
          return false;
        }
        var parts := CollectParts(py, field);
        return py.search(py.str(target), Join(parts)) == Some(true);
      case LlmEvaluate =>
        if target == Null || field == Null {
          return false;
        }
        var text: string;
        if field.Obj? {
          var collector := new TextCollector();
          collector.ExtractStrings(field);
          assert [] + Strings(field) == Strings(field);
          text := Join(collector.parts);
        } else if field.Str? {
          text := field.s;
        } else {
          text := py.str(field);
        }
        return ModelAgrees(py, py.str(target), text);
      case _ =>
        return Compared(py, operator, field, target);
    }
  }

  method AnyListed(py: Python, v: Json, options: seq<Json>) returns (r: bool)
    ensures r == Listed(py, v, options)
  {
    for i := 0 to |options|
      invariant forall k :: 0 <= k < i ==>
                  !(if v.Str? then py.lower(py.str(options[k])) == py.lower(v.s) else py.equal(v, options[k]))
    {
      if (if v.Str? then py.lower(py.str(options[i])) == py.lower(v.s) else py.equal(v, options[i])) {
        assert options[i] in options;
        return true;
      }
    }
    return false;
  }

  method CollectParts(py: Python, v: Json) returns (parts: seq<string>)
    ensures parts == Leaves(py, v)
  {
    var collector := new TextCollector();
    collector.Extract(py, v);
    assert [] + Leaves(py, v) == Leaves(py, v);
    parts := collector.parts;
  }

  method CollectText(py: Python, v: Json) returns (text: string)
    ensures text == FullText(py, v)
  {
    var parts := CollectParts(py, v);
    text := py.lower(Join(parts));
  }

  // ---- the text operators look at one leaf at a time ----

  /**
   * Lower-casing works line by line, adds no newline and empties only the empty text. Python's does: a newline
   * is neither cased nor case-ignorable, so no context-dependent mapping looks across it.
   */
  ghost predicate LowersByLine(lower: string -> string) {
    && lower("") == ""
    && (forall a: string, b: string :: lower(a + "\n" + b) == lower(a) + "\n" + lower(b))
    && (forall a: string :: '\n' !in a ==> '\n' !in lower(a))
    && (forall a: string :: lower(a) == "" ==> a == "")
  }

  function LowerAll(py: Python, parts: seq<string>): seq<string> {
    if parts == [] then [] else [py.lower(parts[0])] + LowerAll(py, parts[1..])
  }

  lemma {:induction false} LowerJoin(py: Python, parts: seq<string>)
    requires LowersByLine(py.lower)
    ensures py.lower(Join(parts)) == Join(LowerAll(py, parts)) && |LowerAll(py, parts)| == |parts|
  {
    if parts != [] {
      LowerJoin(py, parts[1..]);
      assert LowerAll(py, parts)[1..] == LowerAll(py, parts[1..]);
      if |parts| == 1 {
        assert LowerAll(py, parts) == [py.lower(parts[0])];
      }
    }
  }

  lemma SliceInFront(a: string, b: string, i: nat, n: nat)
    requires i + n <= |a|
    ensures (a + b)[i..i + n] == a[i..i + n]
  {
  }

  lemma SliceBehind(a: string, b: string, i: nat, n: nat)
    requires i + n <= |b|
    ensures (a + b)[|a| + i..|a| + i + n] == b[i..i + n]
  {
  }

  lemma WithinConcat(t: string, a: string, b: string)
    requires Within(t, a) || Within(t, b)
    ensures Within(t, a + b)
  {
    if i :| 0 <= i <= |a| && OccursAt(t, a, i) {
      SliceInFront(a, b, i, |t|);
      assert OccursAt(t, a + b, i);
    } else {
      var i :| 0 <= i <= |b| && OccursAt(t, b, i);
      SliceBehind(a, b, i, |t|);
      assert OccursAt(t, a + b, |a| + i);
    }
  }

  /** A newline-free text inside a + newline + b lies inside a or inside b. */
  lemma WithinLines(t: string, a: string, b: string)
    requires t != "" && '\n' !in t
    ensures Within(t, a + "\n" + b) <==> Within(t, a) || Within(t, b)
  {
    var front := a + "\n";
    var s := front + b;
    if i :| 0 <= i <= |s| && OccursAt(t, s, i) {
      forall j | i <= j < i + |t| ensures s[j] != '\n' {
        assert s[j] == t[j - i];
      }
      assert s[|a|] == '\n';
      if i > |a| {
        SliceBehind(front, b, i - |front|, |t|);
        assert OccursAt(t, b, i - |front|);
      } else {
        SliceInFront(a, "\n" + b, i, |t|);
        assert s == a + ("\n" + b);
        assert OccursAt(t, a, i);
      }
    }
    if Within(t, a) {
      WithinConcat(t, a, "\n");
      WithinConcat(t, front, b);
    }
    if Within(t, b) {
      WithinConcat(t, front, b);
    }
  }

  lemma {:induction false} WithinJoin(t: string, parts: seq<string>)
    requires t != "" && '\n' !in t
    ensures Within(t, Join(parts)) <==> exists p :: p in parts && Within(t, p)
  {
    if parts != [] {
      WithinJoin(t, parts[1..]);
      if |parts| > 1 {
        WithinLines(t, parts[0], Join(parts[1..]));
      }
      assert forall p :: p in parts <==> p == parts[0] || p in parts[1..];
    }
  }

  lemma {:induction false} LowerAllIn(py: Python, parts: seq<string>, q: string)
    ensures q in LowerAll(py, parts) <==> exists p :: p in parts && q == py.lower(p)
  {
    if parts != [] {
      LowerAllIn(py, parts[1..], q);
      assert forall p :: p in parts <==> p == parts[0] || p in parts[1..];
    }
  }

  /**
   * CONTAINS with a newline-free, non-empty target: some single leaf of the nested value contains it. The empty
   * target is contained in everything.
   */
  lemma ContainsMeansOneLeaf(py: Python, field: Json, target: Json)
    requires LowersByLine(py.lower) && target != Null && '\n' !in py.str(target)
    ensures Holds(py, Contains, field, target) <==> (py.str(target) == "" || OneLeafContains(py, field, target))
    ensures Holds(py, NotContains, field, target) <==> (py.str(target) != "" && !OneLeafContains(py, field, target))
  {
    var t, leaves := Target(py, target), Leaves(py, field);
    LowerJoin(py, leaves);
    if py.str(target) == "" {
      var text := FullText(py, field);
      assert t == "" && OccursAt(t, text, 0);
    } else {
      WithinJoin(t, LowerAll(py, leaves));
      if leaf :| leaf in leaves && Within(t, py.lower(leaf)) {
        LowerAllIn(py, leaves, py.lower(leaf));
      }
      if q :| q in LowerAll(py, leaves) && Within(t, q) {
        LowerAllIn(py, leaves, q);
      }
    }
  }

  /** Some single leaf's lower-cased text contains the lower-cased target. */
  ghost predicate OneLeafContains(py: Python, field: Json, target: Json) {
    exists leaf :: leaf in Leaves(py, field) && Within(Target(py, target), py.lower(leaf))
  }

  lemma TwoLeaves(py: Python, a: string, b: string)
    ensures Leaves(py, List([Str(a), Str(b)])) == [a, b] && Join([a, b]) == a + "\n" + b
  {
    var items, last := [Str(a), Str(b)], [Str(b)];
    assert items[1..] == last && last[1..] == [] && [a, b][1..] == [b];
    assert ItemLeaves(py, last) == [b] + [];
    assert ItemLeaves(py, items) == [a] + ItemLeaves(py, last);
  }

  lemma SplitAtNewline(s: string) returns (a: string, b: string)
    requires '\n' in s
    ensures s == a + "\n" + b
  {
    var i :| 0 <= i < |s| && s[i] == '\n';
    a, b := s[..i], s[i + 1..];
  }

  /** A target with a newline matches across two leaves neither of which contains it. */
  lemma NewlineSpansLeaves(py: Python, target: Json) returns (field: Json)
    requires LowersByLine(py.lower) && target != Null && '\n' in py.str(target)
    ensures field != Null && Holds(py, Contains, field, target) && Holds(py, StartsWith, field, target)
    ensures !OneLeafContains(py, field, target)
    ensures Leaves(py, field) != [] && !(Target(py, target) <= py.lower(Leaves(py, field)[0]))
  {
    var a, b := SplitAtNewline(py.str(target));
    field := List([Str(a), Str(b)]);
    TwoLeaves(py, a, b);
    assert FullText(py, field) == Target(py, target);
    assert OccursAt(Target(py, target), FullText(py, field), 0);
    assert |Target(py, target)| == |py.lower(a)| + 1 + |py.lower(b)|;
  }

  /** For exactly which targets CONTAINS means, on every field, that one leaf contains the target. */
  lemma ContainsMeansOneLeafExactly(py: Python, target: Json)
    requires LowersByLine(py.lower) && target != Null
    ensures (forall field :: Holds(py, Contains, field, target) <==> OneLeafContains(py, field, target))
       <==> (py.str(target) != "" && '\n' !in py.str(target))
  {
    if py.str(target) == "" {
      assert OccursAt("", FullText(py, Null), 0);
      assert Holds(py, Contains, Null, target) && !OneLeafContains(py, Null, target);
    } else if '\n' in py.str(target) {
      var field := NewlineSpansLeaves(py, target);
    } else {
      forall field ensures Holds(py, Contains, field, target) <==> OneLeafContains(py, field, target) {
        ContainsMeansOneLeaf(py, field, target);
      }
    }
  }

  /** Each negated operator is the exact negation of its positive one, missing and null values included. */
  lemma NegationsAreExact(py: Python, field: Json, target: Json)
    ensures Holds(py, NotContains, field, target) <==> !Holds(py, Contains, field, target)
    ensures Holds(py, NotIn, field, target) <==> !Holds(py, In, field, target)
    ensures Holds(py, Neq, field, target) <==> !Holds(py, Eq, field, target)
  {
  }

  /** A comparison outlives growth of the larger side and shrinking of the smaller one; equal numbers meet only the
      inclusive two, different ones exactly one of the strict two. */
  lemma ComparisonsFollowTheNumbers(py: Python, a: Json, b: Json, c: Json, d: Json)
    requires py.float(a).Number? && py.float(b).Number? && py.float(c).Number? && py.float(d).Number?
    requires py.float(a).x <= py.float(c).x && py.float(d).x <= py.float(b).x
    ensures Holds(py, Gt, a, b) ==> Holds(py, Gt, c, d)
    ensures Holds(py, Gte, a, b) ==> Holds(py, Gte, c, d)
    ensures Holds(py, Lt, c, d) ==> Holds(py, Lt, a, b)
    ensures Holds(py, Lte, c, d) ==> Holds(py, Lte, a, b)
    ensures py.float(a).x < py.float(c).x ==> Holds(py, Gt, c, a) && Holds(py, Lt, a, c)
    ensures py.float(a) == py.float(c) ==>
              !Holds(py, Gt, a, c) && !Holds(py, Lt, a, c) && Holds(py, Gte, a, c) && Holds(py, Lte, a, c)
  {
  }

  /** Between two numbers GT and LTE, and LT and GTE, are each other's negations; otherwise all four are false. */
  lemma ComparisonsSplit(py: Python, a: Json, b: Json)
    ensures Holds(py, Gt, a, b) <==> Holds(py, Lt, b, a)
    ensures Holds(py, Gte, a, b) <==> Holds(py, Lte, b, a)
    ensures (Holds(py, Gt, a, b) || Holds(py, Lte, a, b)) <==> (py.float(a).Number? && py.float(b).Number?)
    ensures !(Holds(py, Gt, a, b) && Holds(py, Lte, a, b))
  {
  }

  /** STARTS_WITH with a newline-free target looks at the first leaf only. */
  lemma StartsWithMeansFirstLeaf(py: Python, field: Json, target: Json)
    requires LowersByLine(py.lower) && target != Null && field != Null && '\n' !in py.str(target)
    ensures Holds(py, StartsWith, field, target) <==>
            (py.str(target) == "" || FirstLeafStarts(py, field, target))
  {
    var t, leaves := Target(py, target), Leaves(py, field);
    LowerJoin(py, leaves);
    if |leaves| > 1 {
      PrefixOfFirstLine(t, py.lower(leaves[0]), Join(LowerAll(py, leaves)[1..]));
    }
  }

  /** The leading leaf's lower-cased text starts with the lower-cased target. */
  predicate FirstLeafStarts(py: Python, field: Json, target: Json) {
    Leaves(py, field) != [] && Target(py, target) <= py.lower(Leaves(py, field)[0])
  }

  /** For exactly which targets STARTS_WITH means, on every field, that the first leaf starts with the target. */
  lemma StartsWithMeansFirstLeafExactly(py: Python, target: Json)
    requires LowersByLine(py.lower) && target != Null
    ensures (forall field :: field != Null ==>
               (Holds(py, StartsWith, field, target) <==> FirstLeafStarts(py, field, target)))
       <==> (py.str(target) != "" && '\n' !in py.str(target))
  {
    if py.str(target) == "" {
      assert Leaves(py, List([])) == [] && Holds(py, StartsWith, List([]), target);
    } else if '\n' in py.str(target) {
      var field := NewlineSpansLeaves(py, target);
    } else {
      forall field | field != Null
        ensures Holds(py, StartsWith, field, target) <==> FirstLeafStarts(py, field, target) {
        StartsWithMeansFirstLeaf(py, field, target);
      }
    }
  }

  lemma PrefixOfFirstLine(t: string, a: string, b: string)
    requires '\n' !in t
    ensures t <= a + "\n" + b <==> t <= a
  {
    var s := a + "\n" + b;
    assert s[|a|] == '\n';
    if t <= s {
      forall j | 0 <= j < |t| ensures s[j] != '\n' {
        assert s[j] == t[j];
      }
    }
    if t <= a {
      assert t == s[..|t|];
    }
  }

  // ---- policies ----

  datatype Policy = Policy(enabled: bool, appliesTo: seq<string>, conditions: seq<Condition>, actions: seq<string>)

  predicate Applies(p: Policy, context: Json) {
    p.appliesTo == [] || "all" in p.appliesTo
    || (context.Obj? && exists name :: name in p.appliesTo && SystemName(context) == Str(name))
  }

  function SystemName(context: Json): Json
    requires context.Obj?
  {
    GetOr(context.members, "system_name", Str(""))
  }

  ghost predicate Matches(py: Python, p: Policy, context: Json) {
    && p.enabled && p.conditions != [] && Applies(p, context)
    && forall c :: c in p.conditions ==> Holds(py, c.operator, Lookup(context, SplitDots(c.field)), c.value)
  }

  /** A policy matches when it is enabled, applies, and every one of its conditions holds; without conditions never. */
  method EvaluatePolicy(py: Python, p: Policy, context: Json) returns (matched: bool, actions: seq<string>)
    requires context.Obj?
    ensures matched <==> Matches(py, p, context)
    ensures matched <==>
            && p.enabled && p.conditions != []
            && (p.appliesTo == [] || "all" in p.appliesTo
                || match Get(context.members, "system_name")
                   case None => "" in p.appliesTo
                   case Some(name) => name.Str? && name.s in p.appliesTo)
            && forall c :: c in p.conditions ==> Holds(py, c.operator, Lookup(context, SplitDots(c.field)), c.value)
    ensures actions == if matched then p.actions else []
  {
    if !p.enabled {
      return false, [];
    }
    if |p.appliesTo| > 0 && "all" !in p.appliesTo {
      var name := SystemName(context);
      if !(name.Str? && name.s in p.appliesTo) {
        return false, [];
      }
    }
    if p.conditions == [] {
      return false, [];
    }
    var allMatch := true;
    var i := 0;
    while i < |p.conditions|
      invariant 0 <= i <= |p.conditions| && allMatch
      invariant forall c :: c in p.conditions[..i] ==>
                  Holds(py, c.operator, Lookup(context, SplitDots(c.field)), c.value)
    {
      var r := EvaluateCondition(py, p.conditions[i], context);
      if !r {
        allMatch := false;
        assert p.conditions[i] in p.conditions;
        break;
      }
      assert p.conditions[..i + 1] == p.conditions[..i] + [p.conditions[i]];
      i := i + 1;
    }
    assert allMatch ==> p.conditions[..i] == p.conditions;
    matched := allMatch;
    actions := if allMatch then p.actions else [];
  }
}
