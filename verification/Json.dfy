/**
 * JSON values, the text `json.dumps(..., ensure_ascii=False)` writes for them (RFC 8259 sections 4, 5 and 7),
 * and a strict reader of that text. `pad` is what follows a comma or colon: "" for the compact separators,
 * " " for the default ones.
 */
module Json {
  import opened Options

  /**
   * A float is carried by its shortest repr, a datetime by its ISO 8601 text. Datetimes are not JSON:
   * they have to be normalised away before printing.
   */
  datatype Json =
    | Null
    | Bool(b: bool)
    | Int(n: int)
    | Float(repr: string)
    | Str(s: string)
    | Time(iso: string)
    | List(items: seq<Json>)
    | Obj(members: seq<Member>)
  datatype Member = Member(key: string, value: Json)

  predicate DistinctKeys(ms: seq<Member>) {
    forall i, j :: 0 <= i < j < |ms| ==> ms[i].key != ms[j].key
  }

  /** Dictionary lookup. */
  function Get(ms: seq<Member>, key: string): Option<Json> {
    if ms == [] then None
    else if ms[0].key == key then Some(ms[0].value)
    else Get(ms[1..], key)
  }

  /** Dictionaries have distinct keys and float reprs look like floats, at every depth. */
  predicate WellFormed(j: Json) {
    match j
    case Float(repr) => IsFloatText(repr)
    case List(items) => forall v :: v in items ==> WellFormed(v)
    case Obj(members) => DistinctKeys(members) && forall m :: m in members ==> WellFormed(m.value)
    case _ => true
  }

  /** No datetime at any depth, so `json.dumps` accepts the value. */
  predicate Plain(j: Json) {
    match j
    case Time(_) => false
    case List(items) => forall v :: v in items ==> Plain(v)
    case Obj(members) => forall m :: m in members ==> Plain(m.value)
    case _ => true
  }

  lemma ObjectIsPlain(ms: seq<Member>)
    requires forall i :: 0 <= i < |ms| ==> Plain(ms[i].value)
    ensures Plain(Obj(ms))
  {
  }

  lemma ObjectIsWellFormed(ms: seq<Member>)
    requires DistinctKeys(ms) && forall i :: 0 <= i < |ms| ==> WellFormed(ms[i].value)
    ensures WellFormed(Obj(ms))
  {
  }

  /** The dictionary with the given keys and values. */
  function Object(keys: seq<string>, values: seq<Json>): Json
    requires |keys| == |values|
  {
    Obj(Zip(keys, values))
  }

  function Zip(keys: seq<string>, values: seq<Json>): (r: seq<Member>)
    requires |keys| == |values|
    ensures |r| == |keys| && forall i :: 0 <= i < |keys| ==> r[i] == Member(keys[i], values[i])
  {
    seq(|keys|, i requires 0 <= i < |keys| => Member(keys[i], values[i]))
  }

  predicate Distinct(keys: seq<string>) {
    forall i, j :: 0 <= i < j < |keys| ==> keys[i] != keys[j]
  }

  lemma ObjectOfParts(keys: seq<string>, values: seq<Json>)
    requires |keys| == |values| && Distinct(keys)
    ensures DistinctKeys(Object(keys, values).members)
    ensures (forall i :: 0 <= i < |values| ==> Plain(values[i])) ==> Plain(Object(keys, values))
    ensures (forall i :: 0 <= i < |values| ==> WellFormed(values[i])) ==> WellFormed(Object(keys, values))
  {
  }

  // ---- numbers ----

  predicate IsDigit(c: char) { '0' <= c <= '9' }

  predicate IsNumberChar(c: char) {
    IsDigit(c) || c == '-' || c == '+' || c == '.' || c == 'e'
  }

  predicate AllDigits(s: string) {
    forall c :: c in s ==> IsDigit(c)
  }

  /** How many digits a text starts with. */
  function LeadingDigits(s: string): (n: nat)
    ensures n <= |s|
  {
    if s != [] && IsDigit(s[0]) then 1 + LeadingDigits(s[1..]) else 0
  }

  /** The integer part: no superfluous zero in front. */
  predicate IsWhole(s: string) {
    s != [] && AllDigits(s) && (|s| > 1 ==> s[0] != '0')
  }

  predicate IsFraction(s: string) {
    s == [] || (s[0] == '.' && |s| > 1 && AllDigits(s[1..]))
  }

  predicate IsExponent(s: string) {
    s == [] || (s[0] == 'e' && |s| > 1 &&
                if s[1] == '-' || s[1] == '+' then |s| > 2 && AllDigits(s[2..]) else AllDigits(s[1..]))
  }

  /** An unsigned number: integer part, fraction and exponent (RFC 8259 section 6). */
  predicate IsUnsigned(s: string) {
    var whole := LeadingDigits(s);
    var rest := s[whole..];
    var fraction := if rest != [] && rest[0] == '.' then 1 + LeadingDigits(rest[1..]) else 0;
    IsWhole(s[..whole]) && IsFraction(rest[..fraction]) && IsExponent(rest[fraction..])
  }

  /** A finite float's repr: a number with a point or an exponent. */
  predicate IsFloatText(s: string) {
    && s != [] && (IsDigit(s[0]) || s[0] == '-') && (forall c :: c in s ==> IsNumberChar(c)) && ('.' in s || 'e' in s)
    && IsUnsigned(if s[0] == '-' then s[1..] else s)
  }

  function NatText(n: nat): (r: string)
    ensures r != [] && AllDigits(r)
  {
    if n < 10 then ["0123456789"[n]] else NatText(n / 10) + ["0123456789"[n % 10]]
  }

  function NatOf(s: string): nat
    requires AllDigits(s)
  {
    if s == [] then 0
    else
      var last := s[|s| - 1];
      assert IsDigit(last) by { assert last in s; }
      10 * NatOf(s[..|s| - 1]) + HexValue(last)
  }

  lemma {:induction false} NatRoundTrip(n: nat)
    ensures NatOf(NatText(n)) == n
  {
    if n >= 10 {
      NatRoundTrip(n / 10);
      assert NatText(n)[..|NatText(n)| - 1] == NatText(n / 10);
    }
  }

  lemma {:induction false} NatTextWhole(n: nat)
    ensures IsWhole(NatText(n)) && (NatText(n)[0] == '0' <==> n == 0)
  {
    if n >= 10 {
      NatTextWhole(n / 10);
    }
  }

  function IntText(n: int): string {
    if n < 0 then "-" + NatText(-n) else NatText(n)
  }

  /** The longest prefix of number characters, and the rest. */
  function NumberToken(s: string): (r: (string, string))
    ensures |r.0| + |r.1| == |s|
  {
    if s != [] && IsNumberChar(s[0]) then
      var (t, rest) := NumberToken(s[1..]);
      ([s[0]] + t, rest)
    else ([], s)
  }

  function NumberOf(t: string): Parsed<Json> {
    if '.' in t || 'e' in t then (if IsFloatText(t) then Parsed(Float(t), []) else Fail)
    else if IsWhole(t) then Parsed(Int(NatOf(t)), [])
    else if t != [] && t[0] == '-' && IsWhole(t[1..]) then Parsed(Int(0 - NatOf(t[1..])), [])
    else Fail
  }

  predicate EndsNumber(rest: string) {
    rest == [] || !IsNumberChar(rest[0])
  }

  lemma {:induction false} TokenThenRest(t: string, rest: string)
    requires (forall c :: c in t ==> IsNumberChar(c)) && EndsNumber(rest)
    ensures NumberToken(t + rest) == (t, rest)
  {
    if t == [] {
      assert t + rest == rest;
    } else {
      assert t[0] in t && [t[0]] + t[1..] == t;
      assert (t + rest)[1..] == t[1..] + rest;
      TokenThenRest(t[1..], rest);
    }
  }

  lemma IntTextReads(n: int)
    ensures forall c :: c in IntText(n) ==> IsNumberChar(c)
    ensures NumberOf(IntText(n)) == Parsed(Int(n), [])
  {
    var d := NatText(if n < 0 then -n else n);
    NatRoundTrip(if n < 0 then -n else n);
    NatTextWhole(if n < 0 then -n else n);
    assert '.' !in d && 'e' !in d && '-' !in d;
    if n < 0 {
      assert IntText(n)[1..] == d;
      assert IntText(n)[0] == '-' && !IsDigit('-');
    }
  }

  // ---- strings (section 7) ----

  const BACKSPACE := 8 as char
  const FORM_FEED := 12 as char

  function HexDigit(d: nat): char
    requires d < 16
  {
    "0123456789abcdef"[d]
  }

  function HexValue(c: char): int {
    if IsDigit(c) then c as int - '0' as int
    else if 'a' <= c <= 'f' then c as int - 'a' as int + 10
    else if 'A' <= c <= 'F' then c as int - 'A' as int + 10
    else -1
  }

  function Escape(c: char): (r: string)
    ensures r != []
  {
    if c == '"' then "\\\""
    else if c == '\\' then "\\\\"
    else if c == '\n' then "\\n"
    else if c == '\r' then "\\r"
    else if c == '\t' then "\\t"
    else if c == BACKSPACE then "\\b"
    else if c == FORM_FEED then "\\f"
    else if c < ' ' then "\\u00" + [HexDigit(c as int / 16), HexDigit(c as int % 16)]
    else [c]
  }

  function EscapeAll(s: string): string {
    if s == [] then [] else Escape(s[0]) + EscapeAll(s[1..])
  }

  function Quote(s: string): string {
    "\"" + EscapeAll(s) + "\""
  }

  /** Dictionary assignment: an existing key keeps its place and takes the new value. */
  function PutMember(ms: seq<Member>, m: Member): seq<Member> {
    if ms == [] then [m]
    else if ms[0].key == m.key then [m] + ms[1..]
    else [ms[0]] + PutMember(ms[1..], m)
  }

  /** The dictionary a list of pairs builds: of pairs with one key the last one counts. */
  function Collapse(ms: seq<Member>): seq<Member> {
    if ms == [] then [] else PutMember(Collapse(ms[..|ms| - 1]), ms[|ms| - 1])
  }

  lemma {:induction false} PutMemberFresh(ms: seq<Member>, m: Member)
    requires forall k :: k in ms ==> k.key != m.key
    ensures PutMember(ms, m) == ms + [m]
  {
    if ms != [] {
      PutMemberFresh(ms[1..], m);
      assert ms == [ms[0]] + ms[1..];
    }
  }

  lemma {:induction false} CollapseDistinct(ms: seq<Member>)
    requires DistinctKeys(ms)
    ensures Collapse(ms) == ms
    decreases |ms|
  {
    if ms != [] {
      var n := |ms| - 1;
      CollapseDistinct(ms[..n]);
      forall k | k in ms[..n] ensures k.key != ms[n].key {
        var i :| 0 <= i < n && ms[..n][i] == k;
        assert ms[i].key != ms[n].key;
      }
      PutMemberFresh(ms[..n], ms[n]);
      assert ms == ms[..n] + [ms[n]];
    }
  }

  lemma {:induction false} PutMemberIn(ms: seq<Member>, m: Member, k: Member)
    requires k in PutMember(ms, m)
    ensures k == m || k in ms
  {
    if ms != [] && ms[0].key != m.key && k != ms[0] {
      PutMemberIn(ms[1..], m, k);
    }
  }

  lemma {:induction false} PutMemberDistinct(ms: seq<Member>, m: Member)
    requires DistinctKeys(ms)
    ensures DistinctKeys(PutMember(ms, m))
  {
    if ms != [] && ms[0].key != m.key {
      var rest := PutMember(ms[1..], m);
      PutMemberDistinct(ms[1..], m);
      forall k | k in rest ensures k.key != ms[0].key {
        PutMemberIn(ms[1..], m, k);
        if k in ms[1..] {
          var i :| 0 <= i < |ms[1..]| && ms[1..][i] == k;
          assert ms[0].key != ms[i + 1].key;
        }
      }
    }
  }

  /** Whatever the pairs, a dictionary has distinct keys and only given pairs. */
  lemma {:induction false} CollapseKeys(ms: seq<Member>)
    ensures DistinctKeys(Collapse(ms)) && forall k :: k in Collapse(ms) ==> k in ms
    decreases |ms|
  {
    if ms != [] {
      var n := |ms| - 1;
      CollapseKeys(ms[..n]);
      PutMemberDistinct(Collapse(ms[..n]), ms[n]);
      forall k | k in Collapse(ms) ensures k in ms {
        PutMemberIn(Collapse(ms[..n]), ms[n], k);
      }
    }
  }

  datatype Parsed<+T> = Fail | Parsed(value: T, rest: string)

  /** One character of a string literal, escaped or not. */
  function ReadChar(s: string): (r: Parsed<char>)
    requires s != []
    ensures r.Parsed? ==> |r.rest| < |s|
  {
    if s[0] != '\\' then (if s[0] < ' ' then Fail else Parsed(s[0], s[1..]))
    else if |s| < 2 then Fail
    else match s[1]
      case '"' => Parsed('"', s[2..])
      case '\\' => Parsed('\\', s[2..])
      case '/' => Parsed('/', s[2..])
      case 'n' => Parsed('\n', s[2..])
      case 'r' => Parsed('\r', s[2..])
      case 't' => Parsed('\t', s[2..])
      case 'b' => Parsed(BACKSPACE, s[2..])
      case 'f' => Parsed(FORM_FEED, s[2..])
      case 'u' =>
        if |s| < 6 || HexValue(s[2]) < 0 || HexValue(s[3]) < 0 || HexValue(s[4]) < 0 || HexValue(s[5]) < 0 then Fail
        else
          var code := HexValue(s[2]) * 0x1000 + HexValue(s[3]) * 0x100 + HexValue(s[4]) * 0x10 + HexValue(s[5]);
          if code < 0xD800 then Parsed(code as char, s[6..]) else Fail
      case _ => Fail
  }

  /** The rest of a string literal, after its opening quote. */
  function ReadString(s: string): (r: Parsed<string>)
    ensures r.Parsed? ==> |r.rest| < |s|
    decreases |s|
  {
    if s == [] then Fail
    else if s[0] == '"' then Parsed([], s[1..])
    else
      var c := ReadChar(s);
      if c.Fail? then Fail
      else
        var more := ReadString(c.rest);
        if more.Fail? then Fail else Parsed([c.value] + more.value, more.rest)
  }

  lemma HexReads(d: nat)
    requires d < 16
    ensures HexValue(HexDigit(d)) == d
  {
  }

  lemma ControlEscapeReads(c: char, s: string, rest: string)
    requires c < ' ' && s == "\\u00" + [HexDigit(c as int / 16), HexDigit(c as int % 16)] + rest
    ensures ReadChar(s) == Parsed(c, rest)
  {
    var h, l := c as int / 16, c as int % 16;
    HexReads(h);
    HexReads(l);
    assert s[0] == '\\' && s[1] == 'u' && s[2] == '0' && s[3] == '0' && s[4] == HexDigit(h) && s[5] == HexDigit(l);
    assert h * 16 + l == c as int;
    assert s[6..] == rest;
  }

  lemma EscapeReads(c: char, rest: string)
    ensures ReadChar(Escape(c) + rest) == Parsed(c, rest) && (Escape(c) + rest)[0] != '"'
  {
    var e := Escape(c);
    var s := e + rest;
    if |e| == 1 {
      assert s[0] == c && s[1..] == rest;
    } else if |e| == 2 {
      assert s[0] == '\\' && s[1] == e[1] && s[2..] == rest;
    } else {
      ControlEscapeReads(c, s, rest);
    }
  }

  lemma NextCharReads(c: char, s: string, tail: string, t: string, rest: string)
    requires s != [] && s[0] != '"' && ReadChar(s) == Parsed(c, tail) && ReadString(tail) == Parsed(t, rest)
    ensures ReadString(s) == Parsed([c] + t, rest)
  {
  }

  lemma {:induction false} StringReads(s: string, rest: string)
    ensures ReadString(EscapeAll(s) + ("\"" + rest)) == Parsed(s, rest)
    decreases |s|
  {
    var tail := "\"" + rest;
    if s == [] {
      assert EscapeAll(s) + tail == tail;
      assert tail[1..] == rest;
    } else {
      var more := EscapeAll(s[1..]) + tail;
      EscapeReads(s[0], more);
      StringReads(s[1..], rest);
      NextCharReads(s[0], Escape(s[0]) + more, more, s[1..], rest);
      Regroup(Escape(s[0]), EscapeAll(s[1..]), tail);
      assert [s[0]] + s[1..] == s;
    }
  }

  // ---- values ----

  function Render(j: Json, pad: string): (r: string)
    requires Plain(j)
    decreases j, 0
  {
    match j
    case Null => "null"
    case Bool(b) => if b then "true" else "false"
    case Int(n) => IntText(n)
    case Float(repr) => repr
    case Str(s) => Quote(s)
    case List(items) => "[" + RenderItems(items, pad) + "]"
    case Obj(members) => "{" + RenderMembers(members, pad) + "}"
  }

  function RenderItems(items: seq<Json>, pad: string): string
    requires forall v :: v in items ==> Plain(v)
    decreases items, 0
  {
    if items == [] then []
    else if |items| == 1 then Render(items[0], pad)
    else Render(items[0], pad) + ("," + pad) + RenderItems(items[1..], pad)
  }

  function RenderMember(m: Member, pad: string): string
    requires Plain(m.value)
    decreases m, 1
  {
    Quote(m.key) + (":" + pad) + Render(m.value, pad)
  }

  function RenderMembers(members: seq<Member>, pad: string): string
    requires forall m :: m in members ==> Plain(m.value)
    decreases members, 0
  {
    if members == [] then []
    else if |members| == 1 then RenderMember(members[0], pad)
    else RenderMember(members[0], pad) + ("," + pad) + RenderMembers(members[1..], pad)
  }

  // ---- the printed form, spelled out ----

  lemma LiteralTexts(pad: string)
    ensures Render(Null, pad) == "null" && Render(Bool(true), pad) == "true" && Render(Bool(false), pad) == "false"
    ensures Render(List([]), pad) == "[]" && Render(Obj([]), pad) == "{}"
  {
  }

  /** Decimal digits, and a minus sign exactly for negative numbers. */
  lemma DecimalText(n: nat, d: nat)
    requires d < 10
    ensures NatText(d) == [('0' as int + d) as char]
    ensures n > 0 ==> NatText(10 * n + d) == NatText(n) + NatText(d)
    ensures IntText(n) == NatText(n) && (n > 0 ==> IntText(0 - n) == "-" + NatText(n))
  {
    var m := 10 * n + d;
    assert m / 10 == n && m % 10 == d;
  }

  /** Only control characters, quotes and backslashes are escaped; everything else stands for itself. */
  lemma EscapeExactly(c: char)
    ensures Escape(c) == [c] <==> c >= ' ' && c != '"' && c != '\\'
    ensures c == '"' || c == '\\' ==> Escape(c) == ['\\', c]
    ensures c < ' ' ==> Escape(c) == ['\\'] + ControlForm(c as int)
  {
    if c == '"' || c == '\\' {
      assert Escape(c) == ['\\', c];
    }
    if c < ' ' {
      ControlEscape(c);
    }
  }

  /** What follows the backslash: a letter for five of them, four hexadecimal digits for the rest. */
  function ControlForm(n: nat): string
    requires n < 32
  {
    if n == 8 then "b" else if n == 9 then "t" else if n == 10 then "n" else if n == 12 then "f"
    else if n == 13 then "r"
    else ['u', '0', '0', if n < 16 then '0' else '1', "0123456789abcdef"[n % 16]]
  }

  lemma ControlEscape(c: char)
    requires c < ' '
    ensures Escape(c) == ['\\'] + ControlForm(c as int)
  {
    var n := c as int;
    assert n / 16 == if n < 16 then 0 else 1;
    if n !in {8, 9, 10, 12, 13} {
      assert Escape(c)[4] == HexDigit(n / 16) && Escape(c)[5] == HexDigit(n % 16);
    }
  }

  lemma EscapeAllFirst(c: char, s: string)
    ensures EscapeAll([c] + s) == Escape(c) + EscapeAll(s)
  {
    assert ([c] + s)[1..] == s;
  }

  lemma {:induction false} EscapeAllConcat(a: string, b: string)
    ensures EscapeAll(a + b) == EscapeAll(a) + EscapeAll(b)
  {
    if a == [] {
      assert a + b == b;
    } else {
      EscapeAllConcat(a[1..], b);
      EscapeAllFirst(a[0], a[1..] + b);
      assert a + b == [a[0]] + (a[1..] + b);
      Regroup(Escape(a[0]), EscapeAll(a[1..]), EscapeAll(b));
    }
  }

  lemma EscapesToItself(c: char)
    requires c >= ' ' && c != '"' && c != '\\'
    ensures Escape(c) == [c]
  {
  }

  /** A text without control characters, quotes and backslashes is printed as it is, between quotes. */
  lemma {:induction false} PlainTextQuoted(s: string)
    requires forall c :: c in s ==> c >= ' ' && c != '"' && c != '\\'
    ensures EscapeAll(s) == s && Quote(s) == "\"" + s + "\""
  {
    if s != [] {
      assert s[0] in s && forall c :: c in s[1..] ==> c in s;
      PlainTextQuoted(s[1..]);
      EscapesToItself(s[0]);
      assert s == [s[0]] + s[1..];
    }
  }

  lemma JoinLast(first: string, sep: string, more: string, last: string)
    ensures first + sep + (more + sep + last) == (first + sep + more) + sep + last
  {
  }

  /** The last item of a list follows a comma and the pad. */
  lemma {:induction false} LastItemText(items: seq<Json>, v: Json, pad: string)
    requires Plain(v) && forall w :: w in items ==> Plain(w)
    ensures RenderItems(items + [v], pad)
            == if items == [] then Render(v, pad) else RenderItems(items, pad) + ("," + pad) + Render(v, pad)
  {
    var all := items + [v];
    if items != [] {
      LastItemText(items[1..], v, pad);
      assert all[0] == items[0] && all[1..] == items[1..] + [v];
      JoinLast(Render(items[0], pad), "," + pad, RenderItems(items[1..], pad), Render(v, pad));
    }
  }

  /** An entry is its quoted key, a colon, the pad and the value. */
  lemma EntryText(m: Member, pad: string)
    requires Plain(m.value)
    ensures RenderMember(m, pad) == "\"" + EscapeAll(m.key) + "\":" + pad + Render(m.value, pad)
  {
  }

  /** The last entry of a dictionary follows a comma and the pad. */
  lemma {:induction false} LastEntryText(ms: seq<Member>, m: Member, pad: string)
    requires Plain(m.value) && forall k :: k in ms ==> Plain(k.value)
    ensures RenderMembers(ms + [m], pad)
            == if ms == [] then RenderMember(m, pad) else RenderMembers(ms, pad) + ("," + pad) + RenderMember(m, pad)
  {
    var all := ms + [m];
    if ms != [] {
      LastEntryText(ms[1..], m, pad);
      assert all[0] == ms[0] && all[1..] == ms[1..] + [m];
      JoinLast(RenderMember(ms[0], pad), "," + pad, RenderMembers(ms[1..], pad), RenderMember(m, pad));
    }
  }

  /** Skips an expected piece of punctuation. */
  function Skip(s: string, token: string): (r: Parsed<()>)
    ensures r.Parsed? ==> |r.rest| == |s| - |token|
  {
    if token <= s then Parsed((), s[|token|..]) else Fail
  }

  function Word(s: string, word: string, j: Json): (r: Parsed<Json>)
    requires word != []
    ensures r.Parsed? ==> |r.rest| < |s|
  {
    if word <= s then Parsed(j, s[|word|..]) else Fail
  }

  function ReadValue(s: string, pad: string): (r: Parsed<Json>)
    ensures r.Parsed? ==> |r.rest| < |s|
    decreases |s|, 0
  {
    if s == [] then Fail
    else if s[0] == 'n' then Word(s, "null", Null)
    else if s[0] == 't' then Word(s, "true", Bool(true))
    else if s[0] == 'f' then Word(s, "false", Bool(false))
    else if s[0] == '"' then
      var t := ReadString(s[1..]);
      if t.Fail? then Fail else Parsed(Str(t.value), t.rest)
    else if s[0] == '[' then
      if |s| > 1 && s[1] == ']' then Parsed(List([]), s[2..])
      else
        var items := ReadItems(s[1..], pad);
        if items.Fail? then Fail else Parsed(List(items.value), items.rest)
    else if s[0] == '{' then
      if |s| > 1 && s[1] == '}' then Parsed(Obj([]), s[2..])
      else
        var members := ReadMembers(s[1..], pad);
        if members.Fail? then Fail else Parsed(Obj(Collapse(members.value)), members.rest)
    else ReadNumber(s)
  }

  function ReadNumber(s: string): (r: Parsed<Json>)
    ensures r.Parsed? ==> |r.rest| < |s|
  {
    var (token, rest) := NumberToken(s);
    var number := NumberOf(token);
    if number.Fail? || token == [] then Fail else Parsed(number.value, rest)
  }

  function ReadItems(s: string, pad: string): (r: Parsed<seq<Json>>)
    ensures r.Parsed? ==> |r.rest| < |s|
    decreases |s|, 1
  {
    var v := ReadValue(s, pad);
    if v.Fail? then Fail
    else if "]" <= v.rest then Parsed([v.value], v.rest[1..])
    else
      var comma := Skip(v.rest, "," + pad);
      if comma.Fail? then Fail
      else
        var more := ReadItems(comma.rest, pad);
        if more.Fail? then Fail else Parsed([v.value] + more.value, more.rest)
  }

  function ReadMember(s: string, pad: string): (r: Parsed<Member>)
    ensures r.Parsed? ==> |r.rest| < |s|
    decreases |s|, 1
  {
    if !("\"" <= s) then Fail
    else
      var key := ReadString(s[1..]);
      if key.Fail? then Fail
      else
        var colon := Skip(key.rest, ":" + pad);
        if colon.Fail? then Fail
        else
          var v := ReadValue(colon.rest, pad);
          if v.Fail? then Fail else Parsed(Member(key.value, v.value), v.rest)
  }

  function ReadMembers(s: string, pad: string): (r: Parsed<seq<Member>>)
    ensures r.Parsed? ==> |r.rest| < |s|
    decreases |s|, 2
  {
    var m := ReadMember(s, pad);
    if m.Fail? then Fail
    else if "}" <= m.rest then Parsed([m.value], m.rest[1..])
    else
      var comma := Skip(m.rest, "," + pad);
      if comma.Fail? then Fail
      else
        var more := ReadMembers(comma.rest, pad);
        if more.Fail? then Fail else Parsed([m.value] + more.value, more.rest)
  }

  // ---- reading back what was printed ----

  lemma Regroup(a: string, b: string, c: string)
    ensures (a + b) + c == a + (b + c)
  {
  }

  lemma Regroup4(a: string, b: string, c: string, d: string)
    ensures (a + b + c) + d == a + (b + (c + d))
  {
    Regroup(a + b, c, d);
    Regroup(a, b, c + d);
  }

  lemma Skips(token: string, rest: string)
    ensures Skip(token + rest, token) == Parsed((), rest)
  {
    assert (token + rest)[|token|..] == rest;
  }

  lemma NumberReads(token: string, v: Json, rest: string, pad: string)
    requires token != [] && (IsDigit(token[0]) || token[0] == '-')
    requires (forall c :: c in token ==> IsNumberChar(c)) && EndsNumber(rest)
    requires NumberOf(token) == Parsed(v, [])
    ensures ReadValue(token + rest, pad) == Parsed(v, rest)
  {
    TokenThenRest(token, rest);
    StartsNumber(token + rest, pad);
  }

  lemma StartsNumber(s: string, pad: string)
    requires s != [] && (IsDigit(s[0]) || s[0] == '-')
    ensures ReadValue(s, pad) == ReadNumber(s)
  {
  }

  lemma WordReads(word: string, j: Json, rest: string, pad: string)
    requires (word, j) in {("null", Null), ("true", Bool(true)), ("false", Bool(false))}
    ensures ReadValue(word + rest, pad) == Parsed(j, rest)
  {
    assert (word + rest)[0] == word[0];
    assert (word + rest)[|word|..] == rest && word <= word + rest;
  }

  lemma QuoteTail(t: string, rest: string)
    ensures (Quote(t) + rest)[0] == '"' && (Quote(t) + rest)[1..] == EscapeAll(t) + ("\"" + rest)
  {
  }

  lemma StrReads(t: string, rest: string, pad: string)
    ensures ReadValue(Quote(t) + rest, pad) == Parsed(Str(t), rest)
  {
    StringReads(t, rest);
    QuoteTail(t, rest);
  }

  lemma StartsList(s: string, pad: string)
    requires |s| > 1 && s[0] == '['
    ensures ReadValue(s, pad) ==
            if s[1] == ']' then Parsed(List([]), s[2..])
            else
              var items := ReadItems(s[1..], pad);
              if items.Fail? then Fail else Parsed(List(items.value), items.rest)
  {
  }

  lemma StartsObject(s: string, pad: string)
    requires |s| > 1 && s[0] == '{'
    ensures ReadValue(s, pad) ==
            if s[1] == '}' then Parsed(Obj([]), s[2..])
            else
              var members := ReadMembers(s[1..], pad);
              if members.Fail? then Fail else Parsed(Obj(Collapse(members.value)), members.rest)
  {
  }

  lemma BracketParts(open: char, body: string, close: string, rest: string)
    requires |close| == 1
    ensures var s := [open] + body + close + rest;
            && s[0] == open && s[1..] == body + (close + rest)
            && s[1] == (if body == [] then close[0] else body[0]) && (body == [] ==> s[2..] == rest)
  {
  }

  lemma ListReads(items: seq<Json>, body: string, rest: string, pad: string)
    requires if items == [] then body == [] else
             ReadItems(body + ("]" + rest), pad) == Parsed(items, rest) && body != [] && body[0] != ']'
    ensures ReadValue("[" + body + "]" + rest, pad) == Parsed(List(items), rest)
  {
    BracketParts('[', body, "]", rest);
    StartsList("[" + body + "]" + rest, pad);
  }

  lemma ObjReads(members: seq<Member>, body: string, rest: string, pad: string)
    requires DistinctKeys(members)
    requires if members == [] then body == [] else
             ReadMembers(body + ("}" + rest), pad) == Parsed(members, rest) && body != [] && body[0] != '}'
    ensures ReadValue("{" + body + "}" + rest, pad) == Parsed(Obj(members), rest)
  {
    BracketParts('{', body, "}", rest);
    CollapseDistinct(members);
    StartsObject("{" + body + "}" + rest, pad);
  }

  lemma LastItemReads(v: Json, s: string, rest: string, pad: string)
    requires ReadValue(s, pad) == Parsed(v, "]" + rest)
    ensures ReadItems(s, pad) == Parsed([v], rest)
  {
    assert ("]" + rest)[1..] == rest;
  }

  lemma MoreItemsRead(v: Json, vs: seq<Json>, s: string, tail: string, rest: string, pad: string)
    requires ReadValue(s, pad) == Parsed(v, ("," + pad) + tail) && ReadItems(tail, pad) == Parsed(vs, rest)
    ensures ReadItems(s, pad) == Parsed([v] + vs, rest)
  {
    Skips("," + pad, tail);
    assert (("," + pad) + tail)[0] == ',';
  }

  lemma LastMemberReads(m: Member, s: string, rest: string, pad: string)
    requires ReadMember(s, pad) == Parsed(m, "}" + rest)
    ensures ReadMembers(s, pad) == Parsed([m], rest)
  {
    assert ("}" + rest)[1..] == rest;
  }

  lemma MoreMembersRead(m: Member, ms: seq<Member>, s: string, tail: string, rest: string, pad: string)
    requires ReadMember(s, pad) == Parsed(m, ("," + pad) + tail) && ReadMembers(tail, pad) == Parsed(ms, rest)
    ensures ReadMembers(s, pad) == Parsed([m] + ms, rest)
  {
    Skips("," + pad, tail);
    assert (("," + pad) + tail)[0] == ',';
  }

  lemma KeyThenValueReads(m: Member, tail: string, rest: string, pad: string)
    requires ReadValue(tail, pad) == Parsed(m.value, rest)
    ensures ReadMember(Quote(m.key) + ((":" + pad) + tail), pad) == Parsed(m, rest)
  {
    var sep := ":" + pad;
    var s := Quote(m.key) + (sep + tail);
    QuoteTail(m.key, sep + tail);
    StringReads(m.key, sep + tail);
    Skips(sep, tail);
    assert ReadString(s[1..]) == Parsed(m.key, sep + tail);
  }

  lemma ValueStart(j: Json, pad: string)
    requires WellFormed(j) && Plain(j)
    ensures Render(j, pad) != [] && Render(j, pad)[0] != ']'
  {
    match j
    case Int(n) => assert NatText(if n < 0 then -n else n)[0] in NatText(if n < 0 then -n else n);
    case _ =>
  }

  lemma ItemsStart(items: seq<Json>, pad: string)
    requires items != [] && forall v :: v in items ==> WellFormed(v) && Plain(v)
    ensures RenderItems(items, pad) != [] && RenderItems(items, pad)[0] != ']'
  {
    ValueStart(items[0], pad);
  }

  lemma MembersStart(members: seq<Member>, pad: string)
    requires members != [] && forall m :: m in members ==> Plain(m.value)
    ensures RenderMembers(members, pad) != [] && RenderMembers(members, pad)[0] != '}'
  {
    assert RenderMember(members[0], pad)[0] == '"';
  }

  lemma {:induction false} ValueReads(j: Json, pad: string, rest: string)
    requires WellFormed(j) && Plain(j) && EndsNumber(rest)
    ensures ReadValue(Render(j, pad) + rest, pad) == Parsed(j, rest)
    decreases j, 0
  {
    match j
    case Null => WordReads("null", j, rest, pad);
    case Bool(b) => WordReads(if b then "true" else "false", j, rest, pad);
    case Int(n) =>
      IntTextReads(n);
      NumberReads(IntText(n), j, rest, pad);
    case Float(repr) => NumberReads(repr, j, rest, pad);
    case Str(t) => StrReads(t, rest, pad);
    case List(items) =>
      if items != [] {
        ItemsRead(items, pad, rest);
        ItemsStart(items, pad);
      }
      ListReads(items, RenderItems(items, pad), rest, pad);
    case Obj(members) =>
      if members != [] {
        MembersRead(members, pad, rest);
        MembersStart(members, pad);
      }
      ObjReads(members, RenderMembers(members, pad), rest, pad);
  }

  lemma {:induction false} FirstItemThenRest(items: seq<Json>, pad: string, rest: string)
    requires |items| > 1 && forall v :: v in items ==> WellFormed(v) && Plain(v)
    requires ReadItems(RenderItems(items[1..], pad) + ("]" + rest), pad) == Parsed(items[1..], rest)
    ensures ReadItems(RenderItems(items, pad) + ("]" + rest), pad) == Parsed(items, rest)
    decreases items[0], 2
  {
    var first, sep, more, close := Render(items[0], pad), "," + pad, RenderItems(items[1..], pad), "]" + rest;
    ValueReads(items[0], pad, sep + (more + close));
    MoreItemsRead(items[0], items[1..], first + (sep + (more + close)), more + close, rest, pad);
    assert RenderItems(items, pad) == first + sep + more;
    Regroup4(first, sep, more, close);
    assert items == [items[0]] + items[1..];
  }

  lemma {:induction false} ItemsRead(items: seq<Json>, pad: string, rest: string)
    requires items != [] && forall v :: v in items ==> WellFormed(v) && Plain(v)
    ensures ReadItems(RenderItems(items, pad) + ("]" + rest), pad) == Parsed(items, rest)
    decreases items, 0
  {
    if |items| == 1 {
      ValueReads(items[0], pad, "]" + rest);
      LastItemReads(items[0], Render(items[0], pad) + ("]" + rest), rest, pad);
      assert items == [items[0]];
    } else {
      ItemsRead(items[1..], pad, rest);
      FirstItemThenRest(items, pad, rest);
    }
  }

  lemma {:induction false} MemberReads(m: Member, pad: string, rest: string)
    requires WellFormed(m.value) && Plain(m.value) && EndsNumber(rest)
    ensures ReadMember(RenderMember(m, pad) + rest, pad) == Parsed(m, rest)
    decreases m, 1
  {
    var sep, text := ":" + pad, Render(m.value, pad);
    ValueReads(m.value, pad, rest);
    KeyThenValueReads(m, text + rest, rest, pad);
    Regroup4(Quote(m.key), sep, text, rest);
  }

  lemma {:induction false} FirstMemberThenRest(members: seq<Member>, pad: string, rest: string)
    requires |members| > 1 && forall m :: m in members ==> WellFormed(m.value) && Plain(m.value)
    requires ReadMembers(RenderMembers(members[1..], pad) + ("}" + rest), pad) == Parsed(members[1..], rest)
    ensures ReadMembers(RenderMembers(members, pad) + ("}" + rest), pad) == Parsed(members, rest)
    decreases members[0], 2
  {
    var first, sep, more, close := RenderMember(members[0], pad), "," + pad,
        RenderMembers(members[1..], pad), "}" + rest;
    MemberReads(members[0], pad, sep + (more + close));
    MoreMembersRead(members[0], members[1..], first + (sep + (more + close)), more + close, rest, pad);
    assert RenderMembers(members, pad) == first + sep + more;
    Regroup4(first, sep, more, close);
    assert members == [members[0]] + members[1..];
  }

  lemma {:induction false} MembersRead(members: seq<Member>, pad: string, rest: string)
    requires members != [] && forall m :: m in members ==> WellFormed(m.value) && Plain(m.value)
    ensures ReadMembers(RenderMembers(members, pad) + ("}" + rest), pad) == Parsed(members, rest)
    decreases members, 0
  {
    if |members| == 1 {
      MemberReads(members[0], pad, "}" + rest);
      LastMemberReads(members[0], RenderMember(members[0], pad) + ("}" + rest), rest, pad);
      assert members == [members[0]];
    } else {
      MembersRead(members[1..], pad, rest);
      FirstMemberThenRest(members, pad, rest);
    }
  }

  // ---- whatever is read is a JSON value ----

  predicate IsJson(j: Json) {
    Plain(j) && WellFormed(j)
  }

  lemma NumberIsJson(s: string)
    ensures var r := ReadNumber(s); r.Parsed? ==> IsJson(r.value)
  {
  }

  lemma ObjectIsJson(ms: seq<Member>)
    requires forall m :: m in ms ==> IsJson(m.value)
    ensures IsJson(Obj(Collapse(ms)))
  {
    CollapseKeys(ms);
  }

  lemma {:induction false} ReadIsJson(s: string, pad: string)
    ensures var r := ReadValue(s, pad); r.Parsed? ==> IsJson(r.value)
    decreases |s|, 0
  {
    if s != [] {
      if s[0] == '[' {
        ItemsAreJson(s[1..], pad);
      } else if s[0] == '{' {
        MembersAreJson(s[1..], pad);
        var members := ReadMembers(s[1..], pad);
        if members.Parsed? {
          ObjectIsJson(members.value);
        }
      } else {
        NumberIsJson(s);
      }
    }
  }

  lemma {:induction false} ItemsAreJson(s: string, pad: string)
    ensures var r := ReadItems(s, pad); r.Parsed? ==> forall v :: v in r.value ==> IsJson(v)
    decreases |s|, 1
  {
    ReadIsJson(s, pad);
    var v := ReadValue(s, pad);
    if v.Parsed? {
      var comma := Skip(v.rest, "," + pad);
      if comma.Parsed? {
        ItemsAreJson(comma.rest, pad);
      }
    }
  }

  lemma {:induction false} MemberIsJson(s: string, pad: string)
    ensures var r := ReadMember(s, pad); r.Parsed? ==> IsJson(r.value.value)
    decreases |s|, 1
  {
    if "\"" <= s {
      var key := ReadString(s[1..]);
      if key.Parsed? {
        var colon := Skip(key.rest, ":" + pad);
        if colon.Parsed? {
          ReadIsJson(colon.rest, pad);
        }
      }
    }
  }

  lemma {:induction false} MembersAreJson(s: string, pad: string)
    ensures var r := ReadMembers(s, pad); r.Parsed? ==> forall m :: m in r.value ==> IsJson(m.value)
    decreases |s|, 2
  {
    MemberIsJson(s, pad);
    var m := ReadMember(s, pad);
    if m.Parsed? {
      var comma := Skip(m.rest, "," + pad);
      if comma.Parsed? {
        MembersAreJson(comma.rest, pad);
      }
    }
  }
}
