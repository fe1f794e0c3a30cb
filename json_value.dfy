/** A document as `json.load` returns it, with the three things the
    language loader does to such values: `dict.get`, Python truthiness
    (`x or y`, `if code and name`) and `str()`. */
module JsonValue {
  import opened PyStr

  /** `null`, `true`/`false`, integers, strings, arrays, and objects with
      their members in document order. */
  datatype Json =
    | JNull
    | JBool(b: bool)
    | JInt(i: int)
    | JStr(s: string)
    | JArray(items: seq<Json>)
    | JObject(members: seq<(string, Json)>)

  /** Python truthiness of a value that may be missing (`dict.get` gave `None`). */
  predicate Truthy(v: Option<Json>) {
    match v
    case None => false
    case Some(JNull) => false
    case Some(JBool(b)) => b
    case Some(JInt(i)) => i != 0
    case Some(JStr(s)) => s != ""
    case Some(JArray(items)) => items != []
    case Some(JObject(members)) => members != []
  }

  /** `a or b` */
  function OrElse(a: Option<Json>, b: Option<Json>): (r: Option<Json>)
    ensures Truthy(a) ==> r == a
    ensures !Truthy(a) ==> r == b
  {
    if Truthy(a) then a else b
  }

  /** `obj.get(key)`: the value of the last member named `key`, which is
      the one `json.load` keeps when a key is repeated. */
  function Get(members: seq<(string, Json)>, key: string): (r: Option<Json>)
    ensures r.None? <==> forall i :: 0 <= i < |members| ==> members[i].0 != key
    ensures r.Some? ==> (key, r.value) in members
  {
    if members == [] then None
    else if members[|members| - 1].0 == key then Some(members[|members| - 1].1)
    else Get(members[..|members| - 1], key)
  }

  /** The member at `i` is the last one named `key`, so `get` returns its value. */
  lemma {:induction false} GetLast(members: seq<(string, Json)>, key: string, i: nat)
    requires i < |members| && members[i].0 == key
    requires forall j :: i < j < |members| ==> members[j].0 != key
    ensures Get(members, key) == Some(members[i].1)
    decreases |members|
  {
    if i < |members| - 1 {
      GetLast(members[..|members| - 1], key, i);
    }
  }

  /** Index of the first member named `key`, or `|members|` when there is none. */
  function KeyIndex(members: seq<(string, Json)>, key: string): (i: nat)
    ensures i <= |members| && (i < |members| ==> members[i].0 == key)
    ensures forall j :: 0 <= j < i ==> members[j].0 != key
  {
    if members == [] || members[0].0 == key then 0 else 1 + KeyIndex(members[1..], key)
  }

  /** The dict `json.load` builds from an object's members, in order: each
      `d[key] = value` keeps an existing key in its place and replaces its
      value, and appends a new key. So every key appears once, at the
      position of its first member, with the value of its last. */
  function DictMembers(members: seq<(string, Json)>): (d: seq<(string, Json)>)
    ensures DictOf(members, d)
  {
    if members == [] then []
    else
      var d0 := DictMembers(members[..|members| - 1]);
      DictStep(members, d0);
      var last := members[|members| - 1];
      var i := KeyIndex(d0, last.0);
      if i < |d0| then d0[i := last] else d0 + [last]
  }

  /** `d` is the dict built from `members`: its members are members of the
      object, its keys distinct and exactly the object's keys, each with the
      value `get` returns, in the order of their first occurrence. */
  ghost predicate DictOf(members: seq<(string, Json)>, d: seq<(string, Json)>) {
    Drawn(members, d) && UniqueKeys(d) && LastValues(members, d) && SameKeySet(members, d) && FirstOrder(members, d)
  }

  ghost predicate Drawn(members: seq<(string, Json)>, d: seq<(string, Json)>) {
    forall i :: 0 <= i < |d| ==> d[i] in members
  }

  predicate UniqueKeys(d: seq<(string, Json)>) {
    forall i, j :: 0 <= i < j < |d| ==> d[i].0 != d[j].0
  }

  ghost predicate LastValues(members: seq<(string, Json)>, d: seq<(string, Json)>) {
    forall i :: 0 <= i < |d| ==> Get(members, d[i].0) == Some(d[i].1)
  }

  ghost predicate SameKeySet(members: seq<(string, Json)>, d: seq<(string, Json)>) {
    forall key :: KeyIndex(d, key) < |d| <==> KeyIndex(members, key) < |members|
  }

  ghost predicate FirstOrder(members: seq<(string, Json)>, d: seq<(string, Json)>) {
    forall i, j :: 0 <= i < j < |d| ==> KeyIndex(members, d[i].0) < KeyIndex(members, d[j].0)
  }

  lemma DictStep(members: seq<(string, Json)>, d0: seq<(string, Json)>)
    requires members != [] && DictOf(members[..|members| - 1], d0)
    ensures var last := members[|members| - 1];
      var i := KeyIndex(d0, last.0);
      DictOf(members, if i < |d0| then d0[i := last] else d0 + [last])
  {
    var init, last := members[..|members| - 1], members[|members| - 1];
    assert members == init + [last];
    var i := KeyIndex(d0, last.0);
    if i < |d0| {
      UpdateDrawn(init, last, d0, i);
      UpdateUnique(d0, last, i);
      UpdateValues(init, last, d0, i);
      UpdateKeys(init, last, d0, i);
      UpdateOrder(init, last, d0, i);
    } else {
      AppendDrawn(init, last, d0);
      AppendUnique(d0, last);
      AppendValues(init, last, d0);
      AppendKeys(init, last, d0);
      AppendOrder(init, last, d0);
    }
  }

  /** What one more member does to `get`. */
  lemma GetSnoc(init: seq<(string, Json)>, last: (string, Json), k: string)
    ensures Get(init + [last], k) == if k == last.0 then Some(last.1) else Get(init, k)
  {
    assert (init + [last])[..|init|] == init;
  }

  lemma UpdateDrawn(init: seq<(string, Json)>, last: (string, Json), d0: seq<(string, Json)>, i: nat)
    requires Drawn(init, d0) && i < |d0|
    ensures Drawn(init + [last], d0[i := last])
  {
    var d := d0[i := last];
    forall j | 0 <= j < |d| ensures d[j] in init + [last] {
      if j != i {
        assert d[j] == d0[j] && d0[j] in init;
      }
    }
  }

  lemma UpdateUnique(d0: seq<(string, Json)>, last: (string, Json), i: nat)
    requires UniqueKeys(d0) && i < |d0| && d0[i].0 == last.0
    ensures UniqueKeys(d0[i := last])
  {
    var d := d0[i := last];
    assert forall j :: 0 <= j < |d| ==> d[j].0 == d0[j].0;
  }

  lemma UpdateValues(init: seq<(string, Json)>, last: (string, Json), d0: seq<(string, Json)>, i: nat)
    requires LastValues(init, d0) && UniqueKeys(d0) && i < |d0| && d0[i].0 == last.0
    ensures LastValues(init + [last], d0[i := last])
  {
    var d := d0[i := last];
    forall j | 0 <= j < |d| ensures Get(init + [last], d[j].0) == Some(d[j].1) {
      GetSnoc(init, last, d[j].0);
      if j != i {
        assert d[j] == d0[j] && d0[j].0 != d0[i].0;
      }
    }
  }

  lemma UpdateKeys(init: seq<(string, Json)>, last: (string, Json), d0: seq<(string, Json)>, i: nat)
    requires SameKeySet(init, d0) && i < |d0| && d0[i].0 == last.0
    ensures SameKeySet(init + [last], d0[i := last])
  {
    var d := d0[i := last];
    KeyIndexAtMost(d0, i);
    assert KeyIndex(init, last.0) < |init|;
    forall k ensures KeyIndex(d, k) < |d| <==> KeyIndex(init + [last], k) < |init| + 1 {
      SameKeys(d, d0, k);
      KeyIndexSnoc(init, last, k);
    }
  }

  lemma UpdateOrder(init: seq<(string, Json)>, last: (string, Json), d0: seq<(string, Json)>, i: nat)
    requires FirstOrder(init, d0) && SameKeySet(init, d0) && i < |d0| && d0[i].0 == last.0
    ensures FirstOrder(init + [last], d0[i := last])
  {
    var d := d0[i := last];
    forall j | 0 <= j < |d| ensures d[j].0 == d0[j].0 && KeyIndex(init + [last], d[j].0) == KeyIndex(init, d0[j].0) {
      KeyIndexAtMost(d0, j);
      KeyIndexSnoc(init, last, d0[j].0);
    }
  }

  lemma AppendDrawn(init: seq<(string, Json)>, last: (string, Json), d0: seq<(string, Json)>)
    requires Drawn(init, d0)
    ensures Drawn(init + [last], d0 + [last])
  {
    var d := d0 + [last];
    forall j | 0 <= j < |d| ensures d[j] in init + [last] {
      if j < |d0| {
        assert d[j] == d0[j] && d0[j] in init;
      }
    }
  }

  lemma AppendUnique(d0: seq<(string, Json)>, last: (string, Json))
    requires UniqueKeys(d0) && KeyIndex(d0, last.0) == |d0|
    ensures UniqueKeys(d0 + [last])
  {
    var d := d0 + [last];
    assert forall j :: 0 <= j < |d0| ==> d[j] == d0[j];
  }

  lemma AppendValues(init: seq<(string, Json)>, last: (string, Json), d0: seq<(string, Json)>)
    requires LastValues(init, d0) && KeyIndex(d0, last.0) == |d0|
    ensures LastValues(init + [last], d0 + [last])
  {
    var d := d0 + [last];
    forall j | 0 <= j < |d| ensures Get(init + [last], d[j].0) == Some(d[j].1) {
      GetSnoc(init, last, d[j].0);
      if j < |d0| {
        assert d[j] == d0[j];
      }
    }
  }

  lemma AppendKeys(init: seq<(string, Json)>, last: (string, Json), d0: seq<(string, Json)>)
    requires SameKeySet(init, d0)
    ensures SameKeySet(init + [last], d0 + [last])
  {
    forall k ensures KeyIndex(d0 + [last], k) < |d0| + 1 <==> KeyIndex(init + [last], k) < |init| + 1 {
      KeyIndexSnoc(init, last, k);
      KeyIndexSnoc(d0, last, k);
    }
  }

  lemma AppendOrder(init: seq<(string, Json)>, last: (string, Json), d0: seq<(string, Json)>)
    requires FirstOrder(init, d0) && SameKeySet(init, d0) && KeyIndex(d0, last.0) == |d0|
    ensures FirstOrder(init + [last], d0 + [last])
  {
    var d := d0 + [last];
    assert KeyIndex(init, last.0) == |init|;
    KeyIndexSnoc(init, last, last.0);
    forall j | 0 <= j < |d0| ensures d[j] == d0[j] && KeyIndex(init + [last], d[j].0) == KeyIndex(init, d0[j].0) < |init| {
      KeyIndexAtMost(d0, j);
      KeyIndexSnoc(init, last, d0[j].0);
    }
  }

  /** The key at position `j` first occurs no later than `j`. */
  lemma KeyIndexAtMost(ms: seq<(string, Json)>, j: nat)
    requires j < |ms|
    ensures KeyIndex(ms, ms[j].0) <= j
  {
  }

  lemma KeyIndexSnoc(ms: seq<(string, Json)>, x: (string, Json), k: string)
    ensures KeyIndex(ms + [x], k) == if KeyIndex(ms, k) < |ms| then KeyIndex(ms, k) else if x.0 == k then |ms| else |ms| + 1
  {
    var j := if KeyIndex(ms, k) < |ms| then KeyIndex(ms, k) else if x.0 == k then |ms| else |ms| + 1;
    KeyIndexUnique(ms + [x], k, j);
  }

  lemma SameKeys(a: seq<(string, Json)>, b: seq<(string, Json)>, k: string)
    requires |a| == |b| && forall j :: 0 <= j < |a| ==> a[j].0 == b[j].0
    ensures KeyIndex(a, k) == KeyIndex(b, k)
  {
    KeyIndexUnique(a, k, KeyIndex(b, k));
  }

  /** The first index holding `key` is the one `KeyIndex` finds. */
  lemma KeyIndexUnique(ms: seq<(string, Json)>, key: string, j: nat)
    requires j <= |ms| && (j < |ms| ==> ms[j].0 == key)
    requires forall l :: 0 <= l < j ==> ms[l].0 != key
    ensures KeyIndex(ms, key) == j
  {
  }

  function DigitChar(d: nat): char
    requires d < 10
  {
    "0123456789"[d]
  }

  /** Decimal digits of `n`, most significant first. */
  function NatStr(n: nat): (r: string)
    ensures r != ""
    ensures forall i :: 0 <= i < |r| ==> '0' <= r[i] <= '9'
    ensures |r| > 1 ==> r[0] != '0'
    ensures DigitsValue(r) == n
  {
    if n < 10 then [DigitChar(n)] else NatStr(n / 10) + [DigitChar(n % 10)]
  }

  /** The number a string of decimal digits denotes. */
  function DigitsValue(s: string): int {
    if s == "" then 0 else 10 * DigitsValue(s[..|s| - 1]) + (s[|s| - 1] as int - '0' as int)
  }

  /** `str(i)` for an integer: a `-` exactly for a negative integer, then
      the decimal digits of its magnitude, without a leading zero. */
  function IntStr(i: int): (r: string)
    ensures r != "" && (i < 0 <==> r[0] == '-')
    ensures i < 0 ==> DigitsValue(r[1..]) == -i
    ensures i >= 0 ==> DigitsValue(r) == i
    ensures var digits := if i < 0 then r[1..] else r;
      && digits != ""
      && (forall k :: 0 <= k < |digits| ==> '0' <= digits[k] <= '9')
      && (|digits| > 1 ==> digits[0] != '0')
  {
    if i < 0 then
      var d := NatStr(-i);
      assert ("-" + d)[1..] == d;
      "-" + d
    else NatStr(i)
  }

  /** `repr(s)`: single quotes, unless the text holds a single quote and no
      double quote; backslash, the chosen quote, tab, newline and carriage
      return are escaped. Between the quotes, `Unescape` reads the text
      back; a text with nothing to escape appears as it is. */
  function QuoteRepr(s: string): (r: string)
    ensures |r| >= 2 && r[0] == r[|r| - 1]
    ensures r[0] == if '\'' in s && '"' !in s then '"' else '\''
    ensures Unescape(r[1..|r| - 1]) == s
    ensures (forall k :: 0 <= k < |s| ==> Plain(s[k], r[0])) ==> r == [r[0]] + s + [r[0]]
  {
    var q := if '\'' in s && '"' !in s then '"' else '\'';
    var e := Escape(s, q);
    EscapeRoundTrip(s, q);
    EscapePlain(s, q);
    assert ([q] + e + [q])[1..|e| + 1] == e;
    [q] + e + [q]
  }

  /** A character `repr` writes as it is inside the quote `q`. */
  predicate Plain(c: char, q: char) {
    c != '\\' && c != q && c != '\n' && c != '\r' && c != '\t'
  }

  /** One character as `repr` writes it inside the quote `q`. */
  function EscapeChar(c: char, q: char): string {
    if c == '\\' then "\\\\" else if c == q then ['\\', q]
    else if c == '\n' then "\\n" else if c == '\r' then "\\r"
    else if c == '\t' then "\\t" else [c]
  }

  function Escape(s: string, q: char): string {
    if s == "" then "" else EscapeChar(s[0], q) + Escape(s[1..], q)
  }

  /** Reads an escaped text back: a backslash and the character after it
      stand for the character they escape, any other character for itself. */
  function Unescape(e: string): string
    decreases |e|
  {
    if e == "" then ""
    else if e[0] == '\\' && |e| >= 2 then [Unescaped(e[1])] + Unescape(e[2..])
    else [e[0]] + Unescape(e[1..])
  }

  function Unescaped(c: char): char {
    if c == 'n' then '\n' else if c == 'r' then '\r' else if c == 't' then '\t' else c
  }

  /** Reading back one escaped character gives that character. */
  lemma UnescapeChar(c: char, q: char, t: string)
    requires q == '\'' || q == '"'
    ensures Unescape(EscapeChar(c, q) + t) == [c] + Unescape(t)
  {
    var e := EscapeChar(c, q);
    if |e| == 2 {
      assert (e + t)[0] == '\\' && (e + t)[1] == e[1] && (e + t)[2..] == t;
    } else {
      assert e == [c] && c != '\\';
      assert (e + t)[0] == c && (e + t)[1..] == t;
    }
  }

  /** `Unescape` undoes `Escape`. */
  lemma {:induction false} EscapeRoundTrip(s: string, q: char)
    requires q == '\'' || q == '"'
    ensures Unescape(Escape(s, q)) == s
    decreases |s|
  {
    if s != "" {
      EscapeRoundTrip(s[1..], q);
      UnescapeChar(s[0], q, Escape(s[1..], q));
      assert s == [s[0]] + s[1..];
    }
  }

  /** A text with nothing to escape is written as it is. */
  lemma {:induction false} EscapePlain(s: string, q: char)
    ensures (forall k :: 0 <= k < |s| ==> Plain(s[k], q)) ==> Escape(s, q) == s
    decreases |s|
  {
    if s != "" && forall k :: 0 <= k < |s| ==> Plain(s[k], q) {
      assert forall k :: 0 <= k < |s[1..]| ==> s[1..][k] == s[k + 1];
      EscapePlain(s[1..], q);
      assert s == [s[0]] + s[1..];
    }
  }

  /** `repr(v)` of a value inside a list or a dict. */
  function Repr(v: Json): (r: string)
    ensures v.JNull? ==> r == "None"
    ensures v.JBool? ==> r == (if v.b then "True" else "False")
    ensures v.JInt? ==> r == IntStr(v.i)
    ensures v.JStr? ==> |r| >= 2 && r[0] == r[|r| - 1] && r[0] in "'\""
    ensures v.JStr? ==> Unescape(r[1..|r| - 1]) == v.s
    ensures v.JStr? && (forall k :: 0 <= k < |v.s| ==> Plain(v.s[k], '\'')) ==> r == "'" + v.s + "'"
    ensures v.JArray? ==> |r| >= 2 && r[0] == '[' && r[|r| - 1] == ']'
    ensures v.JObject? ==> |r| >= 2 && r[0] == '{' && r[|r| - 1] == '}'
    decreases v, 1, 0
  {
    match v
    case JNull => "None"
    case JBool(b) => if b then "True" else "False"
    case JInt(i) => IntStr(i)
    case JStr(s) => QuotedString(s); QuoteRepr(s)
    case JArray(items) => "[" + ReprItems(v, 0) + "]"
    case JObject(members) => "{" + ReprMembers(v, 0) + "}"
  }

  /** The facts about `repr` of a string that `Repr` states. */
  lemma QuotedString(s: string)
    ensures var r := QuoteRepr(s);
      && |r| >= 2 && r[0] == r[|r| - 1] && r[0] in "'\""
      && Unescape(r[1..|r| - 1]) == s
      && ((forall k :: 0 <= k < |s| ==> Plain(s[k], '\'')) ==> r == "'" + s + "'")
  {
    var r := QuoteRepr(s);
    if forall k :: 0 <= k < |s| ==> Plain(s[k], '\'') {
      assert forall k :: 0 <= k < |s| ==> s[k] != '\'';
    }
  }

  /** The items of the list `v` from index `k` on, separated by `", "`. */
  function ReprItems(v: Json, k: nat): string
    requires v.JArray? && k <= |v.items|
    decreases v, 0, |v.items| - k
  {
    if k == |v.items| then ""
    else (if k > 0 then ", " else "") + Repr(v.items[k]) + ReprItems(v, k + 1)
  }

  /** The members of the dict `v` from index `k` on, as `'key': value`. */
  function ReprMembers(v: Json, k: nat): string
    requires v.JObject? && k <= |DictMembers(v.members)|
    decreases v, 0, |DictMembers(v.members)| - k
  {
    var d := DictMembers(v.members);
    if k == |d| then ""
    else
      var m := d[k];
      assert m in v.members;
      (if k > 0 then ", " else "") + QuoteRepr(m.0) + ": " + Repr(m.1) + ReprMembers(v, k + 1)
  }

  /** The `repr` of each item of a list. */
  function ItemReprs(items: seq<Json>): seq<string> {
    seq(|items|, i requires 0 <= i < |items| => Repr(items[i]))
  }

  /** Each member of a dict written as `key: value`. */
  function MemberReprs(d: seq<(string, Json)>): seq<string> {
    seq(|d|, i requires 0 <= i < |d| => QuoteRepr(d[i].0) + ": " + Repr(d[i].1))
  }

  lemma {:induction false} ReprItemsFrom(v: Json, k: nat)
    requires v.JArray? && k < |v.items|
    ensures ReprItems(v, k) == (if k > 0 then ", " else "") + JoinStr(ItemReprs(v.items)[k..], ", ")
    decreases |v.items| - k
  {
    var rs := ItemReprs(v.items);
    var pre: string := if k > 0 then ", " else "";
    assert ReprItems(v, k) == pre + rs[k] + ReprItems(v, k + 1);
    if k + 1 == |v.items| {
      assert rs[k..] == [rs[k]];
    } else {
      ReprItemsFrom(v, k + 1);
      JoinStep(rs[k..], ", ");
      assert rs[k..][1..] == rs[k + 1..];
      SeparatedAssoc(pre, rs[k], ", ", JoinStr(rs[k + 1..], ", "));
    }
  }

  /** `repr` of a list: the `repr`s of its items joined by `", "`, in brackets. */
  lemma ReprList(items: seq<Json>)
    ensures Repr(JArray(items)) == "[" + JoinStr(ItemReprs(items), ", ") + "]"
  {
    var v, rs := JArray(items), ItemReprs(items);
    assert Repr(v) == "[" + ReprItems(v, 0) + "]";
    if items != [] {
      ReprItemsFrom(v, 0);
      assert rs[0..] == rs;
      assert ReprItems(v, 0) == "" + JoinStr(rs, ", ") == JoinStr(rs, ", ");
    } else {
      assert ReprItems(v, 0) == "" && rs == [];
    }
  }

  lemma {:induction false} ReprMembersFrom(v: Json, k: nat)
    requires v.JObject? && k < |DictMembers(v.members)|
    ensures ReprMembers(v, k) == (if k > 0 then ", " else "") + JoinStr(MemberReprs(DictMembers(v.members))[k..], ", ")
    decreases |DictMembers(v.members)| - k
  {
    var d := DictMembers(v.members);
    var rs := MemberReprs(d);
    var pre: string := if k > 0 then ", " else "";
    assert ReprMembers(v, k) == pre + QuoteRepr(d[k].0) + ": " + Repr(d[k].1) + ReprMembers(v, k + 1);
    assert rs[k] == QuoteRepr(d[k].0) + ": " + Repr(d[k].1);
    MemberAssoc(pre, QuoteRepr(d[k].0), Repr(d[k].1), ReprMembers(v, k + 1));
    if k + 1 == |d| {
      assert rs[k..] == [rs[k]];
    } else {
      ReprMembersFrom(v, k + 1);
      JoinStep(rs[k..], ", ");
      assert rs[k..][1..] == rs[k + 1..];
      SeparatedAssoc(pre, rs[k], ", ", JoinStr(rs[k + 1..], ", "));
    }
  }

  /** `repr` of a dict: the dict `json.load` builds, each member written as
      `key: value`, joined by `", "`, in braces. */
  lemma ReprDict(members: seq<(string, Json)>)
    ensures Repr(JObject(members)) == "{" + JoinStr(MemberReprs(DictMembers(members)), ", ") + "}"
  {
    var v, d := JObject(members), DictMembers(members);
    var rs := MemberReprs(d);
    assert Repr(v) == "{" + ReprMembers(v, 0) + "}";
    if d != [] {
      ReprMembersFrom(v, 0);
      assert rs[0..] == rs;
      assert ReprMembers(v, 0) == "" + JoinStr(rs, ", ") == JoinStr(rs, ", ");
    } else {
      assert ReprMembers(v, 0) == "" && rs == [];
    }
  }

  lemma JoinStep(ss: seq<string>, sep: string)
    requires |ss| >= 2
    ensures JoinStr(ss, sep) == ss[0] + sep + JoinStr(ss[1..], sep)
  {
  }

  lemma SeparatedAssoc(pre: string, x: string, sep: string, tail: string)
    ensures pre + x + (sep + tail) == pre + (x + sep + tail)
  {
  }

  lemma MemberAssoc(pre: string, key: string, value: string, rest: string)
    ensures pre + key + ": " + value + rest == pre + (key + ": " + value) + rest
  {
  }

  /** `str(v)`: a string is itself, everything else is its `repr`. */
  function Str(v: Json): (r: string)
    ensures v.JStr? ==> r == v.s
    ensures !v.JStr? ==> r == Repr(v)
  {
    if v.JStr? then v.s else Repr(v)
  }

  /** Like `json.load`, a repeated key keeps its first place and its last
      value. */
  lemma RepeatedKeyDict(key: string, a: Json, b: Json)
    ensures DictMembers([(key, a), (key, b)]) == [(key, b)]
  {
    var ms := [(key, a), (key, b)];
    assert ms[..1] == [(key, a)] && ms[..1][..0] == [];
    assert DictMembers(ms[..1]) == [(key, a)];
  }

  /** A key of one plain character is quoted with single quotes. */
  lemma QuotePlain(c: char)
    requires c !in "'\"\\\n\r\t"
    ensures QuoteRepr([c]) == ['\'', c, '\'']
  {
    assert [c][0] == c && [c][1..] == "";
    assert '\'' !in [c];
    assert Escape([c], '\'') == [c] + Escape("", '\'');
  }

  /** `str({"x": 1, "x": 2})` is `{'x': 2}`. */
  lemma RepeatedKeyStr()
    ensures Str(JObject([("x", JInt(1)), ("x", JInt(2))])) == "{'x': 2}"
  {
    var v := JObject([("x", JInt(1)), ("x", JInt(2))]);
    RepeatedKeyDict("x", JInt(1), JInt(2));
    QuotePlain('x');
    assert IntStr(2) == "2";
    assert ReprMembers(v, 1) == "";
    assert ReprMembers(v, 0) == "'x': 2";
  }
}
