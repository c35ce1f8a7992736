/**
 * JSON values and `JSON.stringify` as ECMAScript defines it for them (section 25.5.2 of
 * ECMA-262, producing the text of RFC 8259): object members keep their order, strings are
 * quoted with `"` and `\` escaped and control characters written as short escapes or `\u00xx`.
 * Numbers are integers here and are written in decimal.
 */
module Json {
  import opened Text

  datatype Value =
    | JNull
    | JBool(b: bool)
    | JNum(n: int)
    | JStr(s: string)
    | JArray(items: seq<Value>)
    | JObject(members: seq<Member>)

  /** One `"key": value` member of an object; members keep the order they were written in. */
  datatype Member = Member(key: string, value: Value)

  /** The escape `JSON.stringify` writes for one character of a string. */
  function EscapeChar(c: char): (e: string)
    ensures 1 <= |e| <= 6
  {
    if c == '"' then "\\\""
    else if c == '\\' then "\\\\"
    else if c == '\U{8}' then "\\b"
    else if c == '\U{C}' then "\\f"
    else if c == '\n' then "\\n"
    else if c == '\r' then "\\r"
    else if c == '\t' then "\\t"
    else if c < ' ' then "\\u00" + [HexDigit(c as int / 16), HexDigit(c as int % 16)]
    else [c]
  }

  function EscapeString(s: string): string {
    if s == [] then [] else EscapeChar(s[0]) + EscapeString(s[1..])
  }

  /** A JSON string literal: the escaped text between double quotes. */
  function Quote(s: string): string {
    "\"" + EscapeString(s) + "\""
  }

  function DigitChar(d: nat): char
    requires d < 10
  {
    ('0' as int + d) as char
  }

  /** The decimal digits of `n`, most significant first, with no leading zero. */
  function NatText(n: nat): (t: string)
    ensures |t| >= 1
    ensures forall i :: 0 <= i < |t| ==> '0' <= t[i] <= '9'
  {
    if n < 10 then [DigitChar(n)] else NatText(n / 10) + [DigitChar(n % 10)]
  }

  /** `String(n)` for an integer `n`. */
  function IntText(n: int): (t: string)
    ensures ',' !in t && '}' !in t
  {
    if n < 0 then "-" + NatText(-n) else NatText(n)
  }

  function Stringify(v: Value): string
    decreases v
  {
    match v
    case JNull => "null"
    case JBool(b) => if b then "true" else "false"
    case JNum(n) => IntText(n)
    case JStr(s) => Quote(s)
    case JArray(items) => "[" + StringifyItems(items) + "]"
    case JObject(members) => "{" + StringifyMembers(members) + "}"
  }

  function StringifyItems(items: seq<Value>): string
    decreases items
  {
    if items == [] then []
    else if |items| == 1 then Stringify(items[0])
    else Stringify(items[0]) + "," + StringifyItems(items[1..])
  }

  function StringifyMembers(members: seq<Member>): string
    decreases members
  {
    if members == [] then []
    else
      var m := members[0];
      assert m.value < m;
      var text := MemberText(m.key, Stringify(m.value));
      if |members| == 1 then text else text + "," + StringifyMembers(members[1..])
  }

  /** `"key":value` for an already written value. */
  function MemberText(key: string, valueText: string): string {
    Quote(key) + ":" + valueText
  }

  lemma StringifyMembersCons(m: Member, rest: seq<Member>)
    requires rest != []
    ensures StringifyMembers([m] + rest) == MemberText(m.key, Stringify(m.value)) + "," + StringifyMembers(rest)
  {
    assert ([m] + rest)[1..] == rest;
  }

  /** An object of one member is written as that member in braces. */
  lemma ObjectTextOne(m: Member)
    ensures Stringify(JObject([m])) == "{" + MemberText(m.key, Stringify(m.value)) + "}"
  {
  }

  /** An object of two members is written as the two members, comma-separated, in braces. */
  lemma ObjectTextTwo(m0: Member, m1: Member)
    ensures Stringify(JObject([m0, m1])) ==
      "{" + MemberText(m0.key, Stringify(m0.value)) + "," + MemberText(m1.key, Stringify(m1.value)) + "}"
  {
    var a, b := MemberText(m0.key, Stringify(m0.value)), MemberText(m1.key, Stringify(m1.value));
    assert [m0, m1] == [m0] + [m1];
    StringifyMembersCons(m0, [m1]);
    assert StringifyMembers([m1]) == b;
    assert "{" + (a + "," + b) + "}" == "{" + a + "," + b + "}";
  }

  /** A key without quote, backslash or control characters is written as it is. */
  lemma {:induction false} EscapePlain(s: string)
    requires forall i :: 0 <= i < |s| ==> s[i] != '"' && s[i] != '\\' && s[i] >= ' '
    ensures EscapeString(s) == s
  {
    if s != [] {
      EscapePlain(s[1..]);
    }
  }

  // ---------------------------------------------------------------------------------------
  // Decoding: quoted strings and decimal numbers can be read back, so they are injective.

  /** The character an escape stands for; the inverse of `EscapeChar`. */
  function UnescapeChar(e: string): char
    requires |e| >= 1
  {
    if |e| == 1 then e[0]
    else if e[1] == 'b' then '\U{8}'
    else if e[1] == 'f' then '\U{C}'
    else if e[1] == 'n' then '\n'
    else if e[1] == 'r' then '\r'
    else if e[1] == 't' then '\t'
    else if e[1] == 'u' && |e| == 6 then (HexValue(e[4]) * 16 + HexValue(e[5])) as char
    else e[1]
  }

  lemma UnescapeEscapeChar(c: char)
    ensures UnescapeChar(EscapeChar(c)) == c
  {
    if c < ' ' && c != '\U{8}' && c != '\U{C}' && c != '\n' && c != '\r' && c != '\t' {
      HexValueOfDigit(c as int / 16);
      HexValueOfDigit(c as int % 16);
    }
  }

  /** How many characters the escape at the start of `w` takes, read from its first two. */
  function EscapeLength(w: string): nat
    requires |w| >= 1
  {
    if w[0] != '\\' then 1 else if |w| >= 2 && w[1] == 'u' then 6 else 2
  }

  lemma EscapeLengthOf(c: char, rest: string)
    ensures EscapeLength(EscapeChar(c) + rest) == |EscapeChar(c)|
  {
    var e := EscapeChar(c);
    assert (e + rest)[0] == e[0];
    if |e| > 1 {
      assert (e + rest)[1] == e[1];
    }
  }

  /** Escapes form a prefix-free code: the escape at the front of a text is determined. */
  lemma EscapeCharPrefixFree(c: char, d: char, p: string, q: string)
    requires EscapeChar(c) + p == EscapeChar(d) + q
    ensures c == d && p == q
  {
    var e, f := EscapeChar(c), EscapeChar(d);
    EscapeLengthOf(c, p);
    EscapeLengthOf(d, q);
    assert e == (e + p)[..|e|];
    assert f == (f + q)[..|f|];
    assert p == (e + p)[|e|..];
    assert q == (f + q)[|f|..];
    UnescapeEscapeChar(c);
    UnescapeEscapeChar(d);
  }

  /** The text after an escaped string starts with its closing quote exactly when it is empty. */
  lemma EscapedHead(a: string, x: string)
    ensures (EscapeString(a) + "\"" + x)[0] == '"' <==> a == []
  {
    if a != [] {
      EscapedUnfold(a, x);
    }
  }

  lemma EscapedUnfold(a: string, x: string)
    requires a != []
    ensures EscapeString(a) + "\"" + x == EscapeChar(a[0]) + (EscapeString(a[1..]) + "\"" + x)
  {
  }

  lemma {:induction false} EscapedPrefixFree(a: string, b: string, x: string, y: string)
    requires EscapeString(a) + "\"" + x == EscapeString(b) + "\"" + y
    ensures a == b && x == y
    decreases |a|
  {
    EscapedHead(a, x);
    EscapedHead(b, y);
    if a == [] {
      assert x == (EscapeString(a) + "\"" + x)[1..];
      assert y == (EscapeString(b) + "\"" + y)[1..];
    } else {
      var ra := EscapeString(a[1..]) + "\"" + x;
      var rb := EscapeString(b[1..]) + "\"" + y;
      EscapedUnfold(a, x);
      EscapedUnfold(b, y);
      EscapeCharPrefixFree(a[0], b[0], ra, rb);
      EscapedPrefixFree(a[1..], b[1..], x, y);
      assert a == [a[0]] + a[1..];
      assert b == [b[0]] + b[1..];
    }
  }

  /**
   * A quoted string is a prefix-free code: when two texts agree and each starts with a JSON
   * string literal, the literals hold the same string and what follows them is the same.
   */
  lemma QuotePrefixFree(a: string, b: string, x: string, y: string)
    requires Quote(a) + x == Quote(b) + y
    ensures a == b && x == y
  {
    QuoteTail(a, x);
    QuoteTail(b, y);
    CancelPrefix("\"", EscapeString(a) + "\"" + x, EscapeString(b) + "\"" + y);
    EscapedPrefixFree(a, b, x, y);
  }

  /** A literal followed by more text is the opening quote followed by the rest. */
  lemma QuoteTail(a: string, x: string)
    ensures Quote(a) + x == "\"" + (EscapeString(a) + "\"" + x)
  {
    var e := EscapeString(a);
    assert ("\"" + e + "\"") + x == "\"" + ((e + "\"") + x);
  }

  function DigitValue(c: char): nat {
    if '0' <= c <= '9' then c as int - '0' as int else 0
  }

  lemma CancelPrefix(p: string, x: string, y: string)
    requires p + x == p + y
    ensures x == y
  {
    assert x == (p + x)[|p|..];
    assert y == (p + y)[|p|..];
  }

  /** Two members with the same key and string values, each followed by a comma, split alike. */
  lemma StringMemberPrefixFree(key: string, a: string, b: string, x: string, y: string)
    requires MemberText(key, Quote(a)) + "," + x == MemberText(key, Quote(b)) + "," + y
    ensures a == b && x == y
  {
    var p := Quote(key) + ":";
    assert MemberText(key, Quote(a)) + "," + x == p + (Quote(a) + ("," + x));
    assert MemberText(key, Quote(b)) + "," + y == p + (Quote(b) + ("," + y));
    CancelPrefix(p, Quote(a) + ("," + x), Quote(b) + ("," + y));
    QuotePrefixFree(a, b, "," + x, "," + y);
    CancelPrefix(",", x, y);
  }

  /** Two members with the same key and integer values, each followed by a comma, split alike. */
  lemma IntMemberPrefixFree(key: string, m: int, n: int, x: string, y: string)
    requires MemberText(key, IntText(m)) + "," + x == MemberText(key, IntText(n)) + "," + y
    ensures m == n && x == y
  {
    var p := Quote(key) + ":";
    assert MemberText(key, IntText(m)) + "," + x == p + (IntText(m) + [','] + x);
    assert MemberText(key, IntText(n)) + "," + y == p + (IntText(n) + [','] + y);
    CancelPrefix(p, IntText(m) + [','] + x, IntText(n) + [','] + y);
    SplitAtFirst(IntText(m), IntText(n), x, y, ',');
    IntTextInjective(m, n);
  }

  /** Reads a run of decimal digits back; the inverse of `NatText`. */
  function ParseNat(t: string): nat {
    if t == [] then 0 else ParseNat(t[..|t| - 1]) * 10 + DigitValue(t[|t| - 1])
  }

  lemma {:induction false} ParseNatText(n: nat)
    ensures ParseNat(NatText(n)) == n
  {
    if n >= 10 {
      var t := NatText(n);
      assert t[..|t| - 1] == NatText(n / 10);
      ParseNatText(n / 10);
    }
  }

  /** `IntText` is injective: distinct integers are written differently. */
  lemma IntTextInjective(m: int, n: int)
    requires IntText(m) == IntText(n)
    ensures m == n
  {
    if m < 0 {
      assert IntText(m)[0] == '-';
      assert NatText(-m) == IntText(m)[1..];
    }
    if n < 0 {
      assert IntText(n)[0] == '-';
      assert NatText(-n) == IntText(n)[1..];
    }
    if m >= 0 { assert '0' <= NatText(m)[0] <= '9'; }
    if n >= 0 { assert '0' <= NatText(n)[0] <= '9'; }
    ParseNatText(if m < 0 then -m else m);
    ParseNatText(if n < 0 then -n else n);
  }
}
