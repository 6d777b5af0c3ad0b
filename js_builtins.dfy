/** The parts of JavaScript's string built-ins that the scraper, the file
    helper, the analyzer and the entry point rely on, stated over
    `seq<char>`: truthiness of possibly-missing strings, `startsWith`,
    `includes`, `split` and `join` on a one-character separator, `trim`
    with ECMAScript's white-space set, number-to-string conversion and the
    quoting `JSON.stringify` applies to a string. */
module JsBuiltins {

  /** A JavaScript value that is a string, `null` or `undefined`. Selenium's
      `getAttribute` yields `null` for a missing attribute; a property that
      was never assigned on an object reads as `undefined`. */
  datatype JsStr = Undefined | Null | Str(s: string) {
    /** JavaScript truthiness: `undefined`, `null` and `""` are falsy. */
    predicate Truthy() {
      Str? && s != ""
    }
  }

  /** `s.startsWith(prefix)` */
  predicate StartsWith(s: string, prefix: string) {
    |prefix| <= |s| && s[..|prefix|] == prefix
  }

  /** `s.endsWith(suffix)` */
  predicate EndsWith(s: string, suffix: string) {
    |suffix| <= |s| && s[|s| - |suffix|..] == suffix
  }

  /** `t` occurs in `s` starting at index `i`. */
  predicate OccursAt(s: string, i: int, t: string) {
    0 <= i <= |s| - |t| && s[i..i + |t|] == t
  }

  /** `s.includes(t)`, the test behind Selenium's `until.urlContains`. */
  predicate Contains(s: string, t: string) {
    exists i :: 0 <= i <= |s| - |t| && OccursAt(s, i, t)
  }

  /** ECMAScript WhiteSpace and LineTerminator code points: the set `\s`
      matches in a regular expression and the set `trim` removes. */
  predicate IsSpace(c: char) {
    if c < '\U{00A0}' then
      c == ' ' || ('\t' <= c <= '\r')  // tab, line feed, vertical tab, form feed, carriage return
    else
      || c == '\U{00A0}' || c == '\U{1680}'
      || ('\U{2000}' <= c <= '\U{200A}')
      || c == '\U{2028}' || c == '\U{2029}' || c == '\U{202F}' || c == '\U{205F}'
      || c == '\U{3000}' || c == '\U{FEFF}'
  }

  // ---------------------------------------------------------------------
  // split and join on a one-character separator

  /** `s.split(sep)` for a one-character separator: the pieces between
      consecutive separators, at least one (`"".split(",")` is `[""]`). */
  function Split(s: string, sep: char): (parts: seq<string>)
    ensures |parts| >= 1
    ensures forall i :: 0 <= i < |parts| ==> sep !in parts[i]
  {
    if s == [] then [""]
    else
      var rest := Split(s[1..], sep);
      if s[0] == sep then [""] + rest else [[s[0]] + rest[0]] + rest[1..]
  }

  /** `parts.join(sep)` for a one-character separator. */
  function Join(parts: seq<string>, sep: char): string {
    if |parts| == 0 then ""
    else if |parts| == 1 then parts[0]
    else parts[0] + [sep] + Join(parts[1..], sep)
  }

  lemma JoinConsHead(c: char, p: string, ps: seq<string>, sep: char)
    ensures Join([[c] + p] + ps, sep) == [c] + Join([p] + ps, sep)
  {
    if ps != [] {
      assert ([[c] + p] + ps)[1..] == ps;
      assert ([p] + ps)[1..] == ps;
    }
  }

  /** Joining the pieces of a split gives back the string. */
  lemma {:induction false} SplitJoin(s: string, sep: char)
    ensures Join(Split(s, sep), sep) == s
  {
    if s != [] {
      var rest := Split(s[1..], sep);
      SplitJoin(s[1..], sep);
      if s[0] == sep {
        assert ([""] + rest)[1..] == rest;
      } else {
        JoinConsHead(s[0], rest[0], rest[1..], sep);
        assert [rest[0]] + rest[1..] == rest;
      }
    }
  }

  lemma {:induction false} SplitAfterPiece(p: string, r: string, sep: char)
    requires sep !in p
    ensures Split(p + [sep] + r, sep) == [p] + Split(r, sep)
    decreases |p|
  {
    var s := p + [sep] + r;
    if p == [] {
      assert s[1..] == r;
    } else {
      assert s[1..] == p[1..] + [sep] + r;
      SplitAfterPiece(p[1..], r, sep);
      assert [p[0]] + p[1..] == p;
    }
  }

  lemma {:induction false} SplitOfPiece(p: string, sep: char)
    requires sep !in p
    ensures Split(p, sep) == [p]
  {
    if p != [] {
      SplitOfPiece(p[1..], sep);
      assert [p[0]] + p[1..] == p;
    }
  }

  /** Splitting a join of separator-free pieces gives back the pieces, so
      the lines of a `"\n"`-joined text are exactly the joined lines. */
  lemma {:induction false} JoinSplit(parts: seq<string>, sep: char)
    requires |parts| >= 1
    requires forall i :: 0 <= i < |parts| ==> sep !in parts[i]
    ensures Split(Join(parts, sep), sep) == parts
  {
    if |parts| == 1 {
      SplitOfPiece(parts[0], sep);
    } else {
      JoinSplit(parts[1..], sep);
      SplitAfterPiece(parts[0], Join(parts[1..], sep), sep);
      assert [parts[0]] + parts[1..] == parts;
    }
  }

  /** The first piece of a split is the longest separator-free prefix: it
      ends where the string ends or at the first separator. */
  lemma {:induction false} SplitFirst(s: string, sep: char)
    ensures var p := Split(s, sep)[0];
            StartsWith(s, p) && sep !in p && (|p| == |s| || s[|p|] == sep)
  {
    if s != [] && s[0] != sep {
      SplitFirst(s[1..], sep);
      var q := Split(s[1..], sep)[0];
      assert Split(s, sep)[0] == [s[0]] + q;
      assert s == [s[0]] + s[1..];
    }
  }

  /** `parts[parts.length - 1]` */
  function LastOf(parts: seq<string>): string
    requires |parts| >= 1
  {
    parts[|parts| - 1]
  }

  /** The last piece of a split is the longest separator-free suffix: it
      starts where the string starts or just after the last separator. */
  lemma {:induction false} SplitLast(s: string, sep: char)
    ensures var q := LastOf(Split(s, sep));
            EndsWith(s, q) && sep !in q && (|q| == |s| || s[|s| - |q| - 1] == sep)
  {
    if s != [] {
      var rest := Split(s[1..], sep);
      SplitLast(s[1..], sep);
      var q := LastOf(rest);
      if s[0] == sep || |rest| > 1 {
        SplitLastTail(s, sep);
        SuffixShift(s, q);
        if s[0] != sep && |q| == |s[1..]| {
          assert q == s[1..];
          SplitOfPiece(s[1..], sep);
        }
      } else {
        SplitLastWhole(s, sep);
      }
    }
  }

  lemma SplitLastTail(s: string, sep: char)
    requires s != [] && (s[0] == sep || |Split(s[1..], sep)| > 1)
    ensures LastOf(Split(s, sep)) == LastOf(Split(s[1..], sep))
  {
  }

  lemma SplitLastWhole(s: string, sep: char)
    requires s != [] && s[0] != sep && |Split(s[1..], sep)| == 1
    ensures LastOf(Split(s, sep)) == s
  {
    SplitJoin(s[1..], sep);
    assert [s[0]] + s[1..] == s;
  }

  lemma SuffixShift(s: string, q: string)
    requires s != [] && EndsWith(s[1..], q)
    ensures EndsWith(s, q)
    ensures |q| < |s| - 1 ==> s[|s| - |q| - 1] == s[1..][|s| - 1 - |q| - 1]
  {
    assert s[|s| - |q|..] == s[1..][|s| - 1 - |q|..];
  }

  // ---------------------------------------------------------------------
  // trim

  /** `s.trimStart()` */
  function TrimStart(s: string): (r: string)
    ensures EndsWith(s, r)
    ensures r == [] || !IsSpace(r[0])
    ensures forall i :: 0 <= i < |s| - |r| ==> IsSpace(s[i])
  {
    if s != [] && IsSpace(s[0]) then TrimStart(s[1..]) else s
  }

  /** `s.trimEnd()` */
  function TrimEnd(s: string): (r: string)
    ensures StartsWith(s, r)
    ensures r == [] || !IsSpace(r[|r| - 1])
    ensures forall i :: |r| <= i < |s| ==> IsSpace(s[i])
  {
    if s != [] && IsSpace(s[|s| - 1]) then TrimEnd(s[..|s| - 1]) else s
  }

  /** `s.trim()`: neither starts nor ends with white space. */
  function Trim(s: string): (r: string)
    ensures r == [] || (!IsSpace(r[0]) && !IsSpace(r[|r| - 1]))
  {
    var t := TrimStart(s);
    var r := TrimEnd(t);
    assert r != [] ==> r[0] == t[0];
    r
  }

  /** The trimmed string is a slice of `s` with only white space cut off
      on either side. */
  lemma TrimSlice(s: string)
    ensures exists k :: OccursAt(s, k, Trim(s))
                        && (forall i :: 0 <= i < k ==> IsSpace(s[i]))
                        && (forall i :: k + |Trim(s)| <= i < |s| ==> IsSpace(s[i]))
  {
    var t := TrimStart(s);
    assert Trim(s) == TrimEnd(t);
    SliceBetween(s, t, TrimEnd(t));
  }

  lemma SliceBetween(s: string, t: string, r: string)
    requires EndsWith(s, t) && (forall i :: 0 <= i < |s| - |t| ==> IsSpace(s[i]))
    requires StartsWith(t, r) && (forall i :: |r| <= i < |t| ==> IsSpace(t[i]))
    ensures exists k :: OccursAt(s, k, r)
                        && (forall i :: 0 <= i < k ==> IsSpace(s[i]))
                        && (forall i :: k + |r| <= i < |s| ==> IsSpace(s[i]))
  {
    var k := |s| - |t|;
    assert s[k..k + |r|] == t[..|r|];
    assert forall i :: k <= i < |s| ==> s[i] == t[i - k];
    assert OccursAt(s, k, r);
  }

  // ---------------------------------------------------------------------
  // numbers as text

  function DigitChar(d: nat): (c: char)
    requires d < 10
    ensures '0' <= c <= '9' && c as int - '0' as int == d
  {
    ('0' as int + d) as char
  }

  /** The decimal text JavaScript produces for a non-negative integer
      (`String(n)`, or `${n}` in a template literal). */
  function NumberToString(n: nat): (r: string)
    ensures r != []
    ensures forall i :: 0 <= i < |r| ==> '0' <= r[i] <= '9'
    ensures |r| > 1 ==> r[0] != '0'
  {
    if n < 10 then [DigitChar(n)] else NumberToString(n / 10) + [DigitChar(n % 10)]
  }

  /** The value of a string of decimal digits. */
  function ParseDecimal(s: string): nat
    requires forall i :: 0 <= i < |s| ==> '0' <= s[i] <= '9'
  {
    if s == [] then 0
    else ParseDecimal(s[..|s| - 1]) * 10 + (s[|s| - 1] as int - '0' as int)
  }

  /** Reading the digits back gives the number, so distinct numbers have
      distinct decimal texts. */
  lemma {:induction false} ParseNumberToString(n: nat)
    ensures ParseDecimal(NumberToString(n)) == n
  {
    if n >= 10 {
      var r := NumberToString(n);
      assert r[..|r| - 1] == NumberToString(n / 10);
      ParseNumberToString(n / 10);
    }
  }

  lemma NumberToStringInjective(m: nat, n: nat)
    requires NumberToString(m) == NumberToString(n)
    ensures m == n
  {
    ParseNumberToString(m);
    ParseNumberToString(n);
  }

  // ---------------------------------------------------------------------
  // JSON.stringify of a string

  function HexDigit(d: nat): (c: char)
    requires d < 16
    ensures if d < 10 then c as int == '0' as int + d else c as int == 'a' as int + d - 10
  {
    "0123456789abcdef"[d]
  }

  /** How `JSON.stringify` writes one character inside a string literal:
      the quote, the backslash and the control characters are escaped
      (short forms where JSON has them, otherwise `\u00xx` in lower-case
      hex); every other character is written as it is. */
  function JsonEscapeChar(c: char): string {
    if c == '"' then "\\\""
    else if c == '\\' then "\\\\"
    else if c == '\U{0008}' then "\\b"
    else if c == '\U{000C}' then "\\f"
    else if c == '\n' then "\\n"
    else if c == '\r' then "\\r"
    else if c == '\t' then "\\t"
    else if (c as int) < 0x20 then "\\u00" + [HexDigit(c as int / 16), HexDigit(c as int % 16)]
    else [c]
  }

  function JsonEscape(s: string): string {
    if s == [] then "" else JsonEscapeChar(s[0]) + JsonEscape(s[1..])
  }

  /** `JSON.stringify(v)` for a string, `null` or `undefined` value `v`
      held in an object property (an `undefined` property is omitted by the
      caller). */
  function JsonValue(v: JsStr): string {
    match v
    case Str(s) => "\"" + JsonEscape(s) + "\""
    case _ => "null"
  }

  /** Escaping leaves no line break in the text: a line feed or carriage
      return inside a string is written as `\n` or `\r`. */
  lemma {:induction false} JsonEscapeSingleLine(s: string)
    ensures '\n' !in JsonEscape(s) && '\r' !in JsonEscape(s)
  {
    if s != [] {
      JsonEscapeSingleLine(s[1..]);
      var c := s[0];
      if c != '"' && c != '\\' && c != '\U{0008}' && c != '\U{000C}' && c != '\n' && c != '\r' && c != '\t' && (c as int) < 0x20 {
        var e := JsonEscapeChar(c);
        assert e == "\\u00" + [HexDigit(c as int / 16), HexDigit(c as int % 16)];
        assert forall i :: 0 <= i < |e| ==> e[i] != '\n' && e[i] != '\r';
      }
    }
  }
}
