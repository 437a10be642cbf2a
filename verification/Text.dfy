/** The JavaScript string operations that the small cores use, with their laws. */
module Text {
  import opened Prelude

  /** White space as `trim` and `\s` see it. */
  predicate IsSpace(c: char) {
    var n := c as int;
    9 <= n <= 13 || n == 32 || n == 160 || n == 0x1680 || 0x2000 <= n <= 0x200A || n == 0x2028 || n == 0x2029
    || n == 0x202F || n == 0x205F || n == 0x3000 || n == 0xFEFF
  }

  function TrimStart(s: string): string {
    if s != "" && IsSpace(s[0]) then TrimStart(s[1..]) else s
  }

  function TrimEnd(s: string): string {
    if s != "" && IsSpace(s[|s| - 1]) then TrimEnd(s[..|s| - 1]) else s
  }

  function Trim(s: string): string {
    TrimEnd(TrimStart(s))
  }

  predicate AreSpaces(s: string) {
    forall i :: 0 <= i < |s| ==> IsSpace(s[i])
  }

  lemma {:induction false} TrimStartTakesSpaces(s: string) returns (before: string)
    ensures s == before + TrimStart(s) && AreSpaces(before)
    ensures TrimStart(s) == "" || !IsSpace(TrimStart(s)[0])
  {
    before := "";
    if s != "" && IsSpace(s[0]) {
      var rest := TrimStartTakesSpaces(s[1..]);
      before := [s[0]] + rest;
    }
  }

  lemma {:induction false} TrimEndTakesSpaces(s: string) returns (after: string)
    ensures s == TrimEnd(s) + after && AreSpaces(after)
    ensures TrimEnd(s) == "" || (TrimEnd(s)[0] == s[0] && !IsSpace(TrimEnd(s)[|TrimEnd(s)| - 1]))
  {
    after := "";
    if s != "" && IsSpace(s[|s| - 1]) {
      var rest := TrimEndTakesSpaces(s[..|s| - 1]);
      after := rest + [s[|s| - 1]];
    }
  }

  /** What is trimmed is white space, and what is left neither begins nor ends with any. */
  lemma TrimTakesSpaces(s: string) returns (before: string, after: string)
    ensures s == before + Trim(s) + after && AreSpaces(before) && AreSpaces(after)
    ensures Trim(s) == "" || (!IsSpace(Trim(s)[0]) && !IsSpace(Trim(s)[|Trim(s)| - 1]))
  {
    before := TrimStartTakesSpaces(s);
    after := TrimEndTakesSpaces(TrimStart(s));
  }

  lemma TrimKeeps(s: string)
    requires s == "" || (!IsSpace(s[0]) && !IsSpace(s[|s| - 1]))
    ensures Trim(s) == s
  {
  }

  predicate StartsWith(s: string, prefix: string) {
    |s| >= |prefix| && s[..|prefix|] == prefix
  }

  // ---------------------------------------------------------------------------------------------------------------
  // Splitting at one character
  // ---------------------------------------------------------------------------------------------------------------

  /** `split` with a one-character separator: never empty. */
  function Split(s: string, separator: char): (parts: seq<string>)
    ensures |parts| >= 1
  {
    if s == "" then [""]
    else
      var rest := Split(s[1..], separator);
      if s[0] == separator then [""] + rest else [[s[0]] + rest[0]] + rest[1..]
  }

  function Join(parts: seq<string>, separator: char): string
    requires parts != []
  {
    if |parts| == 1 then parts[0] else parts[0] + [separator] + Join(parts[1..], separator)
  }

  lemma {:induction false} SplitWithout(s: string, separator: char)
    requires separator !in s
    ensures Split(s, separator) == [s]
  {
    if s != "" {
      SplitWithout(s[1..], separator);
      assert [s[0]] + s[1..] == s;
    }
  }

  lemma {:induction false} SplitFirst(a: string, rest: string, separator: char)
    requires separator !in a
    ensures Split(a + [separator] + rest, separator) == [a] + Split(rest, separator)
    decreases |a|
  {
    var s := a + [separator] + rest;
    if a == "" {
      assert s == [separator] + rest && s[1..] == rest;
    } else {
      assert s[1..] == a[1..] + [separator] + rest;
      SplitFirst(a[1..], rest, separator);
      assert [a[0]] + a[1..] == a;
    }
  }

  /** Splitting undoes joining. */
  lemma {:induction false} SplitJoin(parts: seq<string>, separator: char)
    requires parts != [] && forall i :: 0 <= i < |parts| ==> separator !in parts[i]
    ensures Split(Join(parts, separator), separator) == parts
    decreases |parts|
  {
    if |parts| == 1 {
      SplitWithout(parts[0], separator);
    } else {
      SplitFirst(parts[0], Join(parts[1..], separator), separator);
      SplitJoin(parts[1..], separator);
    }
  }

  lemma {:induction false} JoinContains(parts: seq<string>, separator: char, c: char)
    requires parts != []
    ensures c in Join(parts, separator) ==>
      (|parts| > 1 && c == separator) || exists i :: 0 <= i < |parts| && c in parts[i]
    ensures |parts| > 1 ==> separator in Join(parts, separator)
    decreases |parts|
  {
    if |parts| > 1 {
      JoinContains(parts[1..], separator, c);
      if exists i :: 0 <= i < |parts[1..]| && c in parts[1..][i] {
        var i :| 0 <= i < |parts[1..]| && c in parts[1..][i];
        assert c in parts[i + 1];
      }
    }
  }

  // ---------------------------------------------------------------------------------------------------------------
  // Splitting at runs of white space
  // ---------------------------------------------------------------------------------------------------------------

  /** `split(/\s+/)`. */
  function SplitSpaces(s: string): (parts: seq<string>)
    ensures |parts| >= 1
    decreases |s|
  {
    if s == "" then [""]
    else if IsSpace(s[0]) then [""] + SplitSpaces(DropSpaces(s))
    else
      var rest := SplitSpaces(s[1..]);
      [[s[0]] + rest[0]] + rest[1..]
  }

  function DropSpaces(s: string): (r: string)
    requires s != "" && IsSpace(s[0])
    ensures |r| < |s| && (r == "" || !IsSpace(r[0]))
  {
    if |s| > 1 && IsSpace(s[1]) then DropSpaces(s[1..]) else s[1..]
  }

  predicate NoSpaces(s: string) {
    forall i :: 0 <= i < |s| ==> !IsSpace(s[i])
  }

  lemma {:induction false} SplitSpacesWithout(s: string)
    requires NoSpaces(s)
    ensures SplitSpaces(s) == [s]
  {
    if s != "" {
      SplitSpacesWithout(s[1..]);
      assert [s[0]] + s[1..] == s;
    }
  }

  lemma {:induction false} SplitSpacesFirst(a: string, rest: string)
    requires NoSpaces(a) && rest != "" && !IsSpace(rest[0])
    ensures SplitSpaces(a + " " + rest) == [a] + SplitSpaces(rest)
    decreases |a|
  {
    var s := a + " " + rest;
    if a == "" {
      assert s == " " + rest && s[1..] == rest;
    } else {
      assert s[1..] == a[1..] + " " + rest;
      SplitSpacesFirst(a[1..], rest);
      assert [a[0]] + a[1..] == a;
    }
  }

  predicate AreWords(parts: seq<string>) {
    parts != [] && forall i :: 0 <= i < |parts| ==> parts[i] != "" && NoSpaces(parts[i])
  }

  /** Words with a space between them are split into the words, and nothing is trimmed. */
  lemma {:induction false} SplitWords(parts: seq<string>)
    requires AreWords(parts)
    ensures SplitSpaces(Join(parts, ' ')) == parts && Trim(Join(parts, ' ')) == Join(parts, ' ')
    ensures Join(parts, ' ') != "" && !IsSpace(Join(parts, ' ')[0])
    ensures !IsSpace(Join(parts, ' ')[|Join(parts, ' ')| - 1])
    decreases |parts|
  {
    if |parts| == 1 {
      SplitSpacesWithout(parts[0]);
    } else {
      var rest := Join(parts[1..], ' ');
      SplitWords(parts[1..]);
      assert Join(parts, ' ') == parts[0] + " " + rest;
      SplitSpacesFirst(parts[0], rest);
    }
    TrimKeeps(Join(parts, ' '));
  }

  // ---------------------------------------------------------------------------------------------------------------
  // Decimal numbers
  // ---------------------------------------------------------------------------------------------------------------

  predicate IsDigit(c: char) {
    '0' <= c <= '9'
  }

  predicate AllDigits(s: string) {
    forall i :: 0 <= i < |s| ==> IsDigit(s[i])
  }

  function DigitValue(c: char): nat
    requires IsDigit(c)
  {
    c as int - '0' as int
  }

  function Digit(n: nat): (c: char)
    requires n < 10
    ensures IsDigit(c) && DigitValue(c) == n
  {
    ('0' as int + n) as char
  }

  function NumberOf(s: string): nat
    requires AllDigits(s)
  {
    if s == "" then 0 else NumberOf(s[..|s| - 1]) * 10 + DigitValue(s[|s| - 1])
  }

  /** `/^\d+$/` and `parseInt`. */
  function ParseInteger(s: string): Option<nat> {
    if s == "" || !AllDigits(s) then None else Some(NumberOf(s))
  }

  function Decimal(n: nat): (s: string)
    ensures s != "" && AllDigits(s)
  {
    if n < 10 then [Digit(n)] else Decimal(n / 10) + [Digit(n % 10)]
  }

  lemma {:induction false} ParseDecimal(n: nat)
    ensures ParseInteger(Decimal(n)) == Some(n)
  {
    if n >= 10 {
      ParseDecimal(n / 10);
      assert Decimal(n)[..|Decimal(n)| - 1] == Decimal(n / 10);
    } else {
      var s := Decimal(n);
      assert s[..|s| - 1] == "" && NumberOf(s[..|s| - 1]) == 0;
      assert NumberOf(s) == NumberOf(s[..|s| - 1]) * 10 + DigitValue(s[|s| - 1]);
    }
  }
}
