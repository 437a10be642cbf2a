/**
 * Unescaping of file system table tokens: four global replacements, one after the other.
 *
 * The theorem compares them with one left-to-right pass that never looks at its own output.
 */
module Fstab {
  import opened Prelude
  import opened Text

  /** The codes of a space, a tab, a newline and a backslash. */
  const SPACE := "\\040"
  const TAB := "\\011"
  const NEWLINE := "\\012"
  const BACKSLASH := "\\134"

  /** `replace` of a four-character code everywhere, from the left. */
  function ReplaceAll(s: string, code: string, c: char): string
    requires |code| == 4
  {
    if s == "" then ""
    else if StartsWith(s, code) then [c] + ReplaceAll(s[4..], code, c)
    else [s[0]] + ReplaceAll(s[1..], code, c)
  }

  function DecodeFstabToken(value: string): string {
    ReplaceAll(ReplaceAll(ReplaceAll(ReplaceAll(value, SPACE, ' '), TAB, '\t'), NEWLINE, '\n'), BACKSLASH, '\\')
  }

  /** The character that a string starts with in coded form. */
  function Decoded(s: string): (c: Option<char>)
    ensures c.Some? ==> |s| >= 4
  {
    if StartsWith(s, SPACE) then Some(' ')
    else if StartsWith(s, TAB) then Some('\t')
    else if StartsWith(s, NEWLINE) then Some('\n')
    else if StartsWith(s, BACKSLASH) then Some('\\')
    else None
  }

  /** One pass from the left. */
  function DecodeOnce(s: string): string {
    if s == "" then ""
    else if Decoded(s).Some? then [Decoded(s).value] + DecodeOnce(s[4..])
    else [s[0]] + DecodeOnce(s[1..])
  }

  function Escaped(c: char): string {
    if c == ' ' then SPACE
    else if c == '\t' then TAB
    else if c == '\n' then NEWLINE
    else if c == '\\' then BACKSLASH
    else [c]
  }

  function Escape(s: string): string {
    if s == "" then "" else Escaped(s[0]) + Escape(s[1..])
  }

  // ---------------------------------------------------------------------------------------------------------------
  // One replacement
  // ---------------------------------------------------------------------------------------------------------------

  /** A backslash and three more characters that are not. */
  predicate IsCode(code: string) {
    |code| == 4 && code[0] == '\\' && code[1] != '\\' && code[2] != '\\' && code[3] != '\\'
  }

  lemma SkipsOtherCodes(s: string, code: string, c: char, other: string)
    requires IsCode(code) && IsCode(other) && code != other && StartsWith(s, other)
    ensures ReplaceAll(s, code, c) == other + ReplaceAll(s[4..], code, c)
  {
    var s1, s2, s3 := s[1..], s[2..], s[3..];
    assert s1[0] == other[1] && s2[0] == other[2] && s3[0] == other[3];
    assert ReplaceAll(s1, code, c) == [other[1]] + ReplaceAll(s2, code, c);
    assert ReplaceAll(s2, code, c) == [other[2]] + ReplaceAll(s3, code, c);
    assert ReplaceAll(s3, code, c) == [other[3]] + ReplaceAll(s[4..], code, c);
    assert other == [other[0]] + [other[1]] + [other[2]] + [other[3]];
  }

  /** The replacement keeps the digits in front, and puts none there. */
  lemma {:induction false} KeepsDigits(s: string, code: string, c: char, digits: string)
    requires IsCode(code) && !IsDigit(c)
    requires forall i :: 0 <= i < |digits| ==> IsDigit(digits[i])
    ensures StartsWith(ReplaceAll(s, code, c), digits) <==> StartsWith(s, digits)
    decreases |digits|
  {
    if digits != "" && s != "" && s[0] == digits[0] {
      KeepsDigits(s[1..], code, c, digits[1..]);
      assert ReplaceAll(s, code, c) == [s[0]] + ReplaceAll(s[1..], code, c);
      assert digits == [digits[0]] + digits[1..];
      StartsWithSplit(s, digits);
      StartsWithSplit(ReplaceAll(s, code, c), digits);
    }
  }

  lemma StartsWithSplit(s: string, prefix: string)
    requires s != "" && prefix != ""
    ensures StartsWith(s, prefix) <==> s[0] == prefix[0] && StartsWith(s[1..], prefix[1..])
  {
    if s[0] == prefix[0] && StartsWith(s[1..], prefix[1..]) {
      assert s[..|prefix|] == [s[0]] + s[1..][..|prefix| - 1];
    }
  }

  /** Away from its own code, the replacement does not change which code a string starts with. */
  lemma KeepsOtherStarts(s: string, code: string, c: char, other: string)
    requires IsCode(code) && IsCode(other) && !IsDigit(c) && c != '\\' && !StartsWith(s, code)
    requires forall i :: 1 <= i < 4 ==> IsDigit(other[i])
    ensures StartsWith(ReplaceAll(s, code, c), other) <==> StartsWith(s, other)
  {
    if s != "" {
      var r := ReplaceAll(s, code, c);
      StartsWithSplit(s, other);
      StartsWithSplit(r, other);
      assert r[1..] == ReplaceAll(s[1..], code, c);
      KeepsDigits(s[1..], code, c, other[1..]);
    }
  }

  // ---------------------------------------------------------------------------------------------------------------
  // Four replacements
  // ---------------------------------------------------------------------------------------------------------------

  lemma TheseAreCodes()
    ensures IsCode(SPACE) && IsCode(TAB) && IsCode(NEWLINE) && IsCode(BACKSLASH)
    ensures forall i :: 1 <= i < 4 ==> IsDigit(SPACE[i]) && IsDigit(TAB[i])
    ensures forall i :: 1 <= i < 4 ==> IsDigit(NEWLINE[i]) && IsDigit(BACKSLASH[i])
    ensures SPACE != TAB && SPACE != NEWLINE && SPACE != BACKSLASH && TAB != NEWLINE && TAB != BACKSLASH
         && NEWLINE != BACKSLASH
  {
    assert SPACE[2] == '4' && TAB[2] == '1' && TAB[3] == '1' && NEWLINE[3] == '2' && BACKSLASH[1] == '1';
  }

  /** Without a code in front, every replacement keeps the first character. */
  lemma PlainStep(s: string)
    requires s != "" && Decoded(s).None?
    ensures DecodeFstabToken(s) == [s[0]] + DecodeFstabToken(s[1..])
  {
    TheseAreCodes();
    var a := ReplaceAll(s, SPACE, ' ');
    var b := ReplaceAll(a, TAB, '\t');
    var d := ReplaceAll(b, NEWLINE, '\n');
    KeepsOtherStarts(s, SPACE, ' ', TAB);
    KeepsOtherStarts(s, SPACE, ' ', NEWLINE);
    KeepsOtherStarts(s, SPACE, ' ', BACKSLASH);
    KeepsOtherStarts(a, TAB, '\t', NEWLINE);
    KeepsOtherStarts(a, TAB, '\t', BACKSLASH);
    KeepsOtherStarts(b, NEWLINE, '\n', BACKSLASH);
    assert a[1..] == ReplaceAll(s[1..], SPACE, ' ') && b[1..] == ReplaceAll(a[1..], TAB, '\t');
    assert d[1..] == ReplaceAll(b[1..], NEWLINE, '\n');
  }

  /** A replacement of another code passes a character that is no backslash. */
  lemma PassesPlain(c: char, s: string, code: string, d: char)
    requires IsCode(code) && c != '\\'
    ensures ReplaceAll([c] + s, code, d) == [c] + ReplaceAll(s, code, d)
  {
    assert ([c] + s)[0] != code[0] && ([c] + s)[1..] == s;
  }

  /** A code in front is replaced by its own replacement and left alone by the others. */
  lemma CodeStep(s: string)
    requires Decoded(s).Some?
    ensures DecodeFstabToken(s) == [Decoded(s).value] + DecodeFstabToken(s[4..])
  {
    TheseAreCodes();
    var s4 := s[4..];
    var a4 := ReplaceAll(s4, SPACE, ' ');
    var b4 := ReplaceAll(a4, TAB, '\t');
    var d4 := ReplaceAll(b4, NEWLINE, '\n');
    if StartsWith(s, SPACE) {
      PassesPlain(' ', a4, TAB, '\t');
      PassesPlain(' ', b4, NEWLINE, '\n');
      PassesPlain(' ', d4, BACKSLASH, '\\');
    } else {
      var code := s[..4];
      SkipsOtherCodes(s, SPACE, ' ', code);
      assert (code + a4)[4..] == a4;
      if StartsWith(s, TAB) {
        PassesPlain('\t', b4, NEWLINE, '\n');
        PassesPlain('\t', d4, BACKSLASH, '\\');
      } else {
        SkipsOtherCodes(code + a4, TAB, '\t', code);
        assert (code + b4)[4..] == b4;
        if StartsWith(s, NEWLINE) {
          PassesPlain('\n', d4, BACKSLASH, '\\');
        } else {
          SkipsOtherCodes(code + b4, NEWLINE, '\n', code);
          assert (code + d4)[4..] == d4;
        }
      }
    }
  }

  /** On every string the four replacements are one pass from the left. */
  lemma {:induction false} FourPassesAreOne(s: string)
    ensures DecodeFstabToken(s) == DecodeOnce(s)
    decreases |s|
  {
    if s == "" {
    } else if Decoded(s).None? {
      PlainStep(s);
      FourPassesAreOne(s[1..]);
    } else {
      CodeStep(s);
      FourPassesAreOne(s[4..]);
    }
  }

  /** The four codes, in plain text: what each stands for. */
  lemma CodesInPlainText(rest: string)
    ensures DecodeFstabToken("\\040" + rest) == " " + DecodeFstabToken(rest)
    ensures DecodeFstabToken("\\011" + rest) == "\t" + DecodeFstabToken(rest)
    ensures DecodeFstabToken("\\012" + rest) == "\n" + DecodeFstabToken(rest)
    ensures DecodeFstabToken("\\134" + rest) == "\\" + DecodeFstabToken(rest)
  {
    CodeInFront("\\040", ' ', rest);
    CodeInFront("\\011", '\t', rest);
    CodeInFront("\\012", '\n', rest);
    CodeInFront("\\134", '\\', rest);
  }

  lemma CodeInFront(code: string, c: char, rest: string)
    requires |code| == 4 && Decoded(code + rest) == Some(c)
    ensures DecodeFstabToken(code + rest) == [c] + DecodeFstabToken(rest)
  {
    CodeStep(code + rest);
    assert (code + rest)[4..] == rest;
  }

  // ---------------------------------------------------------------------------------------------------------------
  // Round trip
  // ---------------------------------------------------------------------------------------------------------------

  lemma EscapedIsDecoded(c: char, rest: string)
    requires Escaped(c) != [c]
    ensures |Escaped(c)| == 4 && Decoded(Escaped(c) + rest) == Some(c)
  {
    TheseAreCodes();
    var s := Escaped(c) + rest;
    assert s[..4] == Escaped(c);
  }

  lemma DecodeEscapedCharacter(c: char, rest: string)
    ensures DecodeOnce(Escaped(c) + rest) == [c] + DecodeOnce(rest)
  {
    var s := Escaped(c) + rest;
    if Escaped(c) == [c] {
      PlainIsNotDecoded(c, rest);
      assert s[0] == c && s[1..] == rest;
    } else {
      EscapedIsDecoded(c, rest);
      assert s[4..] == rest;
    }
  }

  lemma PlainIsNotDecoded(c: char, rest: string)
    requires c != '\\'
    ensures Decoded([c] + rest).None?
  {
    TheseAreCodes();
    assert ([c] + rest)[0] == c;
  }

  /** Decoding undoes escaping, for every string. */
  lemma {:induction false} DecodeUndoesEscape(s: string)
    ensures DecodeFstabToken(Escape(s)) == s
  {
    if s == "" {
      assert DecodeFstabToken("") == "";
    } else {
      DecodeUndoesEscape(s[1..]);
      FourPassesAreOne(Escape(s[1..]));
      FourPassesAreOne(Escape(s));
      DecodeEscapedCharacter(s[0], Escape(s[1..]));
      assert [s[0]] + s[1..] == s;
    }
  }

  /** Why the backslash comes last: an escaped `\040` would otherwise decode to a space. */
  lemma BackslashFirstIsWrong()
    ensures Escape(SPACE) == "\\134040" && DecodeFstabToken(Escape(SPACE)) == SPACE
    ensures ReplaceAll(ReplaceAll(Escape(SPACE), BACKSLASH, '\\'), SPACE, ' ') == " "
  {
    assert SPACE == ['\\', '0', '4', '0'];
    assert Escape(['0', '4', '0']) == ['0', '4', '0'] by {
      assert Escape(['4', '0']) == ['4', '0'] by {
        assert Escape(['0']) == ['0'];
      }
    }
    assert Escape(SPACE) == BACKSLASH + ['0', '4', '0'];
    DecodeUndoesEscape(SPACE);
    var s := Escape(SPACE);
    assert s[..4] == BACKSLASH && s[4..] == ['0', '4', '0'];
    assert ReplaceAll(['0', '4', '0'], BACKSLASH, '\\') == ['0', '4', '0'];
    assert ReplaceAll(s, BACKSLASH, '\\') == SPACE;
    assert SPACE[4..] == "";
  }
}
