/**
 * Shell quoting of the remote retention command, which is read by two shells, one inside the other.
 *
 * The lexer follows sections 2.2.1, 2.2.2 and 2.3 of the POSIX.1-2017 Shell Command Language for what it accepts:
 * blanks separate words, a backslash quotes the next character, single quotes quote everything up to the next single
 * quote, and `;` is an operator. On any other character that is special outside single quotes it stops with `Special`.
 */
module ShellQuote {
  import opened Prelude
  import opened Text

  const QUOTE := '\''
  const BACKSLASH := '\\'
  const NEWLINE := '\n'

  // ---------------------------------------------------------------------------------------------------------------
  // Quoting and the command
  // ---------------------------------------------------------------------------------------------------------------

  /** `replace` of every single quote by a closing quote, a quoted quote and an opening quote. */
  function EscapeQuotes(value: string): string {
    if value == "" then ""
    else (if value[0] == QUOTE then [QUOTE, BACKSLASH, QUOTE, QUOTE] else [value[0]]) + EscapeQuotes(value[1..])
  }

  function ShellQuote(value: string): string {
    [QUOTE] + EscapeQuotes(value) + [QUOTE]
  }

  /** The script's commands after the assignment of `root`. */
  datatype Command = CheckRoot | ComputeCutoff | StartEntries | CollectEntries | DeleteOldEntries

  function CommandText(command: Command, retentionDays: nat): string {
    match command
    case CheckRoot => "[[ -d \"$root\" ]] || exit 0"
    case ComputeCutoff => "cutoff=$(date -u -d '" + Decimal(retentionDays) + " days ago' +%s)"
    case StartEntries => "entries=()"
    case CollectEntries =>
      "while IFS= read -r -d '' record; do entries+=(\"${record#* }\"); done < <(find \"$root\" -mindepth 1 "
      + "-maxdepth 1 -xdev -type d -printf '%T@ %p\\0' | sort -z -nr)"
    case DeleteOldEntries =>
      "for ((index=1; index<${#entries[@]}; index++)); do candidate=${entries[$index]}; mtime=$(stat -c %Y -- "
      + "\"$candidate\"); if (( mtime < cutoff )); then find \"$candidate\" -xdev -depth -delete; fi; done"
  }

  function JoinCommands(commands: seq<Command>, retentionDays: nat): string {
    if commands == [] then ""
    else if |commands| == 1 then CommandText(commands[0], retentionDays)
    else CommandText(commands[0], retentionDays) + "; " + JoinCommands(commands[1..], retentionDays)
  }

  const COMMANDS := [CheckRoot, ComputeCutoff, StartEntries, CollectEntries, DeleteOldEntries]

  function ScriptTail(retentionDays: nat): string {
    JoinCommands(COMMANDS, retentionDays)
  }

  /** The script's beginning, with any text after it. */
  function ScriptWith(storageLocation: string, tail: string): string {
    "set" + (" " + ("-euo" + (" " + ("pipefail" + (";" + (" " + ("root=" + (ShellQuote(storageLocation)
      + (";" + (" " + tail))))))))))
  }

  function Script(storageLocation: string, retentionDays: nat): string {
    ScriptWith(storageLocation, ScriptTail(retentionDays))
  }

  function BashCommand(script: string): string {
    "/usr/bin/bash" + (" " + ("-c" + (" " + ShellQuote(script))))
  }

  function BuildRemoteBackupRetentionCommand(storageLocation: string, retentionDays: int): Option<string> {
    if retentionDays <= 0 then None
    else Some(BashCommand(Script(storageLocation, retentionDays)))
  }

  // ---------------------------------------------------------------------------------------------------------------
  // The lexer
  // ---------------------------------------------------------------------------------------------------------------

  datatype Token = Word(text: string) | Semicolon

  datatype Reading =
    | End
    | Next(token: Token, rest: string)
    | Special(at: string)
    | Unterminated

  predicate IsBlank(c: char) {
    c == ' ' || c == '\t'
  }

  /** Characters that are neither blank nor part of a plain word. */
  predicate IsSpecial(c: char) {
    c == '|' || c == '&' || c == '<' || c == '>' || c == '(' || c == ')' || c == '$' || c == '`' || c == '"'
    || c == '\n'
    || c == '*' || c == '?' || c == '[' || c == '#' || c == '~'
  }

  /** Where a single-quoted string ends. */
  function QuotedEnd(s: string): (n: nat)
    ensures n <= |s|
  {
    if s == "" then 0 else if s[0] == QUOTE then 0 else 1 + QuotedEnd(s[1..])
  }

  /** Reads on in a word of which `sofar` has been read. */
  function ReadWord(s: string, sofar: string): Reading
    decreases |s|
  {
    if s == "" || IsBlank(s[0]) || s[0] == ';' then Next(Word(sofar), s)
    else if s[0] == QUOTE then
      var n := QuotedEnd(s[1..]);
      if n == |s[1..]| then Unterminated else ReadWord(s[1..][n + 1..], sofar + s[1..][..n])
    else if s[0] == BACKSLASH then
      if |s| == 1 then Unterminated
      else if s[1] == NEWLINE then ReadWord(s[2..], sofar)
      else ReadWord(s[2..], sofar + [s[1]])
    else if IsSpecial(s[0]) then Special(s)
    else ReadWord(s[1..], sofar + [s[0]])
  }

  /** The next token of a command line. */
  function NextToken(s: string): Reading
    decreases |s|
  {
    if s == "" then End
    else if IsBlank(s[0]) then NextToken(s[1..])
    else if s[0] == ';' then Next(Semicolon, s[1..])
    else ReadWord(s, "")
  }

  /** The first `count` tokens and what follows them; fewer when the line ends or stops being plain. */
  function Tokens(s: string, count: nat): (seq<Token>, string)
    decreases count
  {
    if count == 0 then ([], s)
    else
      var reading := NextToken(s);
      if !reading.Next? then ([], s)
      else
        var (tokens, rest) := Tokens(reading.rest, count - 1);
        ([reading.token] + tokens, rest)
  }

  /** All tokens of a line, or nothing if it is not plain. */
  function Lex(s: string, limit: nat): Option<seq<Token>>
    decreases limit
  {
    match NextToken(s)
    case End => Some([])
    case Next(token, rest) =>
      if limit == 0 then None
      else
        var tokens := Lex(rest, limit - 1);
        if tokens.None? then None else Some([token] + tokens.value)
    case Special(_) => None
    case Unterminated => None
  }

  // ---------------------------------------------------------------------------------------------------------------
  // Reading a quoted string
  // ---------------------------------------------------------------------------------------------------------------

  lemma {:induction false} QuotedEndOf(plain: string, rest: string)
    requires QUOTE !in plain && rest != "" && rest[0] == QUOTE
    ensures QuotedEnd(plain + rest) == |plain|
  {
    if plain == "" {
      assert plain + rest == rest;
    } else {
      assert (plain + rest)[1..] == plain[1..] + rest;
      QuotedEndOf(plain[1..], rest);
    }
  }

  /** The part of `value` before its first single quote. */
  function PlainPrefix(value: string): (n: nat)
    ensures n <= |value| && QUOTE !in value[..n] && (n < |value| ==> value[n] == QUOTE)
  {
    if value == "" || value[0] == QUOTE then 0
    else
      var n := PlainPrefix(value[1..]);
      assert value[..n + 1] == [value[0]] + value[1..][..n];
      n + 1
  }

  lemma {:induction false} EscapeAppend(a: string, b: string)
    ensures EscapeQuotes(a + b) == EscapeQuotes(a) + EscapeQuotes(b)
  {
    if a == "" {
      assert a + b == b;
    } else {
      assert (a + b)[1..] == a[1..] + b;
      EscapeAppend(a[1..], b);
    }
  }

  lemma {:induction false} EscapePlain(a: string)
    requires QUOTE !in a
    ensures EscapeQuotes(a) == a
  {
    if a != "" {
      EscapePlain(a[1..]);
      assert [a[0]] + a[1..] == a;
    }
  }

  lemma ReadPlainQuoted(plain: string, rest: string, sofar: string)
    requires QUOTE !in plain
    ensures ReadWord([QUOTE] + (plain + ([QUOTE] + rest)), sofar) == ReadWord(rest, sofar + plain)
  {
    var s := [QUOTE] + (plain + ([QUOTE] + rest));
    assert s[1..] == plain + ([QUOTE] + rest);
    QuotedEndOf(plain, [QUOTE] + rest);
    assert s[1..][..|plain|] == plain && s[1..][|plain| + 1..] == rest;
  }

  lemma ReadEscapedQuote(rest: string, sofar: string)
    ensures ReadWord([BACKSLASH, QUOTE] + rest, sofar) == ReadWord(rest, sofar + [QUOTE])
  {
    assert ([BACKSLASH, QUOTE] + rest)[2..] == rest;
  }

  lemma EscapeOneQuote()
    ensures EscapeQuotes([QUOTE]) == [QUOTE, BACKSLASH, QUOTE, QUOTE]
  {
    assert [QUOTE][1..] == "";
  }

  lemma QuotedPlain(plain: string)
    requires QUOTE !in plain
    ensures ShellQuote(plain) == [QUOTE] + (plain + [QUOTE])
  {
    EscapePlain(plain);
  }

  /** A quoted value is a quoted plain part, an escaped quote, and the rest quoted. */
  lemma QuotedShape(plain: string, tail: string)
    requires QUOTE !in plain
    ensures ShellQuote(plain + [QUOTE] + tail)
         == [QUOTE] + (plain + ([QUOTE] + ([BACKSLASH, QUOTE] + ShellQuote(tail))))
  {
    EscapePlain(plain);
    EscapeAppend(plain + [QUOTE], tail);
    EscapeAppend(plain, [QUOTE]);
    EscapeOneQuote();
    ShapeOfText(plain, EscapeQuotes(tail));
  }

  lemma ShapeOfText(p: string, e: string)
    ensures [QUOTE] + (p + [QUOTE, BACKSLASH, QUOTE, QUOTE] + e) + [QUOTE]
         == [QUOTE] + (p + ([QUOTE] + ([BACKSLASH, QUOTE] + ([QUOTE] + e + [QUOTE]))))
  {
    var tail := [QUOTE] + e + [QUOTE];
    assert [QUOTE, BACKSLASH, QUOTE, QUOTE] + (e + [QUOTE]) == [QUOTE] + ([BACKSLASH, QUOTE] + tail);
    assert p + [QUOTE, BACKSLASH, QUOTE, QUOTE] + e + [QUOTE] == p + ([QUOTE, BACKSLASH, QUOTE, QUOTE] + (e + [QUOTE]));
    assert [QUOTE] + (p + [QUOTE, BACKSLASH, QUOTE, QUOTE] + e) + [QUOTE]
        == [QUOTE] + (p + [QUOTE, BACKSLASH, QUOTE, QUOTE] + e + [QUOTE]);
  }

  lemma ReadQuotedPlain(value: string, rest: string, sofar: string)
    requires PlainPrefix(value) == |value|
    ensures ReadWord(ShellQuote(value) + rest, sofar) == ReadWord(rest, sofar + value)
  {
    assert value[..|value|] == value;
    QuotedPlain(value);
    assert ShellQuote(value) + rest == [QUOTE] + (value + ([QUOTE] + rest));
    ReadPlainQuoted(value, rest, sofar);
  }

  /** Up to the first quote, and then on with what follows it. */
  lemma ReadQuotedStart(plain: string, tail: string, rest: string, sofar: string)
    requires QUOTE !in plain
    ensures ReadWord(ShellQuote(plain + [QUOTE] + tail) + rest, sofar)
         == ReadWord(ShellQuote(tail) + rest, sofar + plain + [QUOTE])
  {
    QuotedShape(plain, tail);
    var later := [BACKSLASH, QUOTE] + (ShellQuote(tail) + rest);
    assert ShellQuote(plain + [QUOTE] + tail) + rest == [QUOTE] + (plain + ([QUOTE] + later));
    ReadPlainQuoted(plain, later, sofar);
    ReadEscapedQuote(ShellQuote(tail) + rest, sofar + plain);
  }

  /** In the middle of a word, a quoted string contributes exactly its value. */
  lemma {:induction false} ReadQuoted(value: string, rest: string, sofar: string)
    ensures ReadWord(ShellQuote(value) + rest, sofar) == ReadWord(rest, sofar + value)
    decreases |value|
  {
    var n := PlainPrefix(value);
    if n == |value| {
      ReadQuotedPlain(value, rest, sofar);
    } else {
      var plain, tail := value[..n], value[n + 1..];
      assert value == plain + [QUOTE] + tail;
      ReadQuotedStart(plain, tail, rest, sofar);
      ReadQuoted(tail, rest, sofar + plain + [QUOTE]);
      assert sofar + plain + [QUOTE] + tail == sofar + value;
    }
  }

  /** Outside quotes, harmless characters stand for themselves. */
  predicate IsPlainChar(c: char) {
    c != QUOTE && c != BACKSLASH && c != ';' && !IsBlank(c) && !IsSpecial(c)
  }

  lemma {:induction false} ReadPlain(plain: string, rest: string, sofar: string)
    requires forall i :: 0 <= i < |plain| ==> IsPlainChar(plain[i])
    ensures ReadWord(plain + rest, sofar) == ReadWord(rest, sofar + plain)
    decreases |plain|
  {
    if plain == "" {
      assert plain + rest == rest && sofar + plain == sofar;
    } else {
      assert (plain + rest)[1..] == plain[1..] + rest;
      ReadPlain(plain[1..], rest, sofar + [plain[0]]);
      assert sofar + [plain[0]] + plain[1..] == sofar + plain;
    }
  }

  // ---------------------------------------------------------------------------------------------------------------
  // Round trips
  // ---------------------------------------------------------------------------------------------------------------

  /** Arguments quoted one by one. */
  function QuoteAll(words: seq<string>): string {
    if words == [] then "" else ShellQuote(words[0]) + (if |words| == 1 then "" else " " + QuoteAll(words[1..]))
  }

  function WordsOf(words: seq<string>): seq<Token> {
    seq(|words|, i requires 0 <= i < |words| => Word(words[i]))
  }

  lemma QuotedToken(value: string, rest: string)
    requires rest == "" || IsBlank(rest[0]) || rest[0] == ';'
    ensures NextToken(ShellQuote(value) + rest) == Next(Word(value), rest)
    ensures NextToken(" " + (ShellQuote(value) + rest)) == Next(Word(value), rest)
  {
    ReadQuoted(value, rest, "");
    assert "" + value == value;
    assert (ShellQuote(value) + rest)[0] == QUOTE;
    assert (" " + (ShellQuote(value) + rest))[1..] == ShellQuote(value) + rest;
  }

  /** A shell takes the line for exactly these words. */
  predicate ReadsAs(line: string, words: seq<string>) {
    Lex(line, |words|) == Some(WordsOf(words))
  }

  lemma NothingIsRead()
    ensures ReadsAs("", [])
  {
    assert NextToken("") == End && WordsOf([]) == [];
  }

  lemma OneMoreWord(line: string, word: string, rest: string, words: seq<string>)
    requires NextToken(line) == Next(Word(word), rest) && ReadsAs(rest, words)
    ensures ReadsAs(line, [word] + words)
  {
    assert WordsOf([word] + words) == [Word(word)] + WordsOf(words);
  }

  lemma LeadingBlank(s: string, limit: nat)
    ensures Lex(" " + s, limit) == Lex(s, limit)
  {
    assert (" " + s)[1..] == s;
    assert NextToken(" " + s) == NextToken(s);
  }

  /** Whatever the arguments are, a shell reads a line of quoted arguments as exactly those arguments. */
  lemma {:induction false} LexUndoesQuoting(words: seq<string>)
    ensures ReadsAs(QuoteAll(words), words)
    decreases |words|
  {
    if words == [] {
      NothingIsRead();
    } else {
      LexUndoesQuoting(words[1..]);
      var rest := if |words| == 1 then "" else " " + QuoteAll(words[1..]);
      if |words| > 1 {
        LeadingBlank(QuoteAll(words[1..]), |words| - 1);
      }
      QuotedToken(words[0], rest);
      OneMoreWord(QuoteAll(words), words[0], rest, words[1..]);
      assert words == [words[0]] + words[1..];
    }
  }

  lemma PlainToken(word: string, rest: string)
    requires word != "" && forall i :: 0 <= i < |word| ==> IsPlainChar(word[i])
    requires rest == "" || IsBlank(rest[0]) || rest[0] == ';'
    ensures NextToken(word + rest) == Next(Word(word), rest)
    ensures NextToken(" " + (word + rest)) == Next(Word(word), rest)
  {
    ReadPlain(word, rest, "");
    assert (word + rest)[0] == word[0] && "" + word == word;
    assert (" " + (word + rest))[1..] == word + rest;
  }

  lemma BashCommandIsRead(script: string)
    ensures ReadsAs(BashCommand(script), ["/usr/bin/bash", "-c", script])
  {
    var third := " " + ShellQuote(script);
    var second := " " + ("-c" + third);
    PlainToken("/usr/bin/bash", second);
    PlainToken("-c", third);
    assert ShellQuote(script) + "" == ShellQuote(script);
    QuotedToken(script, "");
    NothingIsRead();
    OneMoreWord(third, script, "", []);
    OneMoreWord(second, "-c", third, [script] + []);
    OneMoreWord(BashCommand(script), "/usr/bin/bash", second, ["-c"] + ([script] + []));
    assert ["/usr/bin/bash"] + (["-c"] + ([script] + [])) == ["/usr/bin/bash", "-c", script];
  }

  /** The login shell passes bash exactly two arguments, the second of them the script. */
  lemma OuterShellReadsTheScript(storageLocation: string, retentionDays: int)
    ensures match BuildRemoteBackupRetentionCommand(storageLocation, retentionDays)
      case None => retentionDays <= 0
      case Some(command) =>
        retentionDays > 0 && ReadsAs(command, ["/usr/bin/bash", "-c", Script(storageLocation, retentionDays)])
  {
    if retentionDays > 0 {
      BashCommandIsRead(Script(storageLocation, retentionDays));
    }
  }

  /** The line begins with these tokens, and `rest` follows them. */
  predicate BeginsWith(line: string, tokens: seq<Token>, rest: string) {
    Tokens(line, |tokens|) == (tokens, rest)
  }

  lemma OneMoreToken(line: string, token: Token, after: string, tokens: seq<Token>, rest: string)
    requires NextToken(line) == Next(token, after) && BeginsWith(after, tokens, rest)
    ensures BeginsWith(line, [token] + tokens, rest)
  {
  }

  lemma SemicolonToken(rest: string)
    ensures NextToken(";" + rest) == Next(Semicolon, rest)
  {
    assert (";" + rest)[1..] == rest;
  }

  lemma AssignmentIsPlain()
    ensures forall i :: 0 <= i < 5 ==> IsPlainChar("root="[i])
  {
    assert "root=" == ['r', 'o', 'o', 't', '='];
  }

  lemma AssignmentToken(value: string, rest: string)
    requires rest == "" || IsBlank(rest[0]) || rest[0] == ';'
    ensures NextToken(" " + ("root=" + (ShellQuote(value) + rest))) == Next(Word("root=" + value), rest)
  {
    var s := "root=" + (ShellQuote(value) + rest);
    AssignmentIsPlain();
    ReadPlain("root=", ShellQuote(value) + rest, "");
    ReadQuoted(value, rest, "root=");
    assert "" + "root=" == "root=" && (" " + s)[1..] == s && s[0] == 'r';
  }

  function AssignmentTokens(storageLocation: string): seq<Token> {
    [Word("set")] + ([Word("-euo")] + ([Word("pipefail")] + ([Semicolon]
      + ([Word("root=" + storageLocation)] + ([Semicolon] + [])))))
  }

  /** Whatever follows, bash assigns `root` exactly the storage location. */
  lemma ScriptIsRead(storageLocation: string, tail: string)
    ensures BeginsWith(ScriptWith(storageLocation, tail), AssignmentTokens(storageLocation), " " + tail)
  {
    var root := Word("root=" + storageLocation);
    var s6 := " " + tail;
    var s5 := ";" + s6;
    var s4 := " " + ("root=" + (ShellQuote(storageLocation) + s5));
    var s3 := ";" + s4;
    SemicolonToken(s6);
    AssignmentToken(storageLocation, s5);
    SemicolonToken(s4);
    OneMoreToken(s5, Semicolon, s6, [], s6);
    OneMoreToken(s4, root, s5, [Semicolon] + [], s6);
    OneMoreToken(s3, Semicolon, s4, [root] + ([Semicolon] + []), s6);
    PrologueIsRead(s3, [Semicolon] + ([root] + ([Semicolon] + [])), s6);
  }

  /** One plain word more in front of what is read. */
  lemma OneMorePlainWord(word: string, after: string, tokens: seq<Token>, rest: string)
    requires word != "" && forall i :: 0 <= i < |word| ==> IsPlainChar(word[i])
    requires after != "" && (IsBlank(after[0]) || after[0] == ';') && BeginsWith(after, tokens, rest)
    ensures BeginsWith(word + after, [Word(word)] + tokens, rest)
    ensures BeginsWith(" " + (word + after), [Word(word)] + tokens, rest)
  {
    PlainToken(word, after);
    OneMoreToken(word + after, Word(word), after, tokens, rest);
    OneMoreToken(" " + (word + after), Word(word), after, tokens, rest);
  }

  lemma PrologueIsPlain()
    ensures forall i :: 0 <= i < 3 ==> IsPlainChar("set"[i])
    ensures forall i :: 0 <= i < 4 ==> IsPlainChar("-euo"[i])
    ensures forall i :: 0 <= i < 8 ==> IsPlainChar("pipefail"[i])
  {
    assert "set" == ['s', 'e', 't'] && "-euo" == ['-', 'e', 'u', 'o'];
    assert "pipefail" == ['p', 'i', 'p', 'e', 'f', 'a', 'i', 'l'];
  }

  lemma PrologueIsRead(s3: string, tokens: seq<Token>, rest: string)
    requires BeginsWith(s3, tokens, rest) && s3 != "" && s3[0] == ';'
    ensures BeginsWith("set" + (" " + ("-euo" + (" " + ("pipefail" + s3)))),
                       [Word("set")] + ([Word("-euo")] + ([Word("pipefail")] + tokens)), rest)
  {
    var s2 := " " + ("pipefail" + s3);
    PrologueIsPlain();
    OneMorePlainWord("pipefail", s3, tokens, rest);
    OneMorePlainWord("-euo", s2, [Word("pipefail")] + tokens, rest);
    OneMorePlainWord("set", " " + ("-euo" + s2), [Word("-euo")] + ([Word("pipefail")] + tokens), rest);
  }

  /** Bash in turn assigns `root` exactly the storage location, and the rest of the script does not depend on it. */
  lemma InnerShellAssignsTheLocation(storageLocation: string, retentionDays: nat)
    ensures BeginsWith(Script(storageLocation, retentionDays), AssignmentTokens(storageLocation),
                       " " + ScriptTail(retentionDays))
  {
    ScriptIsRead(storageLocation, ScriptTail(retentionDays));
  }
  /**
   * The rest of the script: it ends without a root, computes the cutoff from a number that reads as the retention days,
   * lists the directories newest first, and deletes the older ones from the second on.
   */
  lemma ScriptInFull(retentionDays: nat) returns (days: string)
    ensures ParseInteger(days) == Some(retentionDays)
    ensures ScriptTail(retentionDays) ==
      "[[ -d \"$root\" ]] || exit 0" + "; "
      + ("cutoff=$(date -u -d '" + days + " days ago' +%s)" + "; "
         + ("entries=()" + "; "
            + (CommandText(CollectEntries, retentionDays) + "; " + CommandText(DeleteOldEntries, retentionDays))))
    ensures CommandText(CollectEntries, retentionDays) ==
      "while IFS= read -r -d '' record; do entries+=(\"${record#* }\"); done < <(find \"$root\" -mindepth 1 "
      + "-maxdepth 1 -xdev -type d -printf '%T@ %p\\0' | sort -z -nr)"
    ensures CommandText(DeleteOldEntries, retentionDays) ==
      "for ((index=1; index<${#entries[@]}; index++)); do candidate=${entries[$index]}; mtime=$(stat -c %Y -- "
      + "\"$candidate\"); if (( mtime < cutoff )); then find \"$candidate\" -xdev -depth -delete; fi; done"
  {
    days := Decimal(retentionDays);
    ParseDecimal(retentionDays);
    JoinOfFive(retentionDays);
  }

  lemma JoinOfFive(retentionDays: nat)
    ensures ScriptTail(retentionDays) ==
      CommandText(CheckRoot, retentionDays) + "; "
      + (CommandText(ComputeCutoff, retentionDays) + "; "
         + (CommandText(StartEntries, retentionDays) + "; "
            + (CommandText(CollectEntries, retentionDays) + "; " + CommandText(DeleteOldEntries, retentionDays))))
  {
    JoinFirst(CheckRoot, [ComputeCutoff, StartEntries, CollectEntries, DeleteOldEntries], retentionDays);
    JoinFirst(ComputeCutoff, [StartEntries, CollectEntries, DeleteOldEntries], retentionDays);
    JoinFirst(StartEntries, [CollectEntries, DeleteOldEntries], retentionDays);
    JoinFirst(CollectEntries, [DeleteOldEntries], retentionDays);
    assert COMMANDS == [CheckRoot] + [ComputeCutoff, StartEntries, CollectEntries, DeleteOldEntries];
    assert [ComputeCutoff, StartEntries, CollectEntries, DeleteOldEntries]
        == [ComputeCutoff] + [StartEntries, CollectEntries, DeleteOldEntries];
    assert [StartEntries, CollectEntries, DeleteOldEntries] == [StartEntries] + [CollectEntries, DeleteOldEntries];
    assert [CollectEntries, DeleteOldEntries] == [CollectEntries] + [DeleteOldEntries];
  }

  lemma JoinFirst(first: Command, rest: seq<Command>, retentionDays: nat)
    requires rest != []
    ensures JoinCommands([first] + rest, retentionDays) ==
      CommandText(first, retentionDays) + "; " + JoinCommands(rest, retentionDays)
  {
    assert ([first] + rest)[1..] == rest;
  }
}
