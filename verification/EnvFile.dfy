/**
 * The environment file of a sandbox: its printer and its parser.
 *
 * Which pairs survive a round trip is settled by one predicate: everything the parser returns satisfies it, and
 * everything that satisfies it comes back.
 */
module EnvFile {
  import opened Prelude
  import opened Text

  type Pair = (string, string)

  // ---------------------------------------------------------------------------------------------------------------
  // The parser
  // ---------------------------------------------------------------------------------------------------------------

  /** `indexOf`. */
  function IndexOf(s: string, c: char): (i: int)
    ensures -1 <= i < |s|
    ensures i >= 0 ==> s[i] == c && c !in s[..i]
    ensures i < 0 ==> c !in s
  {
    if s == "" then -1
    else if s[0] == c then 0
    else
      var rest := IndexOf(s[1..], c);
      assert rest >= 0 ==> s[..rest + 1] == [s[0]] + s[1..][..rest];
      if rest < 0 then -1 else rest + 1
  }

  function Chomp(s: string): string {
    if s != "" && s[|s| - 1] == '\r' then s[..|s| - 1] else s
  }

  /** `split(/\r?\n/)`: every piece but the last may lose one carriage return. */
  function SplitLines(content: string): (lines: seq<string>) {
    var pieces := Split(content, '\n');
    seq(|pieces|, i requires 0 <= i < |pieces| => if i < |pieces| - 1 then Chomp(pieces[i]) else pieces[i])
  }

  function ParseLine(line: string): Option<Pair> {
    var trimmed := Trim(line);
    if trimmed == "" || trimmed[0] == '#' then None
    else
      var separator := IndexOf(trimmed, '=');
      if separator <= 0 then None else Some((trimmed[..separator], trimmed[separator + 1..]))
  }

  /** Later lines win. */
  function ParseLines(lines: seq<string>): map<string, string> {
    if lines == [] then map[]
    else
      var before := ParseLines(lines[..|lines| - 1]);
      match ParseLine(lines[|lines| - 1])
      case None => before
      case Some(pair) => before[pair.0 := pair.1]
  }

  method ParseEnvFile(content: string) returns (entries: map<string, string>)
    ensures entries == ParseLines(SplitLines(content))
  {
    entries := map[];
    var lines := SplitLines(content);
    for i := 0 to |lines|
      invariant entries == ParseLines(lines[..i])
    {
      assert lines[..i + 1][..i] == lines[..i];
      var trimmed := Trim(lines[i]);
      if trimmed == "" || trimmed[0] == '#' {
        continue;
      }
      var separator := IndexOf(trimmed, '=');
      if separator <= 0 {
        continue;
      }
      var key, value := trimmed[..separator], trimmed[separator + 1..];
      entries := entries[key := value];
    }
    assert lines[..|lines|] == lines;
  }

  // ---------------------------------------------------------------------------------------------------------------
  // The printer
  // ---------------------------------------------------------------------------------------------------------------

  function PrintPair(pair: Pair): string {
    pair.0 + "=" + pair.1
  }

  function PrintPairs(pairs: seq<Pair>): (lines: seq<string>)
    ensures |lines| == |pairs| && forall i :: 0 <= i < |pairs| ==> lines[i] == PrintPair(pairs[i])
  {
    seq(|pairs|, i requires 0 <= i < |pairs| => PrintPair(pairs[i]))
  }

  function PrintEnvFile(pairs: seq<Pair>): string {
    (if pairs == [] then "" else Join(PrintPairs(pairs), '\n')) + "\n"
  }

  datatype CandidateConfig = CandidateConfig(environment: string, version: string, host: string, port: nat,
                                             origin: string)

  function EnvPairs(config: CandidateConfig): seq<Pair> {
    [ ("NODE_ENV", config.environment),
      ("SIMPLEHOST_VERSION", config.version),
      ("SIMPLEHOST_WEB_HOST", config.host),
      ("SIMPLEHOST_WEB_PORT", Decimal(config.port)),
      ("SIMPLEHOST_CONTROL_RUNTIME_MODE", "combined"),
      ("SIMPLEHOST_CONTROL_SANDBOX_MODE", "release-sandbox"),
      ("SIMPLEHOST_CONTROL_SANDBOX_ORIGIN", config.origin) ]
  }

  function ToEnvFileContent(config: CandidateConfig): string {
    PrintEnvFile(EnvPairs(config))
  }

  // ---------------------------------------------------------------------------------------------------------------
  // Pairs that survive
  // ---------------------------------------------------------------------------------------------------------------

  ghost predicate IsKey(key: string) {
    key != "" && '=' !in key && '\n' !in key && key[0] != '#' && !IsSpace(key[0])
  }

  ghost predicate IsValue(value: string) {
    '\n' !in value && (value == "" || !IsSpace(value[|value| - 1]))
  }

  ghost predicate Survives(pair: Pair) {
    IsKey(pair.0) && IsValue(pair.1)
  }

  lemma {:induction false} SplitPieces(s: string, separator: char, i: nat)
    requires i < |Split(s, separator)|
    ensures separator !in Split(s, separator)[i]
  {
    if s != "" {
      var rest := Split(s[1..], separator);
      SplitPieces(s[1..], separator, 0);
      if i > 0 {
        SplitPieces(s[1..], separator, if s[0] == separator then i - 1 else i);
      }
    }
  }

  lemma LinesHaveNoBreaks(content: string, i: nat)
    requires i < |SplitLines(content)|
    ensures '\n' !in SplitLines(content)[i]
  {
    SplitPieces(content, '\n', i);
  }

  lemma TrimTrims(s: string, c: char)
    ensures c in Trim(s) ==> c in s
    ensures Trim(s) == "" || (!IsSpace(Trim(s)[0]) && !IsSpace(Trim(s)[|Trim(s)| - 1]))
  {
    var before, after := TrimTakesSpaces(s);
  }

  lemma ParsedPairSurvives(line: string)
    requires '\n' !in line && ParseLine(line).Some?
    ensures Survives(ParseLine(line).value)
  {
    TrimTrims(line, '\n');
  }

  /** What is read from a line: the trimmed line is the key, the first `=` and the value, and no comment. */
  lemma LineIsReadExactly(line: string, key: string, value: string)
    ensures ParseLine(line) == Some((key, value)) <==>
      Trim(line) == key + "=" + value && '=' !in key && key != "" && key[0] != '#'
  {
    var trimmed := Trim(line);
    if trimmed == key + "=" + value && '=' !in key && key != "" {
      FirstSeparator(key, value);
      assert trimmed[0] == key[0] && trimmed[..|key|] == key && trimmed[|key| + 1..] == value;
    }
  }

  ghost predicate Gives(line: string, key: string, value: string) {
    ParseLine(line) == Some((key, value))
  }

  ghost predicate Mentions(line: string, key: string) {
    ParseLine(line).Some? && ParseLine(line).value.0 == key
  }

  /** Line `i` is the last with this key. */
  ghost predicate IsLast(lines: seq<string>, key: string, i: nat) {
    i < |lines| && Mentions(lines[i], key) && forall j :: i < j < |lines| ==> !Mentions(lines[j], key)
  }

  /** The file gives a key the value of the last line that has the key, and knows no other keys. */
  lemma {:induction false} LastLineWins(lines: seq<string>, key: string)
    ensures key in ParseLines(lines) <==> exists i: nat :: IsLast(lines, key, i)
    ensures forall i: nat :: IsLast(lines, key, i) ==> Gives(lines[i], key, ParseLines(lines)[key])
  {
    if lines != [] {
      var n := |lines| - 1;
      LastLineWins(lines[..n], key);
      if Mentions(lines[n], key) {
        assert IsLast(lines, key, n);
      } else {
        forall i: nat ensures IsLast(lines, key, i) <==> IsLast(lines[..n], key, i) {
          assert i < n ==> lines[..n][i] == lines[i];
          assert forall j :: i < j < n ==> lines[..n][j] == lines[j];
        }
      }
    }
  }

  /** Whatever the content, everything that is parsed from it would survive being printed. */
  lemma {:induction false} ParsedEntriesSurvive(lines: seq<string>, key: string)
    requires forall i :: 0 <= i < |lines| ==> '\n' !in lines[i]
    requires key in ParseLines(lines)
    ensures Survives((key, ParseLines(lines)[key]))
  {
    if lines != [] {
      var n := |lines| - 1;
      var last := ParseLine(lines[n]);
      if last.Some? {
        ParsedPairSurvives(lines[n]);
      }
      if last.None? || key != last.value.0 {
        ParsedEntriesSurvive(lines[..n], key);
      }
    }
  }

  // ---------------------------------------------------------------------------------------------------------------
  // Round trip
  // ---------------------------------------------------------------------------------------------------------------

  /** The pairs as a map; later pairs win. */
  function MapOf(pairs: seq<Pair>): map<string, string> {
    if pairs == [] then map[] else MapOf(pairs[..|pairs| - 1])[pairs[|pairs| - 1].0 := pairs[|pairs| - 1].1]
  }

  lemma {:induction false} FirstSeparator(key: string, value: string)
    requires '=' !in key
    ensures IndexOf(key + "=" + value, '=') == |key|
  {
    if key != "" {
      FirstSeparator(key[1..], value);
      assert (key + "=" + value)[1..] == key[1..] + "=" + value;
    }
  }

  lemma ParsePrintedPair(pair: Pair)
    requires Survives(pair)
    ensures ParseLine(PrintPair(pair)) == Some(pair) && Chomp(PrintPair(pair)) == PrintPair(pair)
    ensures '\n' !in PrintPair(pair)
  {
    var line := PrintPair(pair);
    assert line[0] == pair.0[0];
    assert line[|line| - 1] == if pair.1 == "" then '=' else pair.1[|pair.1| - 1];
    TrimKeeps(line);
    FirstSeparator(pair.0, pair.1);
    assert line[..|pair.0|] == pair.0 && line[|pair.0| + 1..] == pair.1;
  }

  lemma {:induction false} JoinWithEmpty(parts: seq<string>, separator: char)
    requires parts != []
    ensures Join(parts + [""], separator) == Join(parts, separator) + [separator]
  {
    if |parts| == 1 {
      assert (parts + [""])[1..] == [""];
      assert Join([""], separator) == "";
    } else {
      JoinWithEmpty(parts[1..], separator);
      assert (parts + [""])[1..] == parts[1..] + [""];
      assert parts[0] + [separator] + (Join(parts[1..], separator) + [separator])
          == parts[0] + [separator] + Join(parts[1..], separator) + [separator];
    }
  }

  /** A printed file splits into its pairs and an empty last line. */
  lemma PrintedFileSplits(pairs: seq<Pair>)
    requires pairs != [] && forall i :: 0 <= i < |pairs| ==> Survives(pairs[i])
    ensures SplitLines(PrintEnvFile(pairs)) == PrintPairs(pairs) + [""]
  {
    var lines := PrintPairs(pairs);
    forall i | 0 <= i < |pairs| ensures '\n' !in lines[i] && Chomp(lines[i]) == lines[i] {
      ParsePrintedPair(pairs[i]);
    }
    JoinWithEmpty(lines, '\n');
    SplitJoin(lines + [""], '\n');
  }

  lemma {:induction false} ParsePrintedPairs(pairs: seq<Pair>)
    requires forall i :: 0 <= i < |pairs| ==> Survives(pairs[i])
    ensures ParseLines(PrintPairs(pairs)) == MapOf(pairs)
  {
    if pairs != [] {
      var n := |pairs| - 1;
      ParsePrintedPairs(pairs[..n]);
      ParsePrintedPair(pairs[n]);
      assert PrintPairs(pairs)[..n] == PrintPairs(pairs[..n]);
    }
  }

  lemma EmptyFileHasNoEntries()
    ensures ParseLines(SplitLines("\n")) == map[]
  {
    assert Split("\n", '\n') == ["", ""] && SplitLines("\n") == ["", ""];
    assert ["", ""][..1] == [""] && ParseLines([""]) == map[];
  }

  lemma LastEmptyLine(lines: seq<string>)
    ensures ParseLines(lines + [""]) == ParseLines(lines)
  {
    assert (lines + [""])[..|lines|] == lines;
    assert Trim("") == "";
  }

  lemma SomeSurvivorsRoundTrip(pairs: seq<Pair>, content: string)
    requires pairs != [] && forall i :: 0 <= i < |pairs| ==> Survives(pairs[i])
    requires content == PrintEnvFile(pairs)
    ensures ParseLines(SplitLines(content)) == MapOf(pairs)
  {
    PrintedFileSplits(pairs);
    ParsePrintedPairs(pairs);
    LastEmptyLine(PrintPairs(pairs));
  }

  lemma SurvivorsRoundTrip(pairs: seq<Pair>)
    requires forall i :: 0 <= i < |pairs| ==> Survives(pairs[i])
    ensures ParseLines(SplitLines(PrintEnvFile(pairs))) == MapOf(pairs)
  {
    var content := PrintEnvFile(pairs);
    if pairs == [] {
      assert content == "\n";
      EmptyFileHasNoEntries();
    } else {
      SomeSurvivorsRoundTrip(pairs, content);
    }
  }

  ghost predicate DistinctKeys(pairs: seq<Pair>) {
    forall i, j :: 0 <= i < j < |pairs| ==> pairs[i].0 != pairs[j].0
  }

  lemma {:induction false} MapOfHolds(pairs: seq<Pair>, i: nat)
    requires DistinctKeys(pairs) && i < |pairs|
    ensures pairs[i].0 in MapOf(pairs) && MapOf(pairs)[pairs[i].0] == pairs[i].1
  {
    if i < |pairs| - 1 {
      MapOfHolds(pairs[..|pairs| - 1], i);
    }
  }

  /** Pairs with distinct keys come back exactly when each of them survives. */
  lemma RoundTripExactly(pairs: seq<Pair>)
    requires DistinctKeys(pairs)
    ensures ParseLines(SplitLines(PrintEnvFile(pairs))) == MapOf(pairs) <==>
      forall i :: 0 <= i < |pairs| ==> Survives(pairs[i])
  {
    var lines := SplitLines(PrintEnvFile(pairs));
    if forall i :: 0 <= i < |pairs| ==> Survives(pairs[i]) {
      SurvivorsRoundTrip(pairs);
    } else if ParseLines(lines) == MapOf(pairs) {
      forall i | 0 <= i < |lines| ensures '\n' !in lines[i] {
        LinesHaveNoBreaks(PrintEnvFile(pairs), i);
      }
      forall i | 0 <= i < |pairs| ensures Survives(pairs[i]) {
        MapOfHolds(pairs, i);
        ParsedEntriesSurvive(lines, pairs[i].0);
      }
    }
  }

  lemma EnvKeysDiffer(config: CandidateConfig)
    ensures DistinctKeys(EnvPairs(config))
  {
    assert "SIMPLEHOST_WEB_HOST"[15] == 'H' && "SIMPLEHOST_WEB_PORT"[15] == 'P';
    assert "SIMPLEHOST_CONTROL_RUNTIME_MODE"[19] == 'R' && "SIMPLEHOST_CONTROL_SANDBOX_MODE"[19] == 'S';
  }

  lemma EnvKeysAreKeys(config: CandidateConfig, i: nat)
    requires i < 7
    ensures IsKey(EnvPairs(config)[i].0)
  {
  }

  lemma EnvConstantsAreValues(config: CandidateConfig)
    ensures forall i :: 3 <= i < 6 ==> IsValue(EnvPairs(config)[i].1)
  {
    assert IsValue("combined") && IsValue("release-sandbox") && IsValue(Decimal(config.port));
  }

  lemma EnvPairsSurvive(config: CandidateConfig)
    ensures |EnvPairs(config)| == 7
    ensures (forall i :: 0 <= i < 7 ==> Survives(EnvPairs(config)[i])) <==>
      IsValue(config.environment) && IsValue(config.version) && IsValue(config.host) && IsValue(config.origin)
  {
    var pairs := EnvPairs(config);
    forall i: nat | i < 7 ensures IsKey(pairs[i].0) {
      EnvKeysAreKeys(config, i);
    }
    EnvConstantsAreValues(config);
    assert Survives(pairs[0]) <==> IsValue(config.environment);
    assert Survives(pairs[1]) <==> IsValue(config.version);
    assert Survives(pairs[2]) <==> IsValue(config.host);
    assert Survives(pairs[6]) <==> IsValue(config.origin);
  }

  /** The runner reads back the packed environment exactly when no configured text has a break or ends in space. */
  lemma SandboxEnvironmentRoundTrips(config: CandidateConfig)
    ensures ParseLines(SplitLines(ToEnvFileContent(config))) == MapOf(EnvPairs(config)) <==>
      IsValue(config.environment) && IsValue(config.version) && IsValue(config.host) && IsValue(config.origin)
  {
    EnvKeysDiffer(config);
    EnvPairsSurvive(config);
    RoundTripOf(EnvPairs(config), PrintEnvFile(EnvPairs(config)));
  }

  /** What the runner reads for each of the seven keys, and that there are no others. */
  lemma SandboxEnvironmentByName(config: CandidateConfig)
    requires IsValue(config.environment) && IsValue(config.version) && IsValue(config.host) && IsValue(config.origin)
    ensures var read := ParseLines(SplitLines(ToEnvFileContent(config)));
      && read.Keys == {"NODE_ENV", "SIMPLEHOST_VERSION", "SIMPLEHOST_WEB_HOST", "SIMPLEHOST_WEB_PORT",
                       "SIMPLEHOST_CONTROL_RUNTIME_MODE", "SIMPLEHOST_CONTROL_SANDBOX_MODE",
                       "SIMPLEHOST_CONTROL_SANDBOX_ORIGIN"}
      && read["NODE_ENV"] == config.environment && read["SIMPLEHOST_VERSION"] == config.version
      && read["SIMPLEHOST_WEB_HOST"] == config.host
      && ParseInteger(read["SIMPLEHOST_WEB_PORT"]) == Some(config.port)
      && read["SIMPLEHOST_CONTROL_RUNTIME_MODE"] == "combined"
      && read["SIMPLEHOST_CONTROL_SANDBOX_MODE"] == "release-sandbox"
      && read["SIMPLEHOST_CONTROL_SANDBOX_ORIGIN"] == config.origin
  {
    SandboxEnvironmentRoundTrips(config);
    ParseDecimal(config.port);
    ValueIsHeld(config, 0, "NODE_ENV", config.environment);
    ValueIsHeld(config, 1, "SIMPLEHOST_VERSION", config.version);
    ValueIsHeld(config, 2, "SIMPLEHOST_WEB_HOST", config.host);
    ValueIsHeld(config, 3, "SIMPLEHOST_WEB_PORT", Decimal(config.port));
    ValueIsHeld(config, 4, "SIMPLEHOST_CONTROL_RUNTIME_MODE", "combined");
    ValueIsHeld(config, 5, "SIMPLEHOST_CONTROL_SANDBOX_MODE", "release-sandbox");
    ValueIsHeld(config, 6, "SIMPLEHOST_CONTROL_SANDBOX_ORIGIN", config.origin);
    SandboxKeys(config);
  }

  lemma ValueIsHeld(config: CandidateConfig, i: nat, key: string, value: string)
    requires i < |EnvPairs(config)| && EnvPairs(config)[i] == (key, value)
    ensures key in MapOf(EnvPairs(config)) && MapOf(EnvPairs(config))[key] == value
  {
    EnvKeysDiffer(config);
    MapOfHolds(EnvPairs(config), i);
  }

  lemma SandboxKeys(config: CandidateConfig)
    ensures MapOf(EnvPairs(config)).Keys ==
      {"NODE_ENV", "SIMPLEHOST_VERSION", "SIMPLEHOST_WEB_HOST", "SIMPLEHOST_WEB_PORT",
       "SIMPLEHOST_CONTROL_RUNTIME_MODE", "SIMPLEHOST_CONTROL_SANDBOX_MODE", "SIMPLEHOST_CONTROL_SANDBOX_ORIGIN"}
  {
    var pairs := EnvPairs(config);
    MapOfKeys(pairs);
    forall key ensures key in KeysOf(pairs) <==>
      key in {pairs[0].0, pairs[1].0, pairs[2].0, pairs[3].0, pairs[4].0, pairs[5].0, pairs[6].0}
    {
      assert forall i :: 0 <= i < 7 ==> pairs[i].0 in KeysOf(pairs);
    }
  }

  function KeysOf(pairs: seq<Pair>): set<string> {
    set i | 0 <= i < |pairs| :: pairs[i].0
  }

  lemma {:induction false} MapOfKeys(pairs: seq<Pair>)
    ensures MapOf(pairs).Keys == KeysOf(pairs)
  {
    if pairs != [] {
      var n := |pairs| - 1;
      MapOfKeys(pairs[..n]);
      forall key ensures key in KeysOf(pairs) <==> key in KeysOf(pairs[..n]) || key == pairs[n].0 {
        if key in KeysOf(pairs[..n]) {
          var i :| 0 <= i < n && pairs[..n][i].0 == key;
          assert pairs[i].0 == key;
        }
        if key in KeysOf(pairs) {
          var i :| 0 <= i < |pairs| && pairs[i].0 == key;
          assert i < n ==> pairs[..n][i].0 == key;
        }
        assert pairs[n].0 in KeysOf(pairs);
      }
    }
  }

  lemma RoundTripOf(pairs: seq<Pair>, content: string)
    requires DistinctKeys(pairs) && content == PrintEnvFile(pairs)
    ensures ParseLines(SplitLines(content)) == MapOf(pairs) <==> forall i :: 0 <= i < |pairs| ==> Survives(pairs[i])
  {
    RoundTripExactly(pairs);
  }
}
