/**
 Synchronising .env with .env.example: a line parser and a line rewriter that must
 agree on what a definition is.

 A file is its text after newline translation, so lines end in '\n' only.
 */
module EnvText {

  import opened Options

  /** str.isspace, which both strip() and the regular expression's \s use. */
  predicate IsSpace(c: char) {
    var u := c as int;
    || 0x09 <= u <= 0x0D || 0x1C <= u <= 0x20 || u == 0x85 || u == 0xA0 || u == 0x1680
    || 0x2000 <= u <= 0x200A || u == 0x2028 || u == 0x2029 || u == 0x202F || u == 0x205F || u == 0x3000
  }

  function LStrip(s: string): string {
    if s != "" && IsSpace(s[0]) then LStrip(s[1..]) else s
  }

  function RStrip(s: string): string {
    if s != "" && IsSpace(s[|s| - 1]) then RStrip(s[..|s| - 1]) else s
  }

  function Strip(s: string): string {
    RStrip(LStrip(s))
  }

  predicate Trimmed(s: string) {
    s == "" || (!IsSpace(s[0]) && !IsSpace(s[|s| - 1]))
  }

  lemma {:induction false} LStripFacts(s: string)
    ensures LStrip(s) == "" || !IsSpace(LStrip(s)[0])
    ensures forall c :: c in LStrip(s) ==> c in s
    ensures LStrip(s) == "" ==> forall c :: c in s ==> IsSpace(c)
  {
    if s != "" && IsSpace(s[0]) {
      LStripFacts(s[1..]);
      assert s == [s[0]] + s[1..];
    }
  }

  lemma {:induction false} RStripFacts(s: string)
    ensures RStrip(s) <= s
    ensures RStrip(s) == "" || !IsSpace(RStrip(s)[|RStrip(s)| - 1])
    ensures s != "" && !IsSpace(s[0]) ==> RStrip(s) != ""
  {
    if s != "" && IsSpace(s[|s| - 1]) {
      RStripFacts(s[..|s| - 1]);
    }
  }

  lemma StripFacts(s: string)
    ensures Trimmed(Strip(s))
    ensures forall c :: c in Strip(s) ==> c in s
    ensures Trimmed(s) ==> Strip(s) == s
    ensures LStrip(s) != "" ==> Strip(s) != "" && Strip(s)[0] == LStrip(s)[0]
    ensures LStrip(s) == "" <==> Strip(s) == ""
  {
    LStripFacts(s);
    RStripFacts(LStrip(s));
  }

  lemma {:induction false} LStripOfConcat(a: string, b: string)
    ensures LStrip(a) != "" ==> LStrip(a + b) == LStrip(a) + b
  {
    if a == "" {
    } else if IsSpace(a[0]) {
      LStripOfConcat(a[1..], b);
      assert (a + b)[1..] == a[1..] + b;
    } else {
      assert (a + b)[0] == a[0];
    }
  }

  lemma {:induction false} RStripDropsSpaces(a: string, b: string)
    requires a != "" && !IsSpace(a[|a| - 1]) && forall c :: c in b ==> IsSpace(c)
    ensures RStrip(a + b) == a
  {
    var s := a + b;
    if b == "" {
      assert s == a;
    } else {
      assert s[|s| - 1] == b[|b| - 1];
      RStripDropsSpaces(a, b[..|b| - 1]);
      assert s[..|s| - 1] == a + b[..|b| - 1];
    }
  }

  /** t is s without the white space around it. */
  ghost predicate TrimsTo(s: string, t: string) {
    Trimmed(t) && exists before, after :: s == before + t + after && AllSpace(before) && AllSpace(after)
  }

  predicate AllSpace(s: string) {
    forall c :: c in s ==> IsSpace(c)
  }

  /** Blanks, tabs and carriage returns are white space; printable ASCII characters are not. */
  lemma OrdinarySpaces()
    ensures IsSpace(' ') && IsSpace('\t') && IsSpace('\r') && forall c :: '!' <= c <= '~' ==> !IsSpace(c)
  {
  }

  lemma {:induction false} LStripSplits(s: string) returns (before: string)
    ensures s == before + LStrip(s) && AllSpace(before)
  {
    if s != "" && IsSpace(s[0]) {
      before := LStripSplits(s[1..]);
      before := [s[0]] + before;
    } else {
      before := "";
    }
  }

  lemma {:induction false} RStripSplits(s: string) returns (after: string)
    ensures s == RStrip(s) + after && AllSpace(after)
  {
    if s != "" && IsSpace(s[|s| - 1]) {
      after := RStripSplits(s[..|s| - 1]);
      after := after + [s[|s| - 1]];
    } else {
      after := "";
    }
  }

  lemma {:induction false} LStripDropsSpaces(before: string, s: string)
    requires AllSpace(before)
    ensures LStrip(before + s) == LStrip(s)
  {
    if before == "" {
      assert before + s == s;
    } else {
      assert (before + s)[1..] == before[1..] + s;
      LStripDropsSpaces(before[1..], s);
    }
  }

  lemma {:induction false} SpaceStripsToNothing(s: string)
    requires AllSpace(s)
    ensures LStrip(s) == ""
  {
    if s != "" { SpaceStripsToNothing(s[1..]); }
  }

  /** strip() gives exactly what is left without the white space around it. */
  lemma StripExactly(s: string, t: string)
    ensures Strip(s) == t <==> TrimsTo(s, t)
  {
    hide *;
    if Strip(s) == t { StripTrims(s); }
    if TrimsTo(s, t) { TrimIsStrip(s, t); }
  }

  lemma StripTrims(s: string)
    ensures TrimsTo(s, Strip(s))
  {
    StripFacts(s);
    hide LStrip, RStrip, IsSpace, AllSpace, Trimmed;
    var before := LStripSplits(s);
    var after := RStripSplits(LStrip(s));
    assert s == before + Strip(s) + after;
  }

  lemma TrimIsStrip(s: string, t: string)
    requires TrimsTo(s, t)
    ensures Strip(s) == t
  {
    hide LStrip, IsSpace;
    var before, after :| s == before + t + after && AllSpace(before) && AllSpace(after);
    assert s == before + (t + after);
    LStripDropsSpaces(before, t + after);
    if t == "" {
      assert t + after == after;
      SpaceStripsToNothing(after);
    } else {
      assert (t + after)[0] == t[0];
      LStripKeeps(t + after);
      hide RStrip;
      RStripDropsSpaces(t, after);
    }
  }

  lemma LStripKeeps(s: string)
    requires s != "" && !IsSpace(s[0])
    ensures LStrip(s) == s
  {
  }

  /** The index of the first c, or the length. */
  function Find(s: string, c: char): (k: nat)
    ensures k <= |s| && c !in s[..k]
    ensures k < |s| ==> s[k] == c
    ensures k < |s| <==> c in s
  {
    if s == "" || s[0] == c then 0
    else
      assert s == [s[0]] + s[1..];
      var k := 1 + Find(s[1..], c);
      assert s[..k] == [s[0]] + s[1..][..k - 1];
      k
  }

  lemma {:induction false} FindOfConcat(a: string, c: char, b: string)
    requires c !in a
    ensures Find(a + [c] + b, c) == |a|
  {
    if a != "" {
      FindOfConcat(a[1..], c, b);
      assert (a + [c] + b)[1..] == a[1..] + [c] + b;
    }
  }

  // ---------- Lines ----------

  /** Iterating over a file, each line without its newline. */
  function Lines(text: string): (lines: seq<string>)
    ensures forall line :: line in lines ==> '\n' !in line
    decreases |text|
  {
    if text == "" then []
    else
      var k := Find(text, '\n');
      if k == |text| then
        assert text[..k] == text;
        [text]
      else [text[..k]] + Lines(text[k + 1..])
  }

  /** Writing every line with a newline. */
  function Text(lines: seq<string>): string {
    if lines == [] then "" else lines[0] + ['\n'] + Text(lines[1..])
  }

  function Ended(text: string): string {
    if text == "" || text[|text| - 1] == '\n' then text else text + "\n"
  }

  /** Writing back the lines of a text gives the text, ended by a newline. */
  lemma {:induction false} TextOfLines(text: string)
    ensures Text(Lines(text)) == Ended(text)
    decreases |text|
  {
    if text != "" {
      var k := Find(text, '\n');
      if k == |text| {
        UnendedLine(text);
      } else {
        var first, rest := text[..k], text[k + 1..];
        TextOfLines(rest);
        assert text == first + ['\n'] + rest;
        assert Lines(text) == [first] + Lines(rest);
        hide Lines, Find;
        TextOfFirst(first, Lines(rest));
        EndedTail(first, rest);
      }
    }
  }

  lemma UnendedLine(text: string)
    requires text != "" && Find(text, '\n') == |text|
    ensures Text(Lines(text)) == Ended(text)
  {
    assert Lines(text) == [text];
    assert Text([text]) == text + ['\n'] + Text([text][1..]);
    assert text[|text| - 1] in text;
  }

  lemma TextOfFirst(first: string, rest: seq<string>)
    ensures Text([first] + rest) == first + ['\n'] + Text(rest)
  {
    assert ([first] + rest)[1..] == rest;
  }

  lemma EndedTail(first: string, rest: string)
    ensures Ended(first + ['\n'] + rest) == first + ['\n'] + Ended(rest)
  {
    var text := first + ['\n'] + rest;
    assert text[|text| - 1] == if rest == "" then '\n' else rest[|rest| - 1];
  }

  lemma {:induction false} LinesOfText(lines: seq<string>)
    requires forall line :: line in lines ==> '\n' !in line
    ensures Lines(Text(lines)) == lines
  {
    if lines != [] {
      var rest := Text(lines[1..]);
      FindOfConcat(lines[0], '\n', rest);
      var text := Text(lines);
      assert text[..|lines[0]|] == lines[0] && text[|lines[0]| + 1..] == rest;
      LinesOfText(lines[1..]);
    }
  }
}

module EnvSync {
  import opened Options
  import opened EnvText

  datatype Definition = Definition(key: string, value: string)

  // ---------- parse_env_file ----------

  /** What one line defines, if anything. */
  function ParseLine(line: string): Option<Definition> {
    var stripped := Strip(line);
    if stripped == "" || stripped[0] == '#' then None
    else
      var k := Find(line, '=');
      if k == |line| then None
      else
        var key := Strip(line[..k]);
        if key == "" then None else Some(Definition(key, Strip(line[k + 1..])))
  }

  function Parse(lines: seq<string>): map<string, string> {
    if lines == [] then map[]
    else
      var before := Parse(lines[..|lines| - 1]);
      match ParseLine(lines[|lines| - 1])
      case None => before
      case Some(d) => before[d.key := d.value]
  }

  method ParseEnvFile(text: string) returns (variables: map<string, string>)
    ensures variables == Parse(Lines(text))
  {
    variables := map[];
    var lines := Lines(text);
    for i := 0 to |lines|
      invariant variables == Parse(lines[..i])
    {
      var line := lines[i];
      assert lines[..i + 1][..i] == lines[..i];
      var stripped := Strip(line);
      if stripped == "" || stripped[0] == '#' { continue; }
      var k := Find(line, '=');
      if k == |line| { continue; }
      var key := Strip(line[..k]);
      if key != "" {
        variables := variables[key := Strip(line[k + 1..])];
      }
    }
    assert lines[..|lines|] == lines;
  }

  // ---------- detect_differences ----------

  function Differing(env: map<string, string>, example: map<string, string>): set<string> {
    set key | key in example && key in env && env[key] != example[key]
  }

  method DetectDifferences(env: map<string, string>, example: map<string, string>)
    returns (diffs: map<string, (string, string)>)
    ensures diffs.Keys == Differing(env, example)
    ensures forall key :: key in diffs ==> diffs[key] == (env[key], example[key])
  {
    diffs := map[];
    var todo := example.Keys;
    while todo != {}
      invariant todo <= example.Keys
      invariant diffs.Keys == Differing(env, example) - todo
      invariant forall key :: key in diffs ==> diffs[key] == (env[key], example[key])
      decreases todo
    {
      var key :| key in todo;
      todo := todo - {key};
      if key in env && env[key] != example[key] {
        diffs := diffs[key := (env[key], example[key])];
      }
    }
  }

  // ---------- sync_env_file ----------

  predicate IsIdentStart(c: char) {
    'A' <= c <= 'Z' || 'a' <= c <= 'z' || c == '_'
  }

  predicate IsIdentChar(c: char) {
    IsIdentStart(c) || '0' <= c <= '9'
  }

  function IdentLength(s: string): (n: nat)
    ensures n <= |s| && forall c :: c in s[..n] ==> IsIdentChar(c)
    ensures n < |s| ==> !IsIdentChar(s[n])
  {
    if s == "" || !IsIdentChar(s[0]) then 0
    else
      var n := 1 + IdentLength(s[1..]);
      assert s[..n] == [s[0]] + s[1..][..n - 1];
      n
  }

  function SpaceLength(s: string): (n: nat)
    ensures n <= |s| && forall c :: c in s[..n] ==> IsSpace(c)
    ensures n < |s| ==> !IsSpace(s[n])
  {
    if s == "" || !IsSpace(s[0]) then 0
    else
      var n := 1 + SpaceLength(s[1..]);
      assert s[..n] == [s[0]] + s[1..][..n - 1];
      n
  }

  /** Group 1 of the pattern ^([A-Za-z_][A-Za-z0-9_]*)\s*= on a line. */
  function MatchKey(line: string): Option<string> {
    if line == "" || !IsIdentStart(line[0]) then None
    else
      var n := IdentLength(line);
      var m := n + SpaceLength(line[n..]);
      if m < |line| && line[m] == '=' then Some(line[..n]) else None
  }

  function SyncLine(line: string, env: map<string, string>, preserved: set<string>): string
    requires preserved <= env.Keys
  {
    match MatchKey(line)
    case None => line
    case Some(key) => if key in preserved then key + "=" + env[key] else line
  }

  function SyncLines(lines: seq<string>, env: map<string, string>, preserved: set<string>): seq<string>
    requires preserved <= env.Keys
  {
    seq(|lines|, i requires 0 <= i < |lines| => SyncLine(lines[i], env, preserved))
  }

  /** The new .env, from the texts of .env.example and the old .env. */
  function Synced(example: string, env: string): string {
    var envVars := Parse(Lines(env));
    Text(SyncLines(Lines(example), envVars, Differing(envVars, Parse(Lines(example)))))
  }

  /** The positions, among the first i lines, of recognised definitions of these keys, or of other keys. */
  function DefinitionLines(lines: seq<string>, i: nat, keys: set<string>, among: bool): set<nat>
    requires i <= |lines|
  {
    set j: nat | j < i && MatchKey(lines[j]).Some? && (MatchKey(lines[j]).value in keys) == among
  }

  lemma {:induction false} TextOfAppend(lines: seq<string>, line: string)
    ensures Text(lines + [line]) == Text(lines) + line + "\n"
  {
    if lines != [] {
      TextOfAppend(lines[1..], line);
      assert (lines + [line])[1..] == lines[1..] + [line];
    }
  }

  /** The rewriting loop; recognised definitions of differing keys are counted as preserved, all others as updated. */
  method SyncEnvFile(example: string, env: map<string, string>, diffs: map<string, (string, string)>)
    returns (output: string, preservedCount: nat, updatedCount: nat)
    requires diffs.Keys <= env.Keys
    ensures output == Text(SyncLines(Lines(example), env, diffs.Keys))
    ensures preservedCount == |DefinitionLines(Lines(example), |Lines(example)|, diffs.Keys, true)|
    ensures updatedCount == |DefinitionLines(Lines(example), |Lines(example)|, diffs.Keys, false)|
  {
    hide SyncedSoFar, Lines, MatchKey, SyncLine, Text, SyncLines, DefinitionLines;
    output, preservedCount, updatedCount := "", 0, 0;
    var lines := Lines(example);
    NothingSynced(lines, env, diffs.Keys);
    for i := 0 to |lines|
      invariant SyncedSoFar(lines, i, env, diffs.Keys, output)
      invariant preservedCount == |DefinitionLines(lines, i, diffs.Keys, true)|
      invariant updatedCount == |DefinitionLines(lines, i, diffs.Keys, false)|
    {
      OneMoreCounted(lines, i, diffs.Keys, true);
      OneMoreCounted(lines, i, diffs.Keys, false);
      var written := lines[i];
      match MatchKey(lines[i]) {
        case Some(key) =>
          if key in diffs {
            written := key + "=" + env[key];
            preservedCount := preservedCount + 1;
          } else {
            updatedCount := updatedCount + 1;
          }
        case None =>
      }
      assert written == SyncLine(lines[i], env, diffs.Keys) by { SyncLineIs(lines[i], env, diffs.Keys); }
      OneMoreSynced(lines, i, env, diffs.Keys);
      output := output + written + "\n";
    }
    AllSynced(lines, env, diffs.Keys, output);
  }

  /** The output after the first i lines. */
  ghost predicate SyncedSoFar(lines: seq<string>, i: nat, env: map<string, string>, preserved: set<string>,
                              output: string)
    requires preserved <= env.Keys && i <= |lines|
  {
    output == Text(SyncLines(lines[..i], env, preserved))
  }

  lemma OneMoreCounted(lines: seq<string>, i: nat, keys: set<string>, among: bool)
    requires i < |lines|
    ensures |DefinitionLines(lines, i + 1, keys, among)|
         == |DefinitionLines(lines, i, keys, among)|
            + if MatchKey(lines[i]).Some? && (MatchKey(lines[i]).value in keys) == among then 1 else 0
  {
    hide MatchKey;
    var before := DefinitionLines(lines, i, keys, among);
    assert i !in before;
    assert DefinitionLines(lines, i + 1, keys, among)
        == if MatchKey(lines[i]).Some? && (MatchKey(lines[i]).value in keys) == among then before + {i} else before;
  }

  lemma SyncLineIs(line: string, env: map<string, string>, preserved: set<string>)
    requires preserved <= env.Keys
    ensures SyncLine(line, env, preserved)
         == match MatchKey(line) case None => line
            case Some(key) => if key in preserved then key + "=" + env[key] else line
  {
  }

  lemma AllSynced(lines: seq<string>, env: map<string, string>, preserved: set<string>, output: string)
    requires preserved <= env.Keys && SyncedSoFar(lines, |lines|, env, preserved, output)
    ensures output == Text(SyncLines(lines, env, preserved))
  {
    assert lines[..|lines|] == lines;
  }

  lemma NothingSynced(lines: seq<string>, env: map<string, string>, preserved: set<string>)
    requires preserved <= env.Keys
    ensures SyncedSoFar(lines, 0, env, preserved, "")
    ensures forall among :: |DefinitionLines(lines, 0, preserved, among)| == 0
  {
    assert SyncLines(lines[..0], env, preserved) == [];
    assert forall among :: DefinitionLines(lines, 0, preserved, among) == {};
  }

  lemma OneMoreSynced(lines: seq<string>, i: nat, env: map<string, string>, preserved: set<string>)
    requires i < |lines| && preserved <= env.Keys
    ensures forall output :: SyncedSoFar(lines, i, env, preserved, output) ==>
              SyncedSoFar(lines, i + 1, env, preserved, output + SyncLine(lines[i], env, preserved) + "\n")
  {
    hide MatchKey, Text, SyncLine;
    assert lines[..i + 1][..i] == lines[..i];
    TextOfAppend(SyncLines(lines[..i], env, preserved), SyncLine(lines[i], env, preserved));
    assert SyncLines(lines[..i + 1], env, preserved)
        == SyncLines(lines[..i], env, preserved) + [SyncLine(lines[i], env, preserved)];
  }

  /** The whole script: parse both files, find the differences, rewrite. */
  method Synchronize(example: string, env: string) returns (output: string)
    ensures output == Synced(example, env)
  {
    var envVars := ParseEnvFile(env);
    var exampleVars := ParseEnvFile(example);
    var diffs := DetectDifferences(envVars, exampleVars);
    var preserved, updated;
    output, preserved, updated := SyncEnvFile(example, envVars, diffs);
  }

  // ---------- The parser and the rewriter agree ----------

  /** A line "key=value" defines key as value, for every key the parser can produce. */
  predicate ParsableKey(key: string) {
    key != "" && Trimmed(key) && '=' !in key && key[0] != '#'
  }

  lemma ParseOfAssignment(key: string, value: string)
    requires ParsableKey(key) && Trimmed(value)
    ensures ParseLine(key + "=" + value) == Some(Definition(key, value))
  {
    var line := key + "=" + value;
    FindOfConcat(key, '=', value);
    assert line[..|key|] == key && line[|key| + 1..] == value;
    StripFacts(line);
    assert line[0] == key[0];
    StripFacts(key);
    StripFacts(value);
  }

  /** Whatever the parser reads as a key can be written back. */
  lemma ParsedKeyIsParsable(line: string)
    requires ParseLine(line).Some?
    ensures ParsableKey(ParseLine(line).value.key)
    ensures Trimmed(ParseLine(line).value.value)
    ensures forall c :: c in ParseLine(line).value.key || c in ParseLine(line).value.value ==> c in line
  {
    hide Find, Strip, LStrip, IsSpace;
    var k := Find(line, '=');
    var front, back := line[..k], line[k + 1..];
    StripFacts(front);
    StripFacts(back);
    StripFacts(line);
    assert line == front + line[k..];
    LStripOfConcat(front, line[k..]);
    assert forall c :: c in front || c in back ==> c in line;
  }

  /** A line the pattern matches is one the parser reads with the same key. */
  lemma MatchIsParsed(line: string)
    requires MatchKey(line).Some?
    ensures ParseLine(line).Some? && ParseLine(line).value.key == MatchKey(line).value
    ensures forall c :: c in MatchKey(line).value ==> IsIdentChar(c)
  {
    var n := IdentLength(line);
    var m := n + SpaceLength(line[n..]);
    var key, spaces := line[..n], line[n..][..m - n];
    assert key[0] == line[0];
    SplitAt(line, n, m);
    hide IdentLength, SpaceLength, ParseLine, IsSpace;
    SplitMatch(line, key, spaces, line[m + 1..]);
  }

  lemma SplitAt(line: string, n: nat, m: nat)
    requires n <= m < |line| && line[m] == '='
    ensures line == line[..n] + line[n..][..m - n] + ['='] + line[m + 1..]
  {
    assert line[n..][..m - n] == line[n..m];
  }

  lemma SplitMatch(line: string, key: string, spaces: string, rest: string)
    requires line == key + spaces + ['='] + rest && key != ""
    requires (forall c :: c in key ==> IsIdentChar(c)) && AllSpace(spaces)
    ensures ParseLine(line) == Some(Definition(key, Strip(rest)))
  {
    IdentIsTrimmed(key, spaces);
    StripTrims(rest);
    hide *;
    assert line == key + spaces + "=" + rest;
    DefineAs(line, key + spaces, rest, key, Strip(rest));
    DefinedIsParsed(line, key, Strip(rest));
  }

  lemma IdentIsTrimmed(key: string, spaces: string)
    requires key != "" && (forall c :: c in key ==> IsIdentChar(c)) && AllSpace(spaces)
    ensures TrimsTo(key + spaces, key) && key[0] != '#' && '=' !in key + spaces
  {
    assert key[0] in key && key[|key| - 1] in key;
    var none := "";
    assert key + spaces == none + key + spaces && AllSpace(none);
  }

  lemma DefineAs(line: string, before: string, after: string, key: string, value: string)
    requires key != "" && key[0] != '#' && line == before + "=" + after && '=' !in before
    requires TrimsTo(before, key) && TrimsTo(after, value)
    ensures DefinesAs(line, key, value)
  {
    hide TrimsTo;
  }

  lemma RewrittenLine(line: string, value: string)
    requires MatchKey(line).Some? && Trimmed(value)
    ensures var key := MatchKey(line).value;
            ParseLine(key + "=" + value) == Some(Definition(key, value))
  {
    MatchIsParsed(line);
    ParsedKeyIsParsable(line);
    ParseOfAssignment(MatchKey(line).value, value);
  }

  // ---------- The last definition decides ----------

  predicate Defines(line: string, key: string) {
    ParseLine(line).Some? && ParseLine(line).value.key == key
  }

  /** The index of the last line that defines key, or -1. */
  function LastDefinition(lines: seq<string>, key: string): (i: int)
    ensures -1 <= i < |lines|
    ensures i >= 0 ==> Defines(lines[i], key)
  {
    if lines == [] then -1
    else if Defines(lines[|lines| - 1], key) then |lines| - 1
    else LastDefinition(lines[..|lines| - 1], key)
  }

  lemma {:induction false} ParseIsLastDefinition(lines: seq<string>, key: string)
    ensures key in Parse(lines) <==> LastDefinition(lines, key) >= 0
    ensures key in Parse(lines) ==> Parse(lines)[key] == ParseLine(lines[LastDefinition(lines, key)]).value.value
  {
    if lines != [] {
      ParseIsLastDefinition(lines[..|lines| - 1], key);
    }
  }

  lemma {:induction false} SameLastDefinition(a: seq<string>, b: seq<string>, key: string)
    requires |a| == |b| && forall i :: 0 <= i < |a| ==> (Defines(a[i], key) <==> Defines(b[i], key))
    ensures LastDefinition(a, key) == LastDefinition(b, key)
  {
    if a != [] {
      SameLastDefinition(a[..|a| - 1], b[..|b| - 1], key);
    }
  }

  predicate TrimmedValues(env: map<string, string>) {
    forall key :: key in env ==> Trimmed(env[key])
  }

  lemma SyncLineKeepsKey(line: string, env: map<string, string>, preserved: set<string>)
    requires preserved <= env.Keys && TrimmedValues(env)
    ensures var result := SyncLine(line, env, preserved);
            && (ParseLine(result).Some? <==> ParseLine(line).Some?)
            && (ParseLine(line).Some? ==>
                  var key := ParseLine(line).value.key;
                  ParseLine(result).value == Definition(key,
                    if MatchKey(line).Some? && key in preserved then env[key] else ParseLine(line).value.value))
  {
    if MatchKey(line).Some? {
      MatchIsParsed(line);
      if MatchKey(line).value in preserved {
        RewrittenLine(line, env[MatchKey(line).value]);
      }
    }
  }

  /** Every key of the example, with the .env value where there is one. */
  function Merged(example: map<string, string>, env: map<string, string>): map<string, string> {
    map key | key in example :: if key in env then env[key] else example[key]
  }

  /** The last definition of every key is one the rewriter recognises: it starts at column 0 with an identifier. */
  ghost predicate LastMatched(lines: seq<string>) {
    forall key :: key in Parse(lines) && LastDefinition(lines, key) >= 0 ==>
      MatchKey(lines[LastDefinition(lines, key)]).Some?
  }

  lemma SyncedValue(lines: seq<string>, env: map<string, string>, key: string)
    requires TrimmedValues(env)
    ensures var example := Parse(lines);
            var result := Parse(SyncLines(lines, env, Differing(env, example)));
            && (key in result <==> key in example)
            && (key in example ==>
                  LastDefinition(lines, key) >= 0
                  && result[key] == if MatchKey(lines[LastDefinition(lines, key)]).Some? && key in env then env[key]
                                 else example[key])
  {
    var preserved := Differing(env, Parse(lines));
    var result := SyncLines(lines, env, preserved);
    forall i | 0 <= i < |lines| ensures Defines(lines[i], key) <==> Defines(result[i], key) {
      SyncLineKeepsKey(lines[i], env, preserved);
    }
    SameLastDefinition(lines, result, key);
    ParseIsLastDefinition(lines, key);
    ParseIsLastDefinition(result, key);
    var last := LastDefinition(lines, key);
    if last >= 0 {
      SyncLineKeepsKey(lines[last], env, preserved);
    }
  }

  lemma SyncedIsMerged(lines: seq<string>, env: map<string, string>)
    requires TrimmedValues(env) && LastMatched(lines)
    ensures Parse(SyncLines(lines, env, Differing(env, Parse(lines)))) == Merged(Parse(lines), env)
  {
    var result := Parse(SyncLines(lines, env, Differing(env, Parse(lines))));
    forall key ensures key in result <==> key in Parse(lines) { SyncedValue(lines, env, key); }
    forall key | key in result ensures result[key] == Merged(Parse(lines), env)[key] { SyncedValue(lines, env, key); }
  }

  lemma {:induction false} ParsedFacts(lines: seq<string>)
    requires forall line :: line in lines ==> '\n' !in line
    ensures TrimmedValues(Parse(lines))
    ensures forall key :: key in Parse(lines) ==> ParsableKey(key) && '\n' !in key && '\n' !in Parse(lines)[key]
  {
    if lines != [] {
      var last := lines[|lines| - 1];
      ParsedFacts(lines[..|lines| - 1]);
      assert last in lines;
      if ParseLine(last).Some? { ParsedKeyIsParsable(last); }
    }
  }

  /** The synced text read back is the synced lines. */
  lemma SyncedLines(example: string, env: string)
    ensures var envVars := Parse(Lines(env));
            Lines(Synced(example, env)) == SyncLines(Lines(example), envVars, Differing(envVars, Parse(Lines(example))))
  {
    var envVars := Parse(Lines(env));
    ParsedFacts(Lines(env));
    var lines := Lines(example);
    var result := SyncLines(lines, envVars, Differing(envVars, Parse(lines)));
    forall i | 0 <= i < |result| ensures '\n' !in result[i] {
      assert lines[i] in lines;
      if MatchKey(lines[i]).Some? { MatchIsParsed(lines[i]); }
    }
    LinesOfText(result);
  }

  // ---------- Main theorems ----------

  /** The sync is right for this example and this .env: parsing the result gives the merge. */
  ghost predicate SyncIsFaithful(example: string, env: string) {
    Parse(Lines(Synced(example, env))) == Merged(Parse(Lines(example)), Parse(Lines(env)))
  }

  /** For every .env, parsing the synced file gives exactly the example's keys, each with the .env value if
      present and the example's otherwise: if and only if the example is well-formed. */
  lemma FaithfulExactlyWhenMatched(example: string)
    ensures (forall env :: SyncIsFaithful(example, env)) <==> LastMatched(Lines(example))
  {
    var lines := Lines(example);
    if LastMatched(lines) {
      forall env ensures SyncIsFaithful(example, env) {
        ParsedFacts(Lines(env));
        SyncedLines(example, env);
        SyncedIsMerged(lines, Parse(Lines(env)));
      }
    } else {
      var key :| key in Parse(lines) && LastDefinition(lines, key) >= 0
                 && MatchKey(lines[LastDefinition(lines, key)]).None?;
      UnmatchedIsLost(example, key);
    }
  }

  /** The definition of the key that counts is one the pattern does not match. */
  ghost predicate Unmatched(lines: seq<string>, key: string) {
    key in Parse(lines) && LastDefinition(lines, key) >= 0 && MatchKey(lines[LastDefinition(lines, key)]).None?
  }

  lemma UnmatchedIsLost(example: string, key: string)
    ensures Unmatched(Lines(example), key) ==> exists env :: !SyncIsFaithful(example, env)
  {
    var lines := Lines(example);
    hide ParseLine, Parse, MatchKey, LastDefinition, Lines, Synced, SyncLines;
    if Unmatched(lines, key) {
      ParsedFacts(lines);
      var value := Parse(lines)[key] + "x";
      var env := key + "=" + value;
      ParseOfAssignment(key, value);
      OneLineText(env);
      OneDefinition(env);
      SyncedLines(example, env);
      SyncedValue(lines, map[key := value], key);
      assert !SyncIsFaithful(example, env);
    }
  }

  lemma OneDefinition(line: string)
    requires ParseLine(line).Some?
    ensures Parse([line]) == map[ParseLine(line).value.key := ParseLine(line).value.value]
  {
    assert [line][..0] == [];
  }

  lemma OneLineText(text: string)
    requires text != "" && '\n' !in text
    ensures Lines(text) == [text]
  {
  }

  // ---------- Syncing twice ----------

  ghost predicate Idempotent(example: string, env: string) {
    Synced(example, Synced(example, env)) == Synced(example, env)
  }

  /** The rewriter recognises the definition of the key that counts. */
  predicate Kept(lines: seq<string>, key: string) {
    LastDefinition(lines, key) >= 0 && MatchKey(lines[LastDefinition(lines, key)]).Some?
  }

  /** A key with any recognised definition has a recognised last one. */
  ghost predicate MatchedAlike(lines: seq<string>) {
    forall i :: 0 <= i < |lines| && MatchKey(lines[i]).Some? ==> Kept(lines, MatchKey(lines[i]).value)
  }

  function ResyncedVars(lines: seq<string>, env: map<string, string>): map<string, string> {
    Parse(SyncLines(lines, env, Differing(env, Parse(lines))))
  }

  /** What the second sync still sees as different. */
  lemma SecondDifference(lines: seq<string>, env: map<string, string>, key: string)
    requires TrimmedValues(env)
    ensures key in Differing(ResyncedVars(lines, env), Parse(lines))
       <==> key in Differing(env, Parse(lines)) && Kept(lines, key)
    ensures key in Parse(lines) && key in env && Kept(lines, key) ==>
              key in ResyncedVars(lines, env) && ResyncedVars(lines, env)[key] == env[key]
  {
    hide Parse, SyncLines, MatchKey, LastDefinition;
    SyncedValue(lines, env, key);
  }

  lemma MatchedAlikeIsIdempotent(example: string, env: string)
    requires MatchedAlike(Lines(example))
    ensures Idempotent(example, env)
  {
    hide Parse, Lines, MatchKey, Text, Kept, Differing;
    var lines, vars := Lines(example), Parse(Lines(env));
    var again := ResyncedVars(lines, vars);
    assert TrimmedValues(vars) by { ParsedFacts(Lines(env)); }
    var first, second := Differing(vars, Parse(lines)), Differing(again, Parse(lines));
    assert Parse(Lines(Synced(example, env))) == again by { SyncedLines(example, env); }
    assert second <= again.Keys && first <= vars.Keys by {
      DifferingIsShared(again, Parse(lines));
      DifferingIsShared(vars, Parse(lines));
    }
    forall i | 0 <= i < |lines| ensures SyncLine(lines[i], again, second) == SyncLine(lines[i], vars, first) {
      if MatchKey(lines[i]).Some? {
        SecondDifference(lines, vars, MatchKey(lines[i]).value);
        DifferingIsShared(vars, Parse(lines));
      }
    }
    assert SyncLines(lines, again, second) == SyncLines(lines, vars, first);
  }

  lemma DifferingIsShared(env: map<string, string>, example: map<string, string>)
    ensures Differing(env, example) <= env.Keys && Differing(env, example) <= example.Keys
  {
  }

  /** A recognised definition before an unrecognised last one is rewritten by the first sync and restored by
      the second. */
  lemma UnlikeFlips(example: string, i: nat)
    requires i < |Lines(example)| && MatchKey(Lines(example)[i]).Some?
    requires !Kept(Lines(example), MatchKey(Lines(example)[i]).value)
    ensures exists env :: !Idempotent(example, env)
  {
    var lines := Lines(example);
    var key := MatchKey(lines[i]).value;
    MatchIsParsed(lines[i]);
    LastIsAfter(lines, i, key);
    ParseIsLastDefinition(lines, key);
    hide ParseLine, Parse, MatchKey, LastDefinition, Lines, Kept, Text;
    ParsedFacts(lines);
    var value := FreshValue(Parse(lines)[key], key, lines[i]);
    var env := key + "=" + value;
    assert Parse(Lines(env)) == map[key := value] by {
      ParseOfAssignment(key, value);
      OneLineText(env);
      OneDefinition(env);
    }
    FirstSyncRewrites(lines, i, key, value);
    SyncedLines(example, env);
    SyncedLines(example, Synced(example, env));
    assert !Idempotent(example, env);
  }

  lemma FirstSyncRewrites(lines: seq<string>, i: nat, key: string, value: string)
    requires i < |lines| && MatchKey(lines[i]) == Some(key) && !Kept(lines, key)
    requires key in Parse(lines) && Trimmed(value) && value != Parse(lines)[key]
    ensures var vars := map[key := value];
            var again := ResyncedVars(lines, vars);
            && SyncLines(lines, vars, Differing(vars, Parse(lines)))[i] == key + "=" + value
            && SyncLines(lines, again, Differing(again, Parse(lines)))[i] == lines[i]
  {
    hide Parse, MatchKey, LastDefinition, Kept;
    SecondDifference(lines, map[key := value], key);
  }

  /** Another value for the key than the one it has, which the given line does not spell. */
  function FreshValue(value: string, key: string, line: string): (r: string)
    requires Trimmed(value)
    ensures Trimmed(r) && r != value && key + "=" + r != line
    ensures '\n' !in value ==> '\n' !in r
  {
    var x, y := value + "x", value + "y";
    assert x[|x| - 1] != y[|y| - 1];
    assert (key + "=" + x)[|key| + 1..] == x && (key + "=" + y)[|key| + 1..] == y;
    if key + "=" + x != line then x else y
  }

  lemma {:induction false} LastIsAfter(lines: seq<string>, i: nat, key: string)
    requires i < |lines| && Defines(lines[i], key)
    ensures LastDefinition(lines, key) >= i
  {
    if i < |lines| - 1 {
      LastIsAfter(lines[..|lines| - 1], i, key);
    }
  }

  /** A second sync reproduces the same text, for every .env, exactly when the example is settled. */
  lemma IdempotentExactlyWhenMatchedAlike(example: string)
    ensures (forall env :: Idempotent(example, env)) <==> MatchedAlike(Lines(example))
  {
    hide Idempotent, Lines, MatchKey, Kept;
    if MatchedAlike(Lines(example)) {
      forall env ensures Idempotent(example, env) { MatchedAlikeIsIdempotent(example, env); }
    } else {
      var i :| 0 <= i < |Lines(example)| && MatchKey(Lines(example)[i]).Some?
               && !Kept(Lines(example), MatchKey(Lines(example)[i]).value);
      UnlikeFlips(example, i);
    }
  }

  // ---------- The same, read off the text ----------

  /** The line has the form `key=value` with white space around both parts, and is no comment. */
  ghost predicate DefinesAs(line: string, key: string, value: string) {
    key != "" && key[0] != '#' &&
    exists before, after :: line == before + "=" + after && '=' !in before
                            && TrimsTo(before, key) && TrimsTo(after, value)
  }

  predicate Identifier(key: string) {
    && key != ""
    && ('A' <= key[0] <= 'Z' || 'a' <= key[0] <= 'z' || key[0] == '_')
    && forall c :: c in key ==> 'A' <= c <= 'Z' || 'a' <= c <= 'z' || c == '_' || '0' <= c <= '9'
  }

  /** The line starts at column 0 with the identifier, then white space and an equals sign. */
  ghost predicate Recognised(line: string, key: string) {
    Identifier(key) && exists spaces, rest :: line == key + spaces + "=" + rest && AllSpace(spaces)
  }

  /** The line is the last one that defines the key. */
  ghost predicate Counts(lines: seq<string>, i: nat, key: string)
    requires i < |lines|
  {
    && (exists value :: DefinesAs(lines[i], key, value))
    && forall j, value :: i < j < |lines| ==> !DefinesAs(lines[j], key, value)
  }

  /** Every definition that counts starts at column 0 with an identifier. */
  ghost predicate WellFormed(lines: seq<string>) {
    forall i: nat, key :: i < |lines| && Counts(lines, i, key) ==> Recognised(lines[i], key)
  }

  /** A key with any definition that starts so has one that counts and starts so. */
  ghost predicate Settled(lines: seq<string>) {
    forall i: nat, j: nat, key :: i < |lines| && j < |lines| && Recognised(lines[i], key) && Counts(lines, j, key) ==>
      Recognised(lines[j], key)
  }

  /** What a line defines. */
  lemma DefinesExactly(line: string, key: string, value: string)
    ensures ParseLine(line) == Some(Definition(key, value)) <==> DefinesAs(line, key, value)
  {
    hide *;
    if ParseLine(line) == Some(Definition(key, value)) { ParsedIsDefined(line, key, value); }
    if DefinesAs(line, key, value) { DefinedIsParsed(line, key, value); }
  }

  lemma ParsedIsDefined(line: string, key: string, value: string)
    requires ParseLine(line) == Some(Definition(key, value))
    ensures DefinesAs(line, key, value)
  {
    ParsedKeyIsParsable(line);
    hide IsSpace, Strip, TrimsTo, LStrip, Find;
    var k := Find(line, '=');
    var before, after := line[..k], line[k + 1..];
    assert line == before + "=" + after;
    StripExactly(before, key);
    StripExactly(after, value);
  }

  lemma DefinedIsParsed(line: string, key: string, value: string)
    requires DefinesAs(line, key, value)
    ensures ParseLine(line) == Some(Definition(key, value))
  {
    hide IsSpace, Strip, TrimsTo, LStrip, Find;
    var before, after :| line == before + "=" + after && '=' !in before
                         && TrimsTo(before, key) && TrimsTo(after, value);
    FindOfConcat(before, '=', after);
    assert line[..|before|] == before && line[|before| + 1..] == after;
    StripExactly(before, key);
    StripExactly(after, value);
    StripFacts(before);
    assert before + ("=" + after) == line;
    LStripOfConcat(before, "=" + after);
    StripFacts(line);
  }

  /** Which lines the pattern of the rewriter recognises, and with which key. */
  lemma MatchExactly(line: string, key: string)
    ensures MatchKey(line) == Some(key) <==> Recognised(line, key)
  {
    hide *;
    if MatchKey(line) == Some(key) { MatchIsRecognised(line, key); }
    if Recognised(line, key) { RecognisedIsMatched(line, key); }
  }

  lemma MatchIsRecognised(line: string, key: string)
    requires MatchKey(line) == Some(key)
    ensures Recognised(line, key)
  {
    hide IdentLength, SpaceLength, IsSpace;
    var n := IdentLength(line);
    var m := n + SpaceLength(line[n..]);
    var spaces, rest := line[n..][..m - n], line[m + 1..];
    SplitAt(line, n, m);
    assert n > 0 by { StartsIdentifier(line); }
    assert key[0] == line[0];
    assert Identifier(key);
    Recognise(line, key, spaces, rest);
  }

  lemma Recognise(line: string, key: string, spaces: string, rest: string)
    requires Identifier(key) && line == key + spaces + "=" + rest && AllSpace(spaces)
    ensures Recognised(line, key)
  {
    hide Identifier, AllSpace;
  }

  lemma StartsIdentifier(line: string)
    requires line != "" && IsIdentStart(line[0])
    ensures IdentLength(line) > 0
  {
  }

  lemma RecognisedIsMatched(line: string, key: string)
    requires Recognised(line, key)
    ensures MatchKey(line) == Some(key)
  {
    hide IdentLength, SpaceLength;
    var spaces, rest :| line == key + spaces + "=" + rest && AllSpace(spaces);
    var tail := "=" + rest;
    assert line == key + (spaces + tail) && line[|key|..] == spaces + tail && line[..|key|] == key;
    assert spaces != "" ==> spaces[0] in spaces;
    assert spaces + tail != "" && !IsIdentChar((spaces + tail)[0]);
    IdentOfConcat(key, spaces + tail);
    SpaceOfConcat(spaces, tail);
    assert line[0] == key[0] && line[|key| + |spaces|] == '=';
  }

  lemma {:induction false} IdentOfConcat(key: string, rest: string)
    requires (forall c :: c in key ==> IsIdentChar(c)) && (rest == "" || !IsIdentChar(rest[0]))
    ensures IdentLength(key + rest) == |key|
  {
    if key == "" {
      assert key + rest == rest;
    } else {
      assert (key + rest)[1..] == key[1..] + rest;
      IdentOfConcat(key[1..], rest);
    }
  }

  lemma {:induction false} SpaceOfConcat(spaces: string, rest: string)
    requires AllSpace(spaces) && (rest == "" || !IsSpace(rest[0]))
    ensures SpaceLength(spaces + rest) == |spaces|
  {
    if spaces == "" {
      assert spaces + rest == rest;
    } else {
      assert (spaces + rest)[1..] == spaces[1..] + rest;
      SpaceOfConcat(spaces[1..], rest);
    }
  }

  lemma DefinesSomething(line: string, key: string)
    ensures Defines(line, key) <==> exists value :: DefinesAs(line, key, value)
  {
    hide ParseLine, DefinesAs;
    if Defines(line, key) { DefinesExactly(line, key, ParseLine(line).value.value); }
    if value :| DefinesAs(line, key, value) { DefinesExactly(line, key, value); }
  }

  lemma {:induction false} LastIsLast(lines: seq<string>, key: string, j: nat)
    requires LastDefinition(lines, key) < j < |lines|
    ensures !Defines(lines[j], key)
  {
    if j < |lines| - 1 { LastIsLast(lines[..|lines| - 1], key, j); }
  }

  lemma CountsExactly(lines: seq<string>, i: nat, key: string)
    requires i < |lines|
    ensures Counts(lines, i, key) <==> LastDefinition(lines, key) == i
  {
    hide LastDefinition, DefinesAs, Defines;
    var last := LastDefinition(lines, key);
    forall j: nat | j < |lines| ensures Defines(lines[j], key) <==> exists value :: DefinesAs(lines[j], key, value) {
      DefinesSomething(lines[j], key);
    }
    forall j: nat | last < j < |lines| ensures !Defines(lines[j], key) { LastIsLast(lines, key, j); }
    if Counts(lines, i, key) { LastIsAfter(lines, i, key); }
  }

  /** What a file defines: each key as its last definition says, and nothing else. */
  lemma ParseExactly(lines: seq<string>, key: string, value: string)
    ensures key in Parse(lines) && Parse(lines)[key] == value
       <==> exists i: nat :: i < |lines| && Counts(lines, i, key) && DefinesAs(lines[i], key, value)
  {
    hide Parse, LastDefinition, Counts, DefinesAs, ParseLine;
    ParseIsLastDefinition(lines, key);
    var last := LastDefinition(lines, key);
    if last >= 0 {
      CountsExactly(lines, last, key);
      DefinesExactly(lines[last], key, value);
    }
    if i: nat :| i < |lines| && Counts(lines, i, key) && DefinesAs(lines[i], key, value) {
      CountsExactly(lines, i, key);
    }
  }

  lemma KeptExactly(lines: seq<string>, i: nat, key: string)
    requires i < |lines| && Counts(lines, i, key)
    ensures Kept(lines, key) <==> Recognised(lines[i], key)
  {
    hide LastDefinition, Counts, MatchKey, Recognised, ParseLine;
    CountsExactly(lines, i, key);
    MatchExactly(lines[i], key);
    if MatchKey(lines[i]).Some? { MatchIsParsed(lines[i]); }
  }

  lemma MatchedExactly(lines: seq<string>)
    ensures LastMatched(lines) <==> WellFormed(lines)
    ensures MatchedAlike(lines) <==> Settled(lines)
  {
    WellFormedIsMatched(lines);
    SettledIsMatchedAlike(lines);
  }

  lemma WellFormedIsMatched(lines: seq<string>)
    ensures LastMatched(lines) <==> WellFormed(lines)
  {
    hide LastDefinition, Counts, MatchKey, Recognised, Parse;
    if LastMatched(lines) {
      forall i: nat, key | i < |lines| && Counts(lines, i, key) ensures Recognised(lines[i], key) {
        CountsExactly(lines, i, key);
        ParseIsLastDefinition(lines, key);
        KeptExactly(lines, i, key);
      }
    }
    if WellFormed(lines) {
      forall key | key in Parse(lines) && LastDefinition(lines, key) >= 0
        ensures MatchKey(lines[LastDefinition(lines, key)]).Some?
      {
        var i := LastDefinition(lines, key);
        CountsExactly(lines, i, key);
        KeptExactly(lines, i, key);
      }
    }
  }

  lemma SettledIsMatchedAlike(lines: seq<string>)
    ensures MatchedAlike(lines) <==> Settled(lines)
  {
    hide LastDefinition, Counts, MatchKey, Recognised, Kept, ParseLine;
    if MatchedAlike(lines) {
      forall i: nat, j: nat, key | i < |lines| && j < |lines| && Recognised(lines[i], key) && Counts(lines, j, key)
        ensures Recognised(lines[j], key)
      {
        MatchExactly(lines[i], key);
        KeptExactly(lines, j, key);
      }
    }
    if Settled(lines) {
      forall i | 0 <= i < |lines| && MatchKey(lines[i]).Some? ensures Kept(lines, MatchKey(lines[i]).value) {
        var key := MatchKey(lines[i]).value;
        MatchExactly(lines[i], key);
        MatchIsParsed(lines[i]);
        LastIsAfter(lines, i, key);
        var last := LastDefinition(lines, key);
        CountsExactly(lines, last, key);
        KeptExactly(lines, last, key);
      }
    }
  }

  /** For every .env, parsing the synced file gives exactly the example's keys, each with the .env value if present
      and the example's otherwise: if and only if every definition of the example that counts starts at column 0
      with an identifier. */
  lemma FaithfulExactlyWhenWellFormed(example: string)
    ensures (forall env :: SyncIsFaithful(example, env)) <==> WellFormed(Lines(example))
  {
    hide SyncIsFaithful, LastMatched, WellFormed, Lines;
    FaithfulExactlyWhenMatched(example);
    MatchedExactly(Lines(example));
  }

  /** A key whose definition that counts does not start at column 0 with an identifier loses some .env value. */
  lemma UnmatchedKeyIsLost(example: string, i: nat, key: string)
    ensures i < |Lines(example)| && Counts(Lines(example), i, key) && !Recognised(Lines(example)[i], key) ==>
              exists env :: !SyncIsFaithful(example, env)
  {
    hide SyncIsFaithful, LastMatched, Lines, Counts, Recognised;
    FaithfulExactlyWhenWellFormed(example);
  }

  /** A second sync reproduces the same text, for every .env, if and only if the example is settled. */
  lemma IdempotentExactlyWhenSettled(example: string)
    ensures (forall env :: Idempotent(example, env)) <==> Settled(Lines(example))
  {
    hide Idempotent, MatchedAlike, Settled, Lines;
    IdempotentExactlyWhenMatchedAlike(example);
    MatchedExactly(Lines(example));
  }

  /** Every well-formed example is settled, so syncing it twice changes nothing more. */
  lemma WellFormedIsSettled(lines: seq<string>)
    requires WellFormed(lines)
    ensures Settled(lines)
  {
    hide Counts, Recognised;
  }

  /** The synced file line by line: a recognised definition of a key that .env defines otherwise is written anew with
      that value; every other line is the example's own. */
  lemma SyncedLineExactly(example: string, env: string, i: nat)
    requires i < |Lines(example)|
    ensures |Lines(Synced(example, env))| == |Lines(example)|
    ensures var line, before, vars := Lines(example)[i], Parse(Lines(example)), Parse(Lines(env));
            && (forall key :: Recognised(line, key) && key in vars && key in before && vars[key] != before[key] ==>
                  Lines(Synced(example, env))[i] == key + "=" + vars[key])
            && ((forall key :: Recognised(line, key) ==> key !in vars || key !in before || vars[key] == before[key]) ==>
                  Lines(Synced(example, env))[i] == line)
  {
    hide Lines, Parse, MatchKey, Recognised, Synced;
    SyncedLines(example, env);
    var line := Lines(example)[i];
    forall key ensures MatchKey(line) == Some(key) <==> Recognised(line, key) { MatchExactly(line, key); }
  }

  /** What is counted: the recognised definitions whose key differs, and those whose key does not. */
  lemma CountedExactly(lines: seq<string>, keys: set<string>, among: bool, j: nat)
    ensures j in DefinitionLines(lines, |lines|, keys, among)
       <==> j < |lines| && exists key :: Recognised(lines[j], key) && (key in keys) == among
  {
    hide MatchKey, Recognised;
    if j < |lines| {
      forall key ensures MatchKey(lines[j]) == Some(key) <==> Recognised(lines[j], key) { MatchExactly(lines[j], key); }
    }
  }
}
