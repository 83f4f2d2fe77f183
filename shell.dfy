/** Userland/Shell/shell.c: the line editor, the command-line parser and
    the history ring of the shell.

    The line buffer and its copy for the history are the two static
    1024-byte arrays, `buffer_dim` counts the characters typed into them,
    and `command_history` is ten stored lines (each the C string held in
    its row).  `strtok(…, " ")` is the sequence `Tokens` of the line's
    space-separated words, and `strchr` is `FirstIndexOf`.  Which
    `malloc` of `parseCommand` returns NULL, if any, is passed in. */
module Shell {
  import opened Common
  import opened KernelStrings

  const MAX_BUFFER_SIZE: nat := 1024
  const HISTORY_SIZE: nat := 10
  const MAX_ARGUMENT_COUNT: nat := 64
  const MAX_ARGUMENT_SIZE: nat := 256

  const CTRL_C: char := 3 as char
  const CTRL_D: char := 4 as char
  const BACKSPACE: char := 8 as char
  const DELETE: char := 127 as char

  // ----- ring arithmetic -----

  /** `SUB_MOD(a, b, m)`: `a - b` brought back into `[0, m)`. */
  function SubMod(a: int, b: int, m: int): (r: int)
    ensures 0 <= a < m && 0 <= b < m ==> 0 <= r < m && (r == a - b || r == a - b + m)
  {
    if a - b < 0 then m - b + a else a - b
  }

  /** `INC_MOD(x, m)`. */
  function IncMod(x: int, m: int): (r: int)
    requires m > 0
    ensures 0 <= r < m
    ensures 0 <= x < m - 1 ==> r == x + 1
    ensures x == m - 1 ==> r == 0
  {
    (x + 1) % m
  }

  /** `DEC_MOD(x, m)`. */
  function DecMod(x: int, m: int): (r: int)
    ensures 0 <= x < m ==> 0 <= r < m
    ensures 0 < x < m ==> r == x - 1
    ensures x == 0 && m > 0 ==> r == m - 1
  {
    SubMod(x, 1, m)
  }

  /** Stepping the history index forward and back returns to where it was. */
  lemma IncDec(x: int, m: int)
    requires 0 <= x < m
    ensures DecMod(IncMod(x, m), m) == x
    ensures IncMod(DecMod(x, m), m) == x
  {
  }

  // ----- characters and words -----

  /** `isspace` in the C locale. */
  predicate IsSpace(c: char) {
    c == ' ' || c == '\t' || c == '\n' || c == 11 as char || c == 12 as char || c == '\r'
  }

  /** The number of leading white-space characters of `s`. */
  function Lead(s: seq<char>): (n: nat)
    ensures n <= |s|
    ensures forall k :: 0 <= k < n ==> IsSpace(s[k])
    ensures n < |s| ==> !IsSpace(s[n])
    decreases |s|
  {
    if |s| > 0 && IsSpace(s[0]) then 1 + Lead(s[1..]) else 0
  }

  /** Where the trailing white space of `s` begins, looking no further
      back than `lo`. */
  function TrailEnd(s: seq<char>, lo: nat): (e: nat)
    requires lo <= |s|
    ensures lo <= e <= |s|
    ensures forall k :: e <= k < |s| ==> IsSpace(s[k])
    ensures e > lo ==> !IsSpace(s[e - 1])
    decreases |s|
  {
    if |s| > lo && IsSpace(s[|s| - 1]) then
      var e := TrailEnd(s[..|s| - 1], lo);
      assert forall k :: e <= k < |s| - 1 ==> s[..|s| - 1][k] == s[k];
      e
    else |s|
  }

  lemma LeadUnique(s: seq<char>, n: nat)
    requires n <= |s| && (forall k :: 0 <= k < n ==> IsSpace(s[k])) && (n < |s| ==> !IsSpace(s[n]))
    ensures Lead(s) == n
  {
  }

  lemma TrailEndUnique(s: seq<char>, lo: nat, e: nat)
    requires lo <= e <= |s| && (forall k :: e <= k < |s| ==> IsSpace(s[k])) && (e > lo ==> !IsSpace(s[e - 1]))
    ensures TrailEnd(s, lo) == e
  {
  }

  /** `s` without its leading and trailing white space. */
  function Trim(s: seq<char>): (r: seq<char>)
    ensures Lead(s) + |r| <= |s| && r == s[Lead(s)..Lead(s) + |r|]
    ensures forall k :: 0 <= k < Lead(s) ==> IsSpace(s[k])
    ensures forall k :: Lead(s) + |r| <= k < |s| ==> IsSpace(s[k])
    ensures r != [] ==> !IsSpace(r[0]) && !IsSpace(r[|r| - 1])
  {
    s[Lead(s)..TrailEnd(s, Lead(s))]
  }

  /** Trimming twice trims no more. */
  lemma TrimIdempotent(s: seq<char>)
    ensures Trim(Trim(s)) == Trim(s)
  {
    var t := Trim(s);
    LeadUnique(t, 0);
    TrailEndUnique(t, 0, |t|);
  }

  /** Only a line of white space trims to nothing. */
  lemma TrimBlank(s: seq<char>)
    ensures Trim(s) == [] <==> forall k :: 0 <= k < |s| ==> IsSpace(s[k])
  {
    if forall k :: 0 <= k < |s| ==> IsSpace(s[k]) {
      LeadUnique(s, |s|);
    }
  }

  /** The length of the word at the front of `s`. */
  function WordLength(s: seq<char>): (n: nat)
    requires |s| > 0 && s[0] != ' '
    ensures 1 <= n <= |s|
    ensures forall k :: 0 <= k < n ==> s[k] != ' '
    ensures n < |s| ==> s[n] == ' '
    decreases |s|
  {
    if |s| == 1 || s[1] == ' ' then 1 else 1 + WordLength(s[1..])
  }

  /** The tokens `strtok(s, " ")` hands out, in order: the maximal
      non-empty runs of characters other than a space. */
  function Tokens(s: seq<char>): (r: seq<string>)
    ensures forall k :: 0 <= k < |r| ==> r[k] != [] && ' ' !in r[k]
    decreases |s|
  {
    if |s| == 0 then []
    else if s[0] == ' ' then Tokens(s[1..])
    else
      var n := WordLength(s);
      [s[..n]] + Tokens(s[n..])
  }

  /** `strchr(s, c)`: the first position of `c`. */
  function FirstIndexOf(s: seq<char>, c: char): (r: Option<nat>)
    ensures r.Some? ==> r.value < |s| && s[r.value] == c && c !in s[..r.value]
    ensures r.None? ==> c !in s
    decreases |s|
  {
    if |s| == 0 then None
    else if s[0] == c then Some(0)
    else
      var rest := FirstIndexOf(s[1..], c);
      if rest.Some? then
        assert s[..rest.value + 1] == [s[0]] + s[1..][..rest.value];
        Some(rest.value + 1)
      else None
  }

  // ----- the command table and parseCommand -----

  datatype CommandEntry = CommandEntry(name: string, builtIn: bool)

  /** The `commands` table, without its NULL terminator; only `exit` and
      `history` run inside the shell. */
  const COMMANDS: seq<CommandEntry> := [
    CommandEntry("block", false), CommandEntry("cat", false), CommandEntry("clear", false),
    CommandEntry("divzero", false), CommandEntry("exit", true), CommandEntry("filter", false),
    CommandEntry("font", false), CommandEntry("help", false), CommandEntry("history", true),
    CommandEntry("invop", false), CommandEntry("kill", false), CommandEntry("loop", false),
    CommandEntry("man", false), CommandEntry("mem", false), CommandEntry("mvar", false),
    CommandEntry("nice", false), CommandEntry("ps", false), CommandEntry("regs", false),
    CommandEntry("time", false), CommandEntry("tmm", false), CommandEntry("tnosync", false),
    CommandEntry("tprio", false), CommandEntry("tproc", false), CommandEntry("tsem", false),
    CommandEntry("tsync", false), CommandEntry("wc", false)
  ]

  function LookupFrom(table: seq<CommandEntry>, name: string, i: nat): (r: Option<nat>)
    requires i <= |table|
    ensures r.Some? ==> i <= r.value < |table| && table[r.value].name == name
    ensures r.Some? ==> forall k :: i <= k < r.value ==> table[k].name != name
    ensures r.None? ==> forall k :: i <= k < |table| ==> table[k].name != name
    decreases |table| - i
  {
    if i == |table| then None
    else if table[i].name == name then Some(i)
    else LookupFrom(table, name, i + 1)
  }

  /** The first entry of the table named `name` (exact `strcmp`). */
  function Lookup(table: seq<CommandEntry>, name: string): (r: Option<nat>)
    ensures r.Some? ==> r.value < |table| && table[r.value].name == name
    ensures r.Some? ==> forall k :: 0 <= k < r.value ==> table[k].name != name
    ensures r.None? ==> forall k :: 0 <= k < |table| ==> table[k].name != name
  {
    LookupFrom(table, name, 0)
  }

  /** `strncpy(command, token, MAX_ARGUMENT_SIZE - 1)` followed by the
      terminating NUL at the last position. */
  function Truncated(token: string): (r: string)
    ensures |r| <= MAX_ARGUMENT_SIZE - 1 && |r| <= |token| && r == token[..|r|]
    ensures |token| <= MAX_ARGUMENT_SIZE - 1 ==> r == token
  {
    if |token| <= MAX_ARGUMENT_SIZE - 1 then token else token[..MAX_ARGUMENT_SIZE - 1]
  }

  /** The first token at or after `t` that is not `"|"`. */
  function SkipPipes(ts: seq<string>, t: nat): (u: nat)
    requires t <= |ts|
    ensures t <= u <= |ts|
    ensures forall k :: t <= k < u ==> ts[k] == "|"
    ensures u < |ts| ==> ts[u] != "|"
    decreases |ts| - t
  {
    if t < |ts| && ts[t] == "|" then SkipPipes(ts, t + 1) else t
  }

  /** Where the argument loop stops when it reaches token `a` holding
      `argc` arguments: at the end, at a `"|"`, or with
      `MAX_ARGUMENT_COUNT - 1` arguments. */
  function ArgEnd(ts: seq<string>, a: nat, argc: nat): (e: nat)
    requires a <= |ts|
    ensures a <= e <= |ts|
    ensures forall k :: a <= k < e ==> ts[k] != "|"
    ensures argc < MAX_ARGUMENT_COUNT - 1 ==> argc + (e - a) <= MAX_ARGUMENT_COUNT - 1
    ensures e == |ts| || ts[e] == "|" || argc + (e - a) >= MAX_ARGUMENT_COUNT - 1
    decreases |ts| - a
  {
    if a < |ts| && ts[a] != "|" && argc < MAX_ARGUMENT_COUNT - 1 then ArgEnd(ts, a + 1, argc + 1) else a
  }

  /** A filled `ParsedCommand`: the table entry, `argv` (the name first;
      `argc` is its length and `argv[argc]` is NULL) and the built-in flag. */
  datatype ParsedCommand = ParsedCommand(index: nat, argv: seq<string>, builtIn: bool)

  /** The outcomes of `parseCommand`: 0 (no token), -1 (an unknown name
      or a `malloc` returning NULL), or 1 with the command filled.  The
      token is what was copied into `command`. */
  datatype ParseResult = NoCommand | Unknown(token: string) | OutOfMemory(token: string) | Parsed(command: ParsedCommand)

  /** `parseCommand`'s return value. */
  function Status(r: ParseResult): int {
    match r
    case NoCommand => 0
    case Unknown(_) => -1
    case OutOfMemory(_) => -1
    case Parsed(_) => 1
  }

  /** What `parseCommand` does to `text`; `failAt == Some(k)` says that the
      `malloc` for `argv[k]` (the name for `k == 0`) returns NULL. */
  function ParseSpec(table: seq<CommandEntry>, text: seq<char>, failAt: Option<nat>): ParseResult {
    ParseTokens(table, Tokens(text), failAt)
  }

  /** What `parseCommand` does once `strtok` has split the line into `ts`. */
  function ParseTokens(table: seq<CommandEntry>, ts: seq<string>, failAt: Option<nat>): ParseResult {
    var t := SkipPipes(ts, 0);
    if t == |ts| then NoCommand
    else
      var command := Truncated(ts[t]);
      var index := Lookup(table, command);
      if index.None? then Unknown(command)
      else
        var e := ArgEnd(ts, t + 1, 1);
        if failAt.Some? && failAt.value <= e - (t + 1) then OutOfMemory(command)
        else Parsed(ParsedCommand(index.value, [command] + ts[t + 1..e], table[index.value].builtIn))
  }

  /** A command as `parseCommand` fills it: a table entry's name first,
      then at most 62 non-empty arguments, none of them `"|"`. */
  predicate WellParsed(table: seq<CommandEntry>, c: ParsedCommand) {
    && c.index < |table|
    && 1 <= |c.argv| <= MAX_ARGUMENT_COUNT - 1
    && c.argv[0] == table[c.index].name
    && c.builtIn == table[c.index].builtIn
    && forall k :: 1 <= k < |c.argv| ==> c.argv[k] != [] && ' ' !in c.argv[k] && c.argv[k] != "|"
  }

  /** A command `parseCommand` fills is well formed. */
  lemma ParsedWell(table: seq<CommandEntry>, text: seq<char>, failAt: Option<nat>)
    ensures var r := ParseSpec(table, text, failAt);
            r.Parsed? ==> WellParsed(table, r.command)
  {
    var r := ParseSpec(table, text, failAt);
    if r.Parsed? {
      var ts := Tokens(text);
      var t := SkipPipes(ts, 0);
      var e := ArgEnd(ts, t + 1, 1);
      assert r.command.argv == [Truncated(ts[t])] + ts[t + 1..e];
      forall k | 1 <= k < |r.command.argv|
        ensures r.command.argv[k] != [] && ' ' !in r.command.argv[k] && r.command.argv[k] != "|"
      {
        assert r.command.argv[k] == ts[t + k];
      }
    }
  }

  /** `parseCommand` on success: `argv[0]` is the first entry of the table
      with the name of the first non-`"|"` token, and the tokens after it
      follow in order until the end, a `"|"` or the argument limit. */
  lemma ParsedShape(table: seq<CommandEntry>, ts: seq<string>, failAt: Option<nat>)
    ensures var r := ParseTokens(table, ts, failAt);
            var t := SkipPipes(ts, 0);
            r.Parsed? ==>
              && t < |ts| && r.command.argv[0] == Truncated(ts[t])
              && Lookup(table, r.command.argv[0]) == Some(r.command.index)
              && t + |r.command.argv| <= |ts|
              && r.command.argv[1..] == ts[t + 1..t + |r.command.argv|]
              && (t + |r.command.argv| == |ts| || ts[t + |r.command.argv|] == "|"
                  || |r.command.argv| == MAX_ARGUMENT_COUNT - 1)
  {
    var r := ParseTokens(table, ts, failAt);
    if r.Parsed? {
      var t := SkipPipes(ts, 0);
      var e := ArgEnd(ts, t + 1, 1);
      assert r.command.argv == [Truncated(ts[t])] + ts[t + 1..e];
      assert |r.command.argv| == e - t;
      assert t + |r.command.argv| == e;
      assert r.command.argv[1..] == ts[t + 1..e] == ts[t + 1..t + |r.command.argv|];
    }
  }

  /** `parseCommand` returns 0 exactly when every token is `"|"`. */
  lemma ParseNothing(table: seq<CommandEntry>, text: seq<char>, failAt: Option<nat>)
    ensures var ts := Tokens(text);
            Status(ParseSpec(table, text, failAt)) == 0 <==> forall k :: 0 <= k < |ts| ==> ts[k] == "|"
  {
    var ts := Tokens(text);
    var t := SkipPipes(ts, 0);
    if t < |ts| {
      assert ts[t] != "|";
    }
  }

  /** `parseCommand` reports an unknown name exactly when no entry
      carries the (truncated) first token other than `"|"`, and runs out
      of memory only when a `malloc` fails. */
  lemma ParseFailures(table: seq<CommandEntry>, text: seq<char>, failAt: Option<nat>)
    ensures var r := ParseSpec(table, text, failAt);
            var ts := Tokens(text);
            var u := SkipPipes(ts, 0);
            && (r.Unknown? <==> u < |ts| && forall k :: 0 <= k < |table| ==> table[k].name != Truncated(ts[u]))
            && (failAt.None? ==> !r.OutOfMemory?)
  {
    var r := ParseSpec(table, text, failAt);
    var ts := Tokens(text);
    var t := SkipPipes(ts, 0);
    if t < |ts| && forall k :: 0 <= k < |table| ==> table[k].name != Truncated(ts[t]) {
      assert Lookup(table, Truncated(ts[t])).None?;
    }
    if r.Unknown? {
      assert Lookup(table, Truncated(ts[t])).None?;
    }
  }

  /** `parseCommand`: skips leading `"|"` tokens, copies the next token
      (truncated) as the command name, looks it up in the table, then
      copies arguments until the end, a `"|"` or the limit. */
  method ParseCommand(table: seq<CommandEntry>, text: seq<char>, failAt: Option<nat>) returns (r: ParseResult)
    ensures r == ParseSpec(table, text, failAt)
  {
    var ts := Tokens(text);
    var t := 0;
    while t < |ts| && ts[t] == "|"
      invariant t <= |ts| && SkipPipes(ts, t) == SkipPipes(ts, 0)
    {
      t := t + 1;
    }
    if t == |ts| {
      return NoCommand;
    }
    var command := Truncated(ts[t]);
    var index: int := -1;
    var i := 0;
    while i < |table|
      invariant 0 <= i <= |table|
      invariant forall k :: 0 <= k < i ==> table[k].name != command
    {
      if table[i].name == command {
        index := i;
        break;
      }
      i := i + 1;
    }
    if index == -1 {
      return Unknown(command);
    }
    assert Lookup(table, command) == Some(index);
    if failAt == Some(0) {
      return OutOfMemory(command);
    }
    var argv := CopyArguments(ts, t, command, failAt);
    if argv.None? {
      return OutOfMemory(command);
    }
    return Parsed(ParsedCommand(index, argv.value, table[index].builtIn));
  }

  /** The argument loop of `parseCommand`: `argv` is the name followed by
      the tokens after token `t` up to `ArgEnd`, or None when the `malloc`
      of one of them returns NULL. */
  method CopyArguments(ts: seq<string>, t: nat, command: string, failAt: Option<nat>)
    returns (argv: Option<seq<string>>)
    requires t < |ts| && failAt != Some(0)
    ensures var e := ArgEnd(ts, t + 1, 1);
            argv == if failAt.Some? && failAt.value <= e - (t + 1) then None else Some([command] + ts[t + 1..e])
  {
    var args := [command];
    var a := t + 1;
    while a < |ts| && ts[a] != "|" && |args| < MAX_ARGUMENT_COUNT - 1
      invariant t + 1 <= a <= |ts| && |args| == a - t
      invariant args == [command] + ts[t + 1..a]
      invariant ArgEnd(ts, a, |args|) == ArgEnd(ts, t + 1, 1)
      invariant failAt.Some? ==> failAt.value >= |args|
    {
      if failAt == Some(|args|) {
        return None;
      }
      assert ts[t + 1..a + 1] == ts[t + 1..a] + [ts[a]];
      args := args + [ts[a]];
      a := a + 1;
    }
    return Some(args);
  }

  // ----- one submitted line -----

  /** What `main` makes of a line: more than one `|`, a rejected line
      (with the token it reports as not found, if any), or the commands to
      run. */
  datatype LineResult = TooManyPipes | Rejected(shown: Option<string>) | Accepted(commands: seq<ParsedCommand>)

  /** The token left in `command_token` by a failed `parseCommand`. */
  function Shown(r: ParseResult): Option<string> {
    match r
    case Unknown(t) => Some(t)
    case OutOfMemory(t) => Some(t)
    case _ => None
  }

  /** `main`'s handling of an entered line: the split at the first `|`,
      the trimming of both parts and the parse of each. */
  function LineSpec(table: seq<CommandEntry>, text: seq<char>, failFirst: Option<nat>, failSecond: Option<nat>): LineResult {
    var p := FirstIndexOf(text, '|');
    if p.Some? && '|' in text[p.value + 1..] then TooManyPipes
    else if p.None? then PartsSpec(table, Trim(text), None, failFirst, failSecond)
    else PartsSpec(table, Trim(text[..p.value]), Some(Trim(text[p.value + 1..])), failFirst, failSecond)
  }

  /** The parse of the trimmed parts of a line: the part before the `|`
      and, for a line that holds one, the part after it.  An empty first
      part is refused with nothing reported; an empty second part reports
      the first command's name. */
  function PartsSpec(table: seq<CommandEntry>, first: seq<char>, second: Option<seq<char>>,
                     failFirst: Option<nat>, failSecond: Option<nat>): LineResult {
    if first == [] then Rejected(None)
    else
      var r1 := ParseSpec(table, first, failFirst);
      if !r1.Parsed? then Rejected(Shown(r1))
      else if second.None? then Accepted([r1.command])
      else if second.value == [] then Rejected(Some(r1.command.argv[0]))
      else
        var r2 := ParseSpec(table, second.value, failSecond);
        if r2.Parsed? then Accepted([r1.command, r2.command]) else Rejected(Shown(r2))
  }

  /** Counting the `|` of a line from its first one. */
  lemma PipeCount(text: seq<char>, i: nat)
    requires i < |text| && text[i] == '|' && '|' !in text[..i]
    ensures multiset(text)['|'] == 1 + multiset(text[i + 1..])['|']
  {
    assert text == text[..i] + [text[i]] + text[i + 1..];
  }

  /** A line with two or more `|` is refused, and only such a line. */
  lemma LinePipes(table: seq<CommandEntry>, text: seq<char>, failFirst: Option<nat>, failSecond: Option<nat>)
    ensures LineSpec(table, text, failFirst, failSecond).TooManyPipes? <==> multiset(text)['|'] >= 2
  {
    var p := FirstIndexOf(text, '|');
    if p.Some? {
      var i := p.value;
      PipeCount(text, i);
      assert '|' in text[i + 1..] <==> multiset(text[i + 1..])['|'] >= 1;
      PartsNotTooMany(table, Trim(text[..i]), Some(Trim(text[i + 1..])), failFirst, failSecond);
    } else {
      assert multiset(text)['|'] == 0;
      PartsNotTooMany(table, Trim(text), None, failFirst, failSecond);
    }
  }

  /** Parsing the parts never counts pipes. */
  lemma PartsNotTooMany(table: seq<CommandEntry>, first: seq<char>, second: Option<seq<char>>,
                        failFirst: Option<nat>, failSecond: Option<nat>)
    ensures !PartsSpec(table, first, second, failFirst, failSecond).TooManyPipes?
  {
  }

  /** An accepted line holds one command per part of the split — two
      exactly when it holds a `|` — each as `parseCommand` fills it. */
  lemma LineAccepted(table: seq<CommandEntry>, text: seq<char>, failFirst: Option<nat>, failSecond: Option<nat>)
    ensures var r := LineSpec(table, text, failFirst, failSecond);
            r.Accepted? ==>
              && |r.commands| == multiset(text)['|'] + 1
              && forall k :: 0 <= k < |r.commands| ==> WellParsed(table, r.commands[k])
  {
    var r := LineSpec(table, text, failFirst, failSecond);
    var p := FirstIndexOf(text, '|');
    if p.Some? {
      var i := p.value;
      PipeCount(text, i);
      LineAcceptedPipe(table, text, i, failFirst, failSecond);
      if r.Accepted? {
        assert multiset(text[i + 1..])['|'] == 0;
      }
    } else {
      assert multiset(text)['|'] == 0;
      LineAcceptedPlain(table, text, failFirst, failSecond);
    }
  }

  lemma LineAcceptedPlain(table: seq<CommandEntry>, text: seq<char>, failFirst: Option<nat>, failSecond: Option<nat>)
    requires '|' !in text
    ensures var r := LineSpec(table, text, failFirst, failSecond);
            r.Accepted? ==> |r.commands| == 1 && WellParsed(table, r.commands[0])
  {
    ParsedWell(table, Trim(text), failFirst);
  }

  lemma LineAcceptedPipe(table: seq<CommandEntry>, text: seq<char>, i: nat, failFirst: Option<nat>, failSecond: Option<nat>)
    requires i < |text| && text[i] == '|' && '|' !in text[..i]
    ensures var r := LineSpec(table, text, failFirst, failSecond);
            r.Accepted? ==>
              && '|' !in text[i + 1..] && |r.commands| == 2
              && WellParsed(table, r.commands[0]) && WellParsed(table, r.commands[1])
  {
    assert FirstIndexOf(text, '|') == Some(i);
    ParsedWell(table, Trim(text[..i]), failFirst);
    ParsedWell(table, Trim(text[i + 1..]), failSecond);
  }

  /** `main`'s split-and-parse step for an entered line. */
  method ParseLine(table: seq<CommandEntry>, text: seq<char>, failFirst: Option<nat>, failSecond: Option<nat>)
    returns (r: LineResult)
    ensures r == LineSpec(table, text, failFirst, failSecond)
  {
    var pipe := FirstIndexOf(text, '|');
    if pipe.None? {
      r := ParseParts(table, Trim(text), None, failFirst, failSecond);
      return;
    }
    var first := text[..pipe.value];
    var second := text[pipe.value + 1..];
    if FirstIndexOf(second, '|').Some? {
      return TooManyPipes;
    }
    r := ParseParts(table, Trim(first), Some(Trim(second)), failFirst, failSecond);
  }

  /** The parse of the trimmed parts, in `main`'s order: the first part,
      then the second one. */
  method ParseParts(table: seq<CommandEntry>, first: seq<char>, second: Option<seq<char>>,
                    failFirst: Option<nat>, failSecond: Option<nat>) returns (r: LineResult)
    ensures r == PartsSpec(table, first, second, failFirst, failSecond)
  {
    if first == [] {
      return Rejected(None);
    }
    var r1 := ParseCommand(table, first, failFirst);
    if !r1.Parsed? {
      return Rejected(Shown(r1));
    }
    if second.Some? && second.value != [] {
      var r2 := ParseCommand(table, second.value, failSecond);
      if r2.Parsed? {
        return Accepted([r1.command, r2.command]);
      }
      return Rejected(Shown(r2));
    } else if second.Some? {
      return Rejected(Some(r1.command.argv[0]));
    }
    return Accepted([r1.command]);
  }

  // ----- executeParsedCommands: built-ins and background -----

  /** How `executeParsedCommands` runs what was parsed: nothing, a lone
      built-in inside the shell, a refused pipe holding a built-in, or new
      processes (in the background when flagged). */
  datatype Launch = Nothing | RunBuiltin(command: ParsedCommand) | BuiltinInPipe
                  | Spawn(commands: seq<ParsedCommand>, background: bool)

  /** A trailing `"&"` on the first command. */
  predicate Ampersand(c: ParsedCommand) {
    |c.argv| > 0 && c.argv[|c.argv| - 1] == "&"
  }

  function LaunchOf(cmds: seq<ParsedCommand>): (r: Launch)
    ensures r.Nothing? <==> |cmds| == 0
    ensures r.RunBuiltin? <==> |cmds| == 1 && cmds[0].builtIn
    ensures r.RunBuiltin? ==> r.command == cmds[0]
    ensures r.BuiltinInPipe? <==> |cmds| > 1 && exists k :: 0 <= k < |cmds| && cmds[k].builtIn
    ensures r.Spawn? <==> |cmds| > 0 && forall k :: 0 <= k < |cmds| ==> !cmds[k].builtIn
    ensures r.Spawn? ==> |r.commands| == |cmds| && r.background == Ampersand(cmds[0]) && r.commands[1..] == cmds[1..]
    ensures r.Spawn? ==>
              r.commands[0] == cmds[0].(argv := if r.background then cmds[0].argv[..|cmds[0].argv| - 1] else cmds[0].argv)
  {
    if |cmds| == 0 then Nothing
    else if |cmds| == 1 && cmds[0].builtIn then RunBuiltin(cmds[0])
    else
      var background := Ampersand(cmds[0]);
      var first := if background then cmds[0].(argv := cmds[0].argv[..|cmds[0].argv| - 1]) else cmds[0];
      var commands := [first] + cmds[1..];
      assert forall k :: 0 <= k < |cmds| ==> commands[k].builtIn == cmds[k].builtIn;
      if |commands| > 1 && exists k :: 0 <= k < |commands| && commands[k].builtIn then BuiltinInPipe
      else Spawn(commands, background)
  }

  /** A trailing `"&"` is removed from the first command only, and only it:
      what comes before it stays; a lone built-in keeps it. */
  lemma BackgroundStrip(cmds: seq<ParsedCommand>)
    ensures var r := LaunchOf(cmds);
            && (r.Spawn? && r.background ==> r.commands[0].argv + ["&"] == cmds[0].argv)
            && (r.Spawn? && !r.background ==> r.commands == cmds)
            && (r.RunBuiltin? ==> |cmds| == 1 && r.command == cmds[0])
  {
    var r := LaunchOf(cmds);
    if r.Spawn? && r.background {
      var argv := cmds[0].argv;
      assert argv[..|argv| - 1] + ["&"] == argv;
    }
    if r.Spawn? && !r.background {
      assert r.commands == [cmds[0]] + cmds[1..];
    }
  }

  // ----- the history listing -----

  /** A stored history entry: a C string that fits a row. */
  predicate Stored(e: seq<char>) {
    |e| < MAX_BUFFER_SIZE && '\0' !in e
  }

  /** The history row `k` steps back from row `l`. */
  function Back(l: int, k: int): (r: nat)
    ensures r < HISTORY_SIZE
  {
    (l - k) % HISTORY_SIZE
  }

  lemma BackStep(l: nat, k: nat)
    requires l < HISTORY_SIZE
    ensures Back(DecMod(l, HISTORY_SIZE), k) == Back(l, k + 1)
    ensures Back(l, 0) == l
  {
  }

  /** Counting back from the row before `l` is counting back one more from `l`. */
  lemma BackShift(l: nat, n: nat)
    requires l < HISTORY_SIZE
    ensures Back(l, 0) == l
    ensures forall k :: 0 <= k <= n ==> Back(DecMod(l, HISTORY_SIZE), k) == Back(l, k + 1)
  {
    BackStep(l, 0);
    forall k | 0 <= k <= n
      ensures Back(DecMod(l, HISTORY_SIZE), k) == Back(l, k + 1)
    {
      BackStep(l, k);
    }
  }

  /** The entries the `history` command lists when it starts at row `l`
      having listed `i`. */
  function ListedFrom(h: seq<seq<char>>, l: nat, i: nat): (r: seq<seq<char>>)
    requires |h| == HISTORY_SIZE && l < HISTORY_SIZE && i <= HISTORY_SIZE
    ensures |r| <= HISTORY_SIZE - i
    decreases HISTORY_SIZE - i
  {
    if i == HISTORY_SIZE || h[l] == [] then []
    else [h[l]] + ListedFrom(h, DecMod(l, HISTORY_SIZE), i + 1)
  }

  /** They are non-empty rows, each one further back from `l`. */
  lemma {:induction false} ListedFromRows(h: seq<seq<char>>, l: nat, i: nat)
    requires |h| == HISTORY_SIZE && l < HISTORY_SIZE && i <= HISTORY_SIZE
    ensures var r := ListedFrom(h, l, i);
            forall k :: 0 <= k < |r| ==> r[k] != [] && r[k] == h[Back(l, k)]
    decreases HISTORY_SIZE - i
  {
    if i < HISTORY_SIZE && h[l] != [] {
      var l' := DecMod(l, HISTORY_SIZE);
      var rest := ListedFrom(h, l', i + 1);
      var r := [h[l]] + rest;
      assert ListedFrom(h, l, i) == r;
      ListedFromRows(h, l', i + 1);
      forall k | 0 <= k < |r|
        ensures r[k] != [] && r[k] == h[Back(l, k)]
      {
        if k == 0 {
          BackStep(l, 0);
        } else {
          assert r[k] == rest[k - 1];
          BackStep(l, k - 1);
        }
      }
    }
  }

  /** The row after the last of them is empty, unless the limit stopped
      the listing. */
  lemma {:induction false} ListedFromStops(h: seq<seq<char>>, l: nat, i: nat)
    requires |h| == HISTORY_SIZE && l < HISTORY_SIZE && i <= HISTORY_SIZE
    ensures var r := ListedFrom(h, l, i);
            i + |r| < HISTORY_SIZE ==> h[Back(l, |r|)] == []
    decreases HISTORY_SIZE - i
  {
    BackStep(l, 0);
    if i < HISTORY_SIZE && h[l] != [] {
      var l' := DecMod(l, HISTORY_SIZE);
      var rest := ListedFrom(h, l', i + 1);
      ListedFromStops(h, l', i + 1);
      BackStep(l, |rest|);
    }
  }

  lemma ListedStep(h: seq<seq<char>>, l: nat, i: nat)
    requires |h| == HISTORY_SIZE && l < HISTORY_SIZE && i < HISTORY_SIZE && h[l] != []
    ensures ListedFrom(h, l, i) == [h[l]] + ListedFrom(h, DecMod(l, HISTORY_SIZE), i + 1)
  {
  }

  /** One row more listed: the loop of `history` keeps what is listed
      plus what it has still to list. */
  lemma ListedAdvance(h: seq<seq<char>>, l: nat, i: nat, listed: seq<seq<char>>)
    requires |h| == HISTORY_SIZE && l < HISTORY_SIZE && i < HISTORY_SIZE && h[l] != []
    ensures listed + ListedFrom(h, l, i) == (listed + [h[l]]) + ListedFrom(h, DecMod(l, HISTORY_SIZE), i + 1)
  {
    ListedStep(h, l, i);
  }

  /** Nothing more is listed past the last row or at an empty one. */
  lemma ListedEnd(h: seq<seq<char>>, l: nat, i: nat)
    requires |h| == HISTORY_SIZE && l < HISTORY_SIZE && i <= HISTORY_SIZE
    requires !(i < HISTORY_SIZE && h[l] != [])
    ensures ListedFrom(h, l, i) == []
  {
  }

  /** What `history` lists. */
  function Listed(h: seq<seq<char>>, last: nat): (r: seq<seq<char>>)
    requires |h| == HISTORY_SIZE && last < HISTORY_SIZE
    ensures |r| <= HISTORY_SIZE
  {
    ListedFrom(h, DecMod(last, HISTORY_SIZE), 0)
  }

  /** `history` lists the stored lines newest first: the k-th is the row
      k + 1 back from `last`, none of them empty, and it stops at the first
      empty row or after `HISTORY_SIZE` of them. */
  lemma ListedRows(h: seq<seq<char>>, last: nat)
    requires |h| == HISTORY_SIZE && last < HISTORY_SIZE
    ensures var r := Listed(h, last);
            && (forall k :: 0 <= k < |r| ==> r[k] != [] && r[k] == h[Back(last, k + 1)])
            && (|r| < HISTORY_SIZE ==> h[Back(last, |r| + 1)] == [])
  {
    var r := Listed(h, last);
    ListedFromRows(h, DecMod(last, HISTORY_SIZE), 0);
    ListedFromStops(h, DecMod(last, HISTORY_SIZE), 0);
    BackShift(last, |r|);
  }

  /** A line just stored at `last` is the first one listed. */
  lemma NewestFirst(h: seq<seq<char>>, last: nat, line: seq<char>)
    requires |h| == HISTORY_SIZE && last < HISTORY_SIZE && line != []
    ensures var r := Listed(h[last := line], IncMod(last, HISTORY_SIZE));
            |r| >= 1 && r[0] == line
  {
    IncDec(last, HISTORY_SIZE);
  }

  // ----- the line editor -----

  /** `ZeroedFrom(a, lo, hi)`: `a` with positions `lo` to `hi - 1` set to NUL. */
  function ZeroedFrom(a: seq<char>, lo: nat, hi: nat): (r: seq<char>)
    ensures |r| == |a|
    ensures forall k :: 0 <= k < |a| ==> r[k] == if lo <= k < hi then '\0' else a[k]
  {
    seq(|a|, k requires 0 <= k < |a| => if lo <= k < hi then '\0' else a[k])
  }

  /** The typed line after character `c`: a backspace or DEL drops the
      last character, anything else is appended while there is room. */
  function Edited(line: seq<char>, c: char): (r: seq<char>)
    ensures |line| < MAX_BUFFER_SIZE ==> |r| < MAX_BUFFER_SIZE
    ensures c != BACKSPACE && c != DELETE && |line| < MAX_BUFFER_SIZE - 1 ==> |r| == |line| + 1
    ensures c != BACKSPACE && c != DELETE && |line| < MAX_BUFFER_SIZE - 1 ==> r[..|line|] == line
  {
    if c == BACKSPACE || c == DELETE then
      if line == [] then [] else line[..|line| - 1]
    else if |line| >= MAX_BUFFER_SIZE - 1 then line
    else line + [c]
  }

  /** A backspace takes back what the character before it added. */
  lemma EditUndo(line: seq<char>, c: char)
    requires c != BACKSPACE && c != DELETE && |line| < MAX_BUFFER_SIZE - 1
    ensures Edited(Edited(line, c), BACKSPACE) == line
  {
    assert (line + [c])[..|line|] == line;
  }

  datatype KeyOutcome = Typing | Entered | Cancelled | EndOfInput

  class ShellState {
    /** `buffer` and `command_history_buffer`. */
    const buffer: array<char>
    const historyBuffer: array<char>
    /** `buffer_dim`. */
    var dim: nat
    /** `command_history`: the C string held in each row. */
    var history: seq<seq<char>>
    /** `command_history_last` and `last_command_arrowed`. */
    var last: nat
    var arrowed: nat
    /** The `commands` table. */
    const table: seq<CommandEntry>

    ghost predicate Valid()
      reads this, buffer, historyBuffer
    {
      && buffer.Length == MAX_BUFFER_SIZE && historyBuffer.Length == MAX_BUFFER_SIZE
      && buffer != historyBuffer
      && dim < MAX_BUFFER_SIZE && buffer[..dim] == historyBuffer[..dim]
      && |history| == HISTORY_SIZE && last < HISTORY_SIZE && arrowed < HISTORY_SIZE
      && forall k :: 0 <= k < HISTORY_SIZE ==> Stored(history[k])
    }

    /** The line typed so far. */
    ghost function Line(): seq<char>
      reads this, buffer
      requires dim <= buffer.Length
    {
      buffer[..dim]
    }

    /** The zero-filled static state. */
    constructor ()
      ensures Valid() && fresh(buffer) && fresh(historyBuffer)
      ensures dim == 0 && last == 0 && arrowed == 0 && history == seq(HISTORY_SIZE, _ => []) && table == COMMANDS
      ensures forall k :: 0 <= k < MAX_BUFFER_SIZE ==> buffer[k] == '\0' && historyBuffer[k] == '\0'
    {
      buffer := new char[MAX_BUFFER_SIZE](_ => '\0');
      historyBuffer := new char[MAX_BUFFER_SIZE](_ => '\0');
      dim := 0;
      history := seq(HISTORY_SIZE, _ => []);
      last := 0;
      arrowed := 0;
      table := COMMANDS;
    }

    /** `deleteCharacter`: drops the last character, if there is one. */
    method DeleteCharacter()
      requires Valid()
      modifies this, buffer, historyBuffer
      ensures Valid() && history == old(history) && last == old(last) && arrowed == old(arrowed)
      ensures old(dim) == 0 ==>
                dim == 0 && buffer[..] == old(buffer[..]) && historyBuffer[..] == old(historyBuffer[..])
      ensures old(dim) > 0 ==>
                && dim == old(dim) - 1
                && buffer[..] == old(buffer[..])[dim := '\0']
                && historyBuffer[..] == old(historyBuffer[..])[dim := '\0']
      ensures Line() == Edited(old(Line()), BACKSPACE)
    {
      if dim == 0 {
        return;
      }
      dim := dim - 1;
      buffer[dim] := '\0';
      historyBuffer[dim] := '\0';
      assert buffer[..dim] == old(buffer[..dim])[..dim];
      assert historyBuffer[..dim] == old(historyBuffer[..dim])[..dim];
    }

    /** `appendCharacter`: a backspace or DEL deletes; otherwise the
        character is stored in both buffers while fewer than
        `MAX_BUFFER_SIZE - 1` are typed. */
    method AppendCharacter(c: char)
      requires Valid()
      modifies this, buffer, historyBuffer
      ensures Valid() && history == old(history) && last == old(last) && arrowed == old(arrowed)
      ensures Line() == Edited(old(Line()), c)
      ensures c != BACKSPACE && c != DELETE && old(dim) >= MAX_BUFFER_SIZE - 1 ==>
                dim == old(dim) && buffer[..] == old(buffer[..]) && historyBuffer[..] == old(historyBuffer[..])
      ensures c != BACKSPACE && c != DELETE && old(dim) < MAX_BUFFER_SIZE - 1 ==>
                && dim == old(dim) + 1
                && buffer[..] == old(buffer[..])[old(dim) := c]
                && historyBuffer[..] == old(historyBuffer[..])[old(dim) := c]
      ensures c == BACKSPACE || c == DELETE ==>
                && dim == (if old(dim) == 0 then 0 else old(dim) - 1)
                && buffer[..] == (if old(dim) == 0 then old(buffer[..]) else old(buffer[..])[dim := '\0'])
                && historyBuffer[..] == (if old(dim) == 0 then old(historyBuffer[..]) else old(historyBuffer[..])[dim := '\0'])
    {
      if c == BACKSPACE || c == DELETE {
        DeleteCharacter();
        return;
      }
      if dim >= MAX_BUFFER_SIZE - 1 {
        return;
      }
      buffer[dim] := c;
      historyBuffer[dim] := c;
      dim := dim + 1;
      assert buffer[..dim] == old(buffer[..dim]) + [c];
      assert historyBuffer[..dim] == old(historyBuffer[..dim]) + [c];
    }

    /** `emptyScreenBuffer`: deletes characters until none is left. */
    method EmptyScreenBuffer()
      requires Valid()
      modifies this, buffer, historyBuffer
      ensures Valid() && history == old(history) && last == old(last) && arrowed == old(arrowed)
      ensures dim == 0
      ensures buffer[..] == ZeroedFrom(old(buffer[..]), 0, old(dim))
      ensures historyBuffer[..] == ZeroedFrom(old(historyBuffer[..]), 0, old(dim))
    {
      while dim > 0
        invariant Valid() && history == old(history) && last == old(last) && arrowed == old(arrowed)
        invariant dim <= old(dim)
        invariant buffer[..] == ZeroedFrom(old(buffer[..]), dim, old(dim))
        invariant historyBuffer[..] == ZeroedFrom(old(historyBuffer[..]), dim, old(dim))
        decreases dim
      {
        DeleteCharacter();
      }
    }

    /** The shared tail of `printPreviousCommand` and `printNextCommand`:
        a non-empty row under the arrow replaces the typed line in both
        buffers. */
    method ShowArrowed()
      requires Valid()
      modifies this, buffer, historyBuffer
      ensures Valid() && history == old(history) && last == old(last) && arrowed == old(arrowed)
      ensures var e := history[arrowed];
              if e == [] then
                dim == old(dim) && buffer[..] == old(buffer[..]) && historyBuffer[..] == old(historyBuffer[..])
              else
                && dim == |e|
                && buffer[..] == e + ['\0'] + ZeroedFrom(old(buffer[..]), 0, old(dim))[|e| + 1..]
                && historyBuffer[..] == e + ['\0'] + ZeroedFrom(old(historyBuffer[..]), 0, old(dim))[|e| + 1..]
    {
      var e := history[arrowed];
      if e == [] {
        return;
      }
      assert Stored(history[arrowed]);
      EmptyScreenBuffer();
      ghost var b0 := buffer[..];
      ghost var h0 := historyBuffer[..];
      forall k | 0 <= k < |e| {
        buffer[k] := e[k];
      }
      buffer[|e|] := '\0';
      forall k | 0 <= k < |e| {
        historyBuffer[k] := e[k];
      }
      historyBuffer[|e|] := '\0';
      dim := |e|;
      assert buffer[..] == e + ['\0'] + b0[|e| + 1..];
      assert historyBuffer[..] == e + ['\0'] + h0[|e| + 1..];
      assert buffer[..dim] == e == historyBuffer[..dim];
    }

    /** `printPreviousCommand`: the arrow moves one row back. */
    method PreviousCommand()
      requires Valid()
      modifies this, buffer, historyBuffer
      ensures Valid() && history == old(history) && last == old(last)
      ensures arrowed == DecMod(old(arrowed), HISTORY_SIZE)
      ensures history[arrowed] != [] ==> Line() == history[arrowed]
      ensures history[arrowed] == [] ==>
                dim == old(dim) && buffer[..] == old(buffer[..]) && historyBuffer[..] == old(historyBuffer[..])
    {
      arrowed := SubMod(arrowed, 1, HISTORY_SIZE);
      ShowArrowed();
    }

    /** `printNextCommand`: the arrow moves one row forward. */
    method NextCommand()
      requires Valid()
      modifies this, buffer, historyBuffer
      ensures Valid() && history == old(history) && last == old(last)
      ensures arrowed == IncMod(old(arrowed), HISTORY_SIZE)
      ensures history[arrowed] != [] ==> Line() == history[arrowed]
      ensures history[arrowed] == [] ==>
                dim == old(dim) && buffer[..] == old(buffer[..]) && historyBuffer[..] == old(historyBuffer[..])
    {
      arrowed := (arrowed + 1) % HISTORY_SIZE;
      ShowArrowed();
    }

    /** One character of `main`'s reading loop: a newline ends the line,
        Ctrl-C empties it, Ctrl-D on an empty line ends the shell and is
        ignored otherwise, anything else goes to `appendCharacter`. */
    method Key(c: char) returns (k: KeyOutcome)
      requires Valid()
      modifies this, buffer, historyBuffer
      ensures Valid() && history == old(history) && last == old(last) && arrowed == old(arrowed)
      ensures k == (if c == '\n' then Entered else if c == CTRL_C then Cancelled
                    else if c == CTRL_D && old(dim) == 0 then EndOfInput else Typing)
      ensures c == '\n' || c == CTRL_D ==>
                dim == old(dim) && buffer[..] == old(buffer[..]) && historyBuffer[..] == old(historyBuffer[..])
      ensures c == CTRL_C ==> dim == 0 && Line() == []
      ensures k == Typing && c != CTRL_D ==> Line() == Edited(old(Line()), c)
    {
      if c == '\n' {
        return Entered;
      }
      if c == CTRL_C {
        EmptyScreenBuffer();
        buffer[0] := '\0';
        historyBuffer[0] := '\0';
        dim := 0;
        return Cancelled;
      }
      if c == CTRL_D {
        if dim == 0 {
          return EndOfInput;
        }
        return Typing;
      }
      AppendCharacter(c);
      return Typing;
    }

    /** The rest of `main`'s loop for an entered line: the line is ended
        with a NUL and parsed; an accepted line is stored at
        `command_history_last`, which moves forward (and the arrow with
        it), and is handed on to be run; either way the buffers are left
        empty.  The NULs the C parse writes into `buffer` past its first
        NUL (at the `|`, the `strtok` separators and the trimmed end) are
        not modelled: the bytes past the first NUL are the model's. */
    method Submit(failFirst: Option<nat>, failSecond: Option<nat>) returns (r: LineResult, launch: Launch)
      requires Valid()
      modifies this, buffer, historyBuffer
      ensures Valid() && dim == 0
      ensures var text := CString(old(buffer[..dim]) + ['\0']);
              && r == LineSpec(table, text, failFirst, failSecond)
              && (r.Accepted? ==>
                    && history == old(history)[old(last) := text]
                    && last == IncMod(old(last), HISTORY_SIZE) && arrowed == last
                    && launch == LaunchOf(r.commands))
              && (!r.Accepted? ==>
                    history == old(history) && last == old(last) && arrowed == old(arrowed) && launch == Nothing)
      ensures buffer[..] == old(buffer[..])[old(dim) := '\0'][0 := '\0']
      ensures historyBuffer[..] == old(historyBuffer[..])[old(dim) := '\0'][0 := '\0']
    {
      var text := EndLine();
      r := ParseLine(table, text, failFirst, failSecond);
      launch := Nothing;
      if r.Accepted? {
        Record(text);
        launch := LaunchOf(r.commands);
      }
      ClearLine();
    }

    /** `buffer[buffer_dim] = 0` in both buffers: the entered line is the
        C string they now hold, the same in both. */
    method EndLine() returns (text: seq<char>)
      requires Valid()
      modifies buffer, historyBuffer
      ensures Valid() && Stored(text) && historyBuffer[dim] == '\0'
      ensures text == CString(old(buffer[..dim]) + ['\0']) == CString(historyBuffer[..dim + 1])
      ensures buffer[..] == old(buffer[..])[dim := '\0']
      ensures historyBuffer[..] == old(historyBuffer[..])[dim := '\0']
    {
      buffer[dim] := '\0';
      historyBuffer[dim] := '\0';
      assert buffer[..dim + 1] == old(buffer[..dim]) + ['\0'];
      assert historyBuffer[..dim + 1] == buffer[..dim + 1];
      assert buffer[..dim] == old(buffer[..dim]);
      assert historyBuffer[..dim] == old(historyBuffer[..dim]);
      text := CString(buffer[..dim + 1]);
    }

    /** Stores an accepted line at `command_history_last`, which moves
        forward, and puts the arrow there. */
    method Record(entry: seq<char>)
      requires Valid() && Stored(entry)
      modifies this
      ensures Valid() && dim == old(dim)
      ensures history == old(history)[old(last) := entry]
      ensures last == IncMod(old(last), HISTORY_SIZE) && arrowed == last
    {
      history := history[last := entry];
      last := IncMod(last, HISTORY_SIZE);
      arrowed := last;
    }

    /** `buffer[0] = 0`, `command_history_buffer[0] = 0`, `buffer_dim = 0`. */
    method ClearLine()
      requires Valid()
      modifies this, buffer, historyBuffer
      ensures Valid() && dim == 0
      ensures history == old(history) && last == old(last) && arrowed == old(arrowed)
      ensures buffer[..] == old(buffer[..])[0 := '\0']
      ensures historyBuffer[..] == old(historyBuffer[..])[0 := '\0']
    {
      buffer[0] := '\0';
      historyBuffer[0] := '\0';
      dim := 0;
    }

    /** The `history` command: the rows from the newest back, while they
        are non-empty, at most `HISTORY_SIZE` of them. */
    method History() returns (listed: seq<seq<char>>)
      requires Valid()
      ensures listed == Listed(history, last)
    {
      listed := ListRows(history, last);
    }
  }

  /** The loop of the `history` command over the rows `h`, starting just
      before `last`. */
  method ListRows(h: seq<seq<char>>, last: nat) returns (listed: seq<seq<char>>)
    requires |h| == HISTORY_SIZE && last < HISTORY_SIZE
    ensures listed == Listed(h, last)
  {
    var l := DecMod(last, HISTORY_SIZE);
    var i := 0;
    listed := [];
    while i < HISTORY_SIZE && h[l] != []
      invariant 0 <= l < HISTORY_SIZE && i <= HISTORY_SIZE && |listed| == i
      invariant listed + ListedFrom(h, l, i) == Listed(h, last)
      decreases HISTORY_SIZE - i
    {
      ListedAdvance(h, l, i, listed);
      listed := listed + [h[l]];
      l := DecMod(l, HISTORY_SIZE);
      i := i + 1;
    }
    ListedEnd(h, l, i);
  }

  /** `a` holds the C string `s` at `p`: its characters, then a NUL. */
  ghost predicate HoldsAt(a: seq<char>, p: nat, s: seq<char>) {
    && p + |s| < |a| && a[p + |s|] == '\0'
    && forall k :: 0 <= k < |s| ==> a[p + k] == s[k] && s[k] != '\0'
  }

  /** Its NUL is the first one after `p`. */
  lemma NoNulBefore(a: seq<char>, p: nat, s: seq<char>)
    requires HoldsAt(a, p, s)
    ensures forall i :: p <= i < p + |s| ==> a[i] != '\0'
  {
    forall i | p <= i < p + |s|
      ensures a[i] != '\0'
    {
      assert a[p + (i - p)] == s[i - p];
    }
  }

  /** Where the C string at `p` sits in `a`. */
  lemma CStringAt(a: seq<char>, p: nat)
    requires p <= |a| && '\0' in a[p..]
    ensures HoldsAt(a, p, CString(a[p..]))
  {
    var s := CString(a[p..]);
    assert s + ['\0'] == a[p..][..|s| + 1];
    forall k | 0 <= k < |s|
      ensures a[p + k] == s[k]
    {
      assert (s + ['\0'])[k] == s[k];
    }
  }

  /** Ending the C string at `p` right after its last non-space character
      leaves its trimmed form in place. */
  lemma TrimAt(a: seq<char>, p: nat)
    requires p <= |a| && '\0' in a[p..]
    ensures var s := CString(a[p..]);
            var q := p + Lead(s);
            var e := q + |Trim(s)|;
            e < |a| && a[e := '\0'][q..e] == Trim(s)
  {
    var s := CString(a[p..]);
    CStringAt(a, p);
    var t := Trim(s);
    var q := p + Lead(s);
    var e := q + |t|;
    forall k | 0 <= k < |t|
      ensures a[e := '\0'][q + k] == t[k]
    {
      assert t[k] == s[Lead(s) + k];
    }
  }

  /** `trimWhitespace`: NULL for NULL; otherwise the string at `p` is cut
      short with a NUL after its last non-space character and the result
      points at its first non-space character, so that it holds `Trim`
      of the string. */
  method TrimWhitespace(str: array?<char>, p: nat) returns (r: Option<nat>)
    requires str != null ==> p <= str.Length && '\0' in str[p..]
    modifies str
    ensures str == null ==> r.None?
    ensures str != null ==>
              var s := CString(old(str[p..]));
              var t := Trim(s);
              && r == Some(p + Lead(s))
              && str[..] == old(str[..])[p + Lead(s) + |t| := '\0']
              && str[r.value..r.value + |t|] == t
  {
    if str == null {
      return None;
    }
    ghost var a := str[..];
    ghost var s := CString(a[p..]);
    CStringAt(a, p);
    var q := SkipSpaces(str, p, s);
    var end := SpacesFrom(str, p, s, q);
    TrimAt(a, p);
    str[end] := '\0';
    assert str[..] == a[end := '\0'];
    assert str[q..end] == str[..][q..end];
    return Some(q);
  }

  /** The first loop of `trimWhitespace`: stops at the first character of
      the C string `s` that is not white space. */
  method SkipSpaces(str: array<char>, p: nat, ghost s: seq<char>) returns (q: nat)
    requires HoldsAt(str[..], p, s)
    ensures q == p + Lead(s)
  {
    q := p;
    while str[q] != '\0' && IsSpace(str[q])
      invariant p <= q <= p + |s|
      invariant forall k :: 0 <= k < q - p ==> IsSpace(s[k])
      decreases p + |s| - q
    {
      q := q + 1;
    }
    LeadUnique(s, q - p);
  }

  /** `strlen` and the second loop of `trimWhitespace`: from the end of the
      C string `s` back to just after its last character that is not white
      space, stopping at `q`. */
  method SpacesFrom(str: array<char>, p: nat, ghost s: seq<char>, q: nat) returns (end: nat)
    requires HoldsAt(str[..], p, s) && q == p + Lead(s)
    ensures end == q + |Trim(s)|
  {
    NoNulBefore(str[..], p, s);
    end := q;
    while str[end] != '\0'
      invariant q <= end <= p + |s|
      decreases p + |s| - end
    {
      end := end + 1;
    }
    while end > q
      invariant q <= end <= p + |s|
      invariant forall k :: end - p <= k < |s| ==> IsSpace(s[k])
      decreases end - q
    {
      end := end - 1;
      if !IsSpace(str[end]) {
        end := end + 1;
        break;
      }
    }
    TrailEndUnique(s, q - p, end - p);
  }
}
