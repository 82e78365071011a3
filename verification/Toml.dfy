/** MELRA's tables in a Codex config: taken out and put in again line by line, and read back. */
module Toml {
  import opened Units
  import opened Rows
  import Strings
  import StrictJson
  import opened Values

  const HASH: Unit := 35
  const EQUALS: Unit := 61

  /** `mcp_servers.melra`, and the two settings read from it. */
  const MELRA: Text := [109, 99, 112, 95, 115, 101, 114, 118, 101, 114, 115, 46, 109, 101, 108, 114, 97]
  const COMMAND: Text := [99, 111, 109, 109, 97, 110, 100]
  const ARGS: Text := [97, 114, 103, 115]
  const ENV: Text := [46, 101, 110, 118]

  // ----- Lines and table headers -----

  /** `split(/\r?\n/)`. */
  function Lines(text: Text): (lines: seq<Text>)
    ensures lines != []
  {
    var rows := Split(text);
    seq(|rows|, i requires 0 <= i < |rows| => if i < |rows| - 1 then Bare(rows[i]) else rows[i])
  }

  predicate NoBreaks(s: Text) {
    forall u <- s :: !IsBreak(u)
  }

  /** After the name: a second bracket perhaps, blanks, and perhaps a comment. */
  predicate EndsHeader(after: Text) {
    var rest := TrimStart(if after != [] && after[0] == RBRACKET then after[1..] else after);
    rest == [] || (rest[0] == HASH && NoBreaks(rest[1..]))
  }

  /** The name inside brackets, blanks around it aside; a name of blanks alone is one. */
  function Inner(s: Text): Option<Text> {
    var k := Find(s, RBRACKET);
    if k == 0 || k == |s| || !EndsHeader(s[k + 1..]) then None
    else
      var name := TrimEnd(TrimStart(s[..k]));
      Some(if name == [] then [s[k - 1]] else name)
  }

  /** The table a header line opens, in one bracket or two. */
  function Header(line: Text): Option<Text> {
    var s := TrimStart(line);
    if s == [] || s[0] != LBRACKET then None
    else
      var twice := if |s| > 1 && s[1] == LBRACKET then Inner(s[2..]) else None;
      if twice.Some? then twice else Inner(s[1..])
  }

  // ----- Taking the tables out -----

  /** MELRA's table or one below it. */
  predicate IsMelra(table: Text) {
    table == MELRA || MELRA + [DOT] <= table
  }

  predicate Skips(line: Text, skipping: bool) {
    match Header(line)
    case None => skipping
    case Some(table) => IsMelra(table)
  }

  function Kept(lines: seq<Text>, skipping: bool): seq<Text> {
    if lines == [] then []
    else
      var skips := Skips(lines[0], skipping);
      (if skips then [] else [lines[0]]) + Kept(lines[1..], skips)
  }

  function WithoutTables(toml: Text): Text {
    TrimEnd(Join(Kept(Lines(toml), false)))
  }

  method WithoutMelraTables(toml: Text) returns (kept: Text)
    ensures kept == WithoutTables(toml)
  {
    hide Header, IsMelra, Lines, Join, TrimEnd;
    var lines := Lines(toml);
    var left: seq<Text> := [];
    var skipping := false;
    for i := 0 to |lines|
      invariant left + Kept(lines[i..], skipping) == Kept(lines, false)
    {
      var header := Header(lines[i]);
      if header.Some? {
        skipping := IsMelra(header.value);
      }
      assert lines[i..][1..] == lines[i + 1..];
      if !skipping {
        left := left + [lines[i]];
      }
    }
    assert left + [] == left;
    kept := TrimEnd(Join(left));
  }

  // ----- Putting them in -----

  datatype Entry = Entry(command: Text, args: seq<Text>, env: seq<(Text, Text)>)

  function Setting(key: Text, value: Text): Text {
    key + [SPACE, EQUALS, SPACE] + value
  }

  function EnvRows(env: seq<(Text, Text)>): seq<Text> {
    if env == [] then [] else [Setting(env[0].0, Strings.Quote(env[0].1))] + EnvRows(env[1..])
  }

  function Bracketed(name: Text): Text {
    [LBRACKET] + name + [RBRACKET]
  }

  function TableRows(entry: Entry): seq<Text> {
    [Bracketed(MELRA), Setting(COMMAND, Strings.Quote(entry.command)), Setting(ARGS, StrictJson.List(entry.args)), [],
     Bracketed(MELRA + ENV)]
    + EnvRows(entry.env) + [[]]
  }

  function CodexToml(entry: Entry): Text {
    Join(TableRows(entry))
  }

  /** The file with MELRA's tables in it, in place of any it had. */
  function WithTables(existing: Text, entry: Entry): Text {
    var kept := WithoutTables(existing);
    if kept == [] then CodexToml(entry) else kept + [LF, LF] + CodexToml(entry)
  }

  // ----- Reading them -----

  datatype Reading = Reading(inside: bool, command: Option<Value>, args: seq<Text>)

  function TextsOf(items: seq<Value>): seq<Text> {
    if items == [] then []
    else (if items[0].Str? then [items[0].s] else []) + TextsOf(items[1..])
  }

  function StringsOf(value: Value): seq<Text> {
    if value.Arr? then TextsOf(value.items) else []
  }

  /** What follows `key =` on a line, trimmed. */
  function ValueAfter(key: Text, line: Text): Option<Text> {
    var s := TrimStart(line);
    if !(key <= s) then None
    else
      var t := TrimStart(s[|key|..]);
      if t == [] || t[0] != EQUALS then None
      else
        var value := TrimEnd(TrimStart(t[1..]));
        if value == [] || !NoBreaks(value) then None else Some(value)
  }

  function ReadLine(line: Text, r: Reading): Reading {
    match Header(line)
    case Some(table) => r.(inside := table == MELRA)
    case None =>
      if !r.inside then r
      else
        var command, args := ValueAfter(COMMAND, line), ValueAfter(ARGS, line);
        if command.Some? then
          var value := StrictJson.Parse(command.value);
          if value.Some? then r.(command := value) else r
        else if args.Some? then
          var value := StrictJson.Parse(args.value);
          if value.Some? then r.(args := StringsOf(value.value)) else r
        else r
  }

  function ReadLines(lines: seq<Text>, r: Reading): Reading {
    if lines == [] then r else ReadLines(lines[1..], ReadLine(lines[0], r))
  }

  function LaunchOf(r: Reading): Option<seq<Text>> {
    if r.command.Some? && r.command.value.Str? then Some([r.command.value.s] + r.args) else None
  }

  function Launch(toml: Text): Option<seq<Text>> {
    LaunchOf(ReadLines(Lines(toml), Reading(false, None, [])))
  }

  method CodexLaunch(toml: Text) returns (launch: Option<seq<Text>>)
    ensures launch == Launch(toml)
  {
    hide Header, Lines, ValueAfter, StrictJson.Parse, StringsOf, LaunchOf;
    var lines := Lines(toml);
    var inside, command, args := false, None, [];
    for i := 0 to |lines|
      invariant ReadLines(lines[i..], Reading(inside, command, args)) == ReadLines(lines, Reading(false, None, []))
    {
      assert lines[i..][1..] == lines[i + 1..];
      var line := lines[i];
      var header := Header(line);
      if header.Some? {
        inside := header.value == MELRA;
        continue;
      }
      if !inside {
        continue;
      }
      var value := ValueAfter(COMMAND, line);
      if value.Some? {
        var parsed := StrictJson.Parse(value.value);
        command := if parsed.Some? then parsed else command;
      } else {
        value := ValueAfter(ARGS, line);
        if value.Some? {
          var parsed := StrictJson.Parse(value.value);
          args := if parsed.Some? then StringsOf(parsed.value) else args;
        }
      }
    }
    launch := LaunchOf(Reading(inside, command, args));
  }

  // ----- What is kept -----

  /** The nearest header at or above line `i` is one of MELRA's. */
  ghost predicate Under(lines: seq<Text>, i: nat)
    requires i < |lines|
  {
    exists h :: 0 <= h <= i && OpensMelra(lines[h]) && forall k :: h < k <= i ==> Header(lines[k]).None?
  }

  predicate OpensMelra(line: Text) {
    Header(line).Some? && IsMelra(Header(line).value)
  }

  /** Whether the filter is skipping after `lines`. */
  function SkippingAfter(lines: seq<Text>, skipping: bool): bool {
    if lines == [] then skipping else SkippingAfter(lines[1..], Skips(lines[0], skipping))
  }

  lemma {:induction false} KeptOn(a: seq<Text>, b: seq<Text>, skipping: bool)
    ensures Kept(a + b, skipping) == Kept(a, skipping) + Kept(b, SkippingAfter(a, skipping))
    ensures SkippingAfter(a + b, skipping) == SkippingAfter(b, SkippingAfter(a, skipping))
  {
    hide Skips;
    if a == [] {
      assert a + b == b;
    } else {
      assert (a + b)[1..] == a[1..] + b;
      KeptOn(a[1..], b, Skips(a[0], skipping));
    }
  }

  lemma KeptOne(line: Text, skipping: bool)
    ensures Kept([line], skipping) == if Skips(line, skipping) then [] else [line]
    ensures SkippingAfter([line], skipping) == Skips(line, skipping)
  {
    hide Skips;
    var lines := [line];
    assert |lines[1..]| == 0;
  }

  lemma {:induction false} SkippingIsUnder(lines: seq<Text>, n: nat)
    requires n < |lines|
    ensures SkippingAfter(lines[..n + 1], false) <==> Under(lines, n)
    decreases n
  {
    hide Header, IsMelra;
    assert lines[..n + 1] == lines[..n] + [lines[n]];
    KeptOn(lines[..n], [lines[n]], false);
    KeptOne(lines[n], SkippingAfter(lines[..n], false));
    if n == 0 {
      assert lines[..n] == [];
    } else {
      SkippingIsUnder(lines, n - 1);
      assert lines[..n - 1 + 1] == lines[..n];
      UnderStep(lines, n);
    }
  }

  lemma UnderStep(lines: seq<Text>, n: nat)
    requires 0 < n < |lines|
    ensures Under(lines, n) <==> if Header(lines[n]).Some? then OpensMelra(lines[n]) else Under(lines, n - 1)
  {
    hide Header, IsMelra;
    if Header(lines[n]).None? && Under(lines, n - 1) {
      var h :| 0 <= h <= n - 1 && OpensMelra(lines[h]) && forall k :: h < k <= n - 1 ==> Header(lines[k]).None?;
      assert Under(lines, n);
    }
  }

  /** The lines among the first `n` that are in none of MELRA's tables, in order. */
  ghost function Survivors(lines: seq<Text>, n: nat): seq<Text>
    requires n <= |lines|
  {
    if n == 0 then [] else Survivors(lines, n - 1) + if Under(lines, n - 1) then [] else [lines[n - 1]]
  }

  /** The filter keeps exactly those. */
  lemma {:induction false} KeepsTheRest(lines: seq<Text>, n: nat)
    requires n <= |lines|
    ensures Kept(lines[..n], false) == Survivors(lines, n)
  {
    hide Header, IsMelra, Under;
    if n > 0 {
      assert lines[..n - 1 + 1] == lines[..n - 1] + [lines[n - 1]];
      KeptOn(lines[..n - 1], [lines[n - 1]], false);
      SkippingIsUnder(lines, n - 1);
      KeptOne(lines[n - 1], SkippingAfter(lines[..n - 1], false));
      KeepsTheRest(lines, n - 1);
    }
  }
}
