# MELRA: proofs about its editors, its file guard and its browser bookkeeping

A Dafny model of four parts of MELRA, with the properties they are written to keep.

- The JSONC parser and in-place editor of the CLI (`Units` to `Chances`): text is a sequence of UTF-16 code units. A
  concrete syntax keeps every unit of a file, `Nodes` gives the offsets the editor works with, and the parser is a class
  with a cursor, proved to return exactly what the grammar says. The editor is then proved to edit the text as `merged`
  edits the parsed value, and what it writes is told in lines, tokens and digits (`Placing`, `Printing`, `Tokens`,
  `Numbers`).
- The TOML and YAML line editors of the CLI and their readers (`Rows`, `StrictJson`, `Toml`, `TomlProofs`, `Yaml`,
  `YamlProofs`), and what they make of files built line by line from names, blanks and comments (`Sections`, `YamlNames`,
  `YamlFiles`, `YamlEdits`). `Characters` gives the words and signs of the model as they are typed.
- The file runtime (`FileTree` to `Writes`): a file system is a map from the paths its entries have once every link is
  followed, with the kernel's lookup over it, `..` in link targets included. The path checks are proved to judge where that
  lookup lands. Base64 content and the write's steps are modelled beside it.
- The browser runtime (`Windows`, `Tracker`, `Ownership`, `Turns`, `Reports`, `Inputs`): window ownership as a transition system over
  every event Chromium, Playwright, a timer or an action can raise, with a class whose handlers are each one step of it;
  the queue of actions as the promises it is made of, with the reports its actions make; and input actions against a page
  that may fail or navigate at any call.

Where the code does not do what it promises, the code is modelled as it is, with the input that shows it:

- `upsertJsonc` looks for the end of a comment from the comment's own first character (apps/cli/src/jsonc.ts:175), so it
  takes `/*/` for a whole comment and may put a member inside one, or behind its object. `Strayed.MemberIsLost` is a
  file in which a member is lost. `Lands` is the guard of an edit: what is stepped over after the last member is
  whole trivia. Every edit that lands commutes with parsing (`JsonEdits.EditCommutes`), a text in which no `/*/` occurs
  always lands (`Landings.AlwaysLands`), and of the edits whose added text holds no star-slash pair exactly those that land
  commute (`Overshoots.LandsExactly`). The condition on the added text is needed: `Chances.MergesByChance` is a file whose
  edit does not land, adds a key that ends the comment it is put in, and parses to the merge all the same.
- The same `upsertJsonc` call made again returns the text it was given, except in one family of files
  (`Twice.TwiceIsOnce`): where the object holds comments alone, the last one followed by a lone carriage return, in a file
  without CRLF, the line feed the first call writes makes a CRLF of it, and the second call renders a value of several lines
  with that ending. `Twice.SecondDiffers` is such a file.
- A second run of the TOML editor is byte-identical exactly when no line it kept ends in a carriage return and the last
  one, trimmed, is no header of MELRA's own (`TomlProofs.TwiceExactly`); a line ended by two carriage returns loses one at
  each run (`TomlProofs.StrayReturn`).

## Model

| member | source | states |
|---|---|---|
| Parser.ParseJsonc | apps/cli/src/jsonc.ts:33-149 | the recursive-descent parser returns exactly the node, offsets and members included, of the one well-formed tree its text is, or fails when there is none |
| Parser.Cursor.Skip | apps/cli/src/jsonc.ts:38-54 | the cursor moves over exactly the blanks and comments there, or the skip fails on an unclosed comment |
| Parser.Cursor.String | apps/cli/src/jsonc.ts:58-71 | the scan by hand takes exactly a string token and decodes it |
| Parser.Cursor.Object | apps/cli/src/jsonc.ts:73-106 | an object's node: every member in order, duplicates kept, and the offset of a trailing comma |
| Parser.Cursor.Array | apps/cli/src/jsonc.ts:108-124 | an array's node and value |
| Parser.Cursor.Parse | apps/cli/src/jsonc.ts:126-143 | a value's node |
| Syntax.TreeIsText | apps/cli/src/jsonc.ts:33-149 | what is read from a text is a well-formed tree whose own text was read |
| Syntax.TreeReads | apps/cli/src/jsonc.ts:126-143 | the text of every well-formed tree, comments and trailing commas included, is read as that tree, whatever follows it that cannot continue a number |
| Strings.ScanFindsToken | apps/cli/src/jsonc.ts:58-65 | the scan by hand ends exactly where a string token of section 7 of RFC 8259 ends, and nowhere else |
| Strings.QuoteReadsBack | apps/cli/src/jsonc.ts:66-70 | a string as JSON.stringify quotes it is a string token and decodes to that string |
| Tokens.TokenIs | apps/cli/src/jsonc.ts:66-70 | a token stands for a string exactly when it is that string's units between quotes, each as it is, by its letter, or in four digits of either case |
| Tokens.QuoteIs | apps/cli/src/jsonc.ts:210-213 | a quoted string has each unit as it is, but for quotes, backslashes, control characters and unpaired surrogates |
| Numbers.NumberIs | apps/cli/src/jsonc.ts:126-143 | a text is a number exactly when it is a minus or none, digits without a leading zero, and a fraction and an exponent where there are any |
| Documents.DocumentReads | apps/cli/src/jsonc.ts:145-148 | a well-formed tree between trivia, behind at most one byte order mark, is parsed as that tree |
| Documents.DocumentIs | apps/cli/src/jsonc.ts:145-148 | whatever parses is such a text |
| Locality.SpanReads | apps/cli/src/jsonc.ts:33-149 | parsing the span of any value in a file, by itself, gives that value |
| Locality.ReplacedReads | apps/cli/src/jsonc.ts:33-149 | replacing the span of any value by the text of another tree parses to the same tree with only that value changed |
| Locality.SpansNest | apps/cli/src/jsonc.ts:17-27 | the span of a value lies strictly inside that of the bracket it is in |
| Locality.SpansAreOrdered | apps/cli/src/jsonc.ts:17-27 | spans of values neither of which holds the other are disjoint, and in the order they are written |
| Locality.OffsetsShift | apps/cli/src/jsonc.ts:17-27 | replacing a value leaves the offsets before it and moves those after it by the change in length |
| Locality.PrintedParses | apps/cli/src/jsonc.ts:210-213 | every JSON value, as an edit renders it with any style, indent and layout, parses back to that value |
| Editor.EndOfTriviaLine | apps/cli/src/jsonc.ts:166-184 | the loop finds the end of the trivia line, or stays |
| Editor.Append | apps/cli/src/jsonc.ts:258-270 | the member is spliced in after the last one, below its line's comments, with the comma the object's style asks for |
| Editor.UpsertJsonc | apps/cli/src/jsonc.ts:195-274 | the walk down the path returns the edited text `Upsert` defines, or throws where it is undefined |
| Placing.AddedBelow | apps/cli/src/jsonc.ts:163-274 | what a file becomes whose object, on lines of its own, gains a member: the old last member keeps the blanks and comments that follow it on its line and gains the comma it lacked, the new one stands on the next line, and all else is as it was |
| Placing.GoesBelow | apps/cli/src/jsonc.ts:258-270 | the same of one insertion, with the indentation of a last member that starts its line, or one step more than the line of the brace, and the CRLF or line feed of the file |
| Placing.GoesBeside | apps/cli/src/jsonc.ts:258-270 | in an object on one line the member follows the last one, or its comma, and a space |
| Placing.GoesFirst | apps/cli/src/jsonc.ts:242-256 | a first member takes the place of the blanks in an empty object, and among comments goes above the line of the closing brace or before the brace |
| Placing.GoesInPlace | apps/cli/src/jsonc.ts:210-227 | a value that is there is kept, or the new one written in its place: on one line where its object is, and otherwise indented as the line of its key |
| Placing.GoesThrough | apps/cli/src/jsonc.ts:201-232 | an edit returns exactly when the text parses to an object and each step of the path is in an object and there at most once |
| Placing.StylePlain | apps/cli/src/jsonc.ts:201-208 | where no member of the root starts its line, the step of indentation is two spaces |
| Placing.StyleWritten | apps/cli/src/jsonc.ts:201-208 | the step of indentation is what the first member that starts its line has more than the line of the brace, two spaces when that is nothing, and the line ending CRLF as soon as the file has one |
| Printing.RenderIs | apps/cli/src/jsonc.ts:210-213 | a rendered value is its rows: each item and member on a line of its own, one step deeper than its bracket, with a comma but on the last, or all of them on one line |
| Commutes.UpsertEdits | apps/cli/src/jsonc.ts:215-271 | an edit of an object in place leaves a well-formed object with the merged fields, and changes only the named member |
| JsonEdits.EditIs | apps/cli/src/jsonc.ts:195-274 | a whole file's edit that lands keeps the text around its object, and the object becomes the merge with only the named member changed |
| JsonEdits.EditCommutes | apps/cli/src/jsonc.ts:195-274 | editing the text and then parsing it is parsing the text and then merging the edit |
| JsonEdits.AppliedMeans | apps/cli/src/clients.ts:673-694 | any fold of edits that land parses to the fold of the merges |
| JsonEdits.CheckNeverFires | apps/cli/src/clients.ts:690-692 | the comparison with the merge never refuses such a fold |
| JsonEdits.WithJsonEdits | apps/cli/src/clients.ts:673-694 | the loop returns the text of the fold after that comparison, and with no guard at all returns a text only if it parses to the merge of every edit |
| JsonEdits.WithJsonListUnion | apps/cli/src/clients.ts:770-777 | the union is a single edit of the list, or nothing |
| JsonEdits.UnionWrites | apps/cli/src/clients.ts:770-777 | where nothing or null is, the list is made of the names; a list of strings is kept before those it misses; anything else is refused |
| JsonEdits.UnionReadsBack | apps/cli/src/clients.ts:770-777 | the list reads back as the old names and then the missing ones, and a second union returns the same text |
| Spared.EditReplacesOneSpan | apps/cli/src/jsonc.ts:186-274 | the text an edit that lands returns is the old text with one span replaced, that of the named value or that of the blanks which fill an empty object on the path, or with something put in, and at most one comma put in before it |
| Spared.OthersKeepTheirText | apps/cli/src/jsonc.ts:186-274 | every other member, at any depth, stands in the edited text under its key, at its place among its siblings, with its exact source text |
| Twice.TwiceIsOnce | apps/cli/src/jsonc.ts:195-274 | the same edit made again leaves the text byte for byte as it is, exactly unless a value of several lines follows a lone carriage return the edit put a line feed after |
| Twice.SecondDiffers | apps/cli/src/jsonc.ts:242-254 | a file the second of two equal edits changes |
| Strayed.MemberIsLost | apps/cli/src/jsonc.ts:174-178 | a file in which the added member is put inside a comment, so that the text returned parses to what the file held and not to the merge |
| Landings.AlwaysLands | apps/cli/src/jsonc.ts:163-184 | in a text without `/*/` every edit lands |
| Strays.CommutesExactly | apps/cli/src/jsonc.ts:163-184 | an edit that does not land and whose addition stays inside its object, in a comment it does not close, leaves the value as it was |
| Wedges.ElemsPut | apps/cli/src/jsonc.ts:33-149 | a written member put before any line break of a well-formed bracket either keeps the text from parsing or leaves everything after it where it was, with no key added but its own |
| Overshoots.PastNeverCommutes | apps/cli/src/jsonc.ts:163-184 | an edit that puts its member behind the object never returns a text that parses to the merge |
| Overshoots.LandsExactly | apps/cli/src/jsonc.ts:163-184 | of the edits whose added text closes no comment, exactly those that land parse to the merge |
| Chances.MergesByChance | apps/cli/src/jsonc.ts:174-178 | a file whose edit does not land and still parses to the merge, because the added key closes the comment |
| Toml.WithoutMelraTables | apps/cli/src/clients.ts:474-488 | the filter with its flag keeps the lines the specification keeps |
| TomlProofs.RestIsKept | apps/cli/src/clients.ts:471-488 | the rewritten file is exactly the lines whose nearest header at or above them is none of MELRA's, in order and as they were but for blanks at their end, then an empty line and MELRA's tables |
| Sections.TablesSurvive | apps/cli/src/clients.ts:471-488 | of a file written as lines and tables, with any blanks and comments in its headers, a rewrite keeps every table but `mcp_servers.melra` and those below it, whole and in order, and nothing of those |
| Toml.CodexLaunch | apps/cli/src/client-status.ts:85-106 | the line reader returns the launch the specification reads |
| StrictJson.ParsesExactly | apps/cli/src/client-status.ts:92-99 | the JSON texts read are exactly those with nothing but blanks between their tokens and no trailing comma, and each has its tree's value |
| TomlProofs.ReadsBack | apps/cli/src/clients.ts:395-405 | of any file, once MELRA's tables are in it, the launch read is the entry's command followed by its arguments |
| Characters.TablesAre | apps/cli/src/clients.ts:395-405 | the tables line by line: the command, the arguments and each variable as JSON quotes them |
| Sections.LaunchTold | apps/cli/src/client-status.ts:85-106 | of a file so written, with any blanks around a setting's parts, the launch is the last command and the last arguments in MELRA's own table |
| TomlProofs.TwiceExactly | apps/cli/src/clients.ts:726-728 | a second run is byte for byte the first exactly when none of those lines ends in a carriage return and the last one, trimmed, opens no table of MELRA's |
| TomlProofs.StrayReturn | apps/cli/src/clients.ts:476-487 | a text that a second run changes |
| Yaml.WithMelraYamlEntry | apps/cli/src/clients.ts:510-574 | the loops over rows return the edited file, or refuse |
| Yaml.ReadItems | apps/cli/src/clients.ts:609-614 | the loop over a block's lines reads its items, up to the line that ends them |
| YamlFiles.ListIsRead | apps/cli/src/clients.ts:576-617 | a list in a file of plain lines is read as exactly the names it is written with, in order: plain or quoted, on one line or on lines below, with blanks, blank lines and comments wherever they may stand |
| YamlNames.ScalarIs | apps/cli/src/clients.ts:576-579 | a name is exactly one or more letters, digits, `_`, `.` and `-`, or what stands between double quotes without those and backslashes, or between single quotes without those |
| YamlEdits.TwoTitles | apps/cli/src/clients.ts:587-592 | a list in a file with two headers of its map is refused |
| YamlEdits.KeyTwice | apps/cli/src/clients.ts:596-599 | as is one whose key the block of its map sets twice |
| YamlEdits.NoKey | apps/cli/src/clients.ts:593-601 | of a block that does not set the key there is no list |
| YamlEdits.NoTitle | apps/cli/src/clients.ts:590-594 | nor of a file without the map |
| YamlEdits.AcceptsExactly | apps/cli/src/clients.ts:510-574 | an edit of a file of lines goes through exactly when no tab indents one, only keys stand in the first column, and the map, if it is there, is there once, with nothing but a comment on its line, and its block has no line less deep than its first one and as deep only keys, and items behind the first |
| YamlEdits.UnionAdds | apps/cli/src/clients.ts:623-629 | a union with a list so written goes through and lists the names written there and then the missing ones |
| YamlProofs.OthersSurvive | apps/cli/src/clients.ts:510-574 | take the new entry's rows out of an edited file, and every row is there, in order, but those of an earlier entry under the key; where the map was not there, every row is, its last line ended, before the map |
| YamlProofs.EntryReadsBack | apps/cli/src/clients.ts:510-618 | whatever file the editor returns, the list is read from it as the names it was given |
| YamlProofs.UnionReadsBack | apps/cli/src/clients.ts:623-629 | a union lists what was listed and then the missing names, and made again it changes nothing |
| FileTree.WalkOn | packages/file-runtime/src/index.ts:97-104 | looking up a path is looking up its rest from where its first part leads, with the links that are left |
| Spellings.RealSpelling | packages/file-runtime/src/index.ts:110-165 | halving finds the same deepest part that resolves as climbing does, in logarithmically many lookups, and every remembered answer, the pre-filled failures included, is the file system's own |
| Spellings.TargetMissing | packages/file-runtime/src/index.ts:151-164 | the target of a link that leads to nothing fails for the same reason, so its failure may be written down |
| LinkWalk.ThroughLinks | packages/file-runtime/src/index.ts:172-189 | the walk over a chain of links, which always ends |
| LinkWalk.NoMeansNowhere | packages/file-runtime/src/index.ts:167-189 | when the walk says no, the judgement holds neither of the path as given nor at any spelling on the way, cycles included |
| LinkWalk.JudgesTheLanding | packages/file-runtime/src/index.ts:167-189 | nor of what a lookup opens or makes, links to missing names followed |
| LinkWalk.RefusesExactly | packages/file-runtime/src/index.ts:94-189 | of every path whose lookup does not run out of links, the walk says yes exactly when the judgement holds on its way: never for length |
| Reserved.ReservedAsSpelled | packages/file-runtime/src/index.ts:595-635 | the climb and the walk by sixteens find a reserved part exactly when some part of the path is one |
| Reserved.ReservedExactly | packages/file-runtime/src/index.ts:558-593 | a path as spelled is reserved exactly when it is below `/dev/fd`, or some part of it that is judged is an entry as spelled, leads to one, is below one, or leads to a file that is one under a second name |
| Reserved.OutOfReach | packages/file-runtime/src/index.ts:558-593 | what a path that is not reserved opens or makes is no reserved entry, nothing below one, and no second name of one; to read, from the parts below the deepest readable directory it lies in on |
| Reserved.HoldsReserved | packages/file-runtime/src/index.ts:642-673 | the set of holders says exactly whether a directory holds a reserved entry |
| Reserved.HoldsExactly | packages/file-runtime/src/index.ts:648-673 | where directories have one name each, exactly the directories some part of an entry's folder leads to, as spelled or with its links followed, whether the folder exists or not |
| Reserved.AlongExactly | packages/file-runtime/src/index.ts:648-673 | of a folder spelled without `..`, whose lookup does not run out of links, those are what its parts lead to and what is above the place the deepest part that exists leads to |
| Reserved.NoneBelow | packages/file-runtime/src/index.ts:637-641 | below a directory that holds none, no name is a reserved entry's |
| Workspace.ResolvePath | packages/file-runtime/src/index.ts:456-520 | the checks in order, with the climb, return the resolution the specification gives |
| Workspace.ReadStaysInside | packages/file-runtime/src/index.ts:477-494 | what an allowed path opens lies in the workspace |
| Workspace.AllowedExactly | packages/file-runtime/src/index.ts:456-520 | a path is allowed exactly when it and what it leads to are in the workspace, nothing on its way is reserved, what is made is in no git directory, what is changed is no coding agent's own file, and what is deleted or moved holds nothing reserved |
| Workspace.TakesNothingReserved | packages/file-runtime/src/index.ts:495-498 | what a delete or a move is allowed to take along is no directory that holds a reserved entry |
| Workspace.WriteStaysInside | packages/file-runtime/src/index.ts:769-822 | a write that goes ahead puts its file in the workspace, in no git directory, and never on or in reserved data |
| Base64.AcceptsExactly | packages/file-runtime/src/index.ts:381-391 | exactly the canonical encodings, blanks and the URL-safe alphabet aside and any of the padding left off, decode, to the bytes they encode |
| Base64.ReadsExactly | packages/file-runtime/src/index.ts:381-391 | accepted are exactly the contents that, blanks taken out and `-` and `_` read as `+` and `/`, spell the bits of some bytes six at a time in the alphabet of section 4 of RFC 4648, filled up with zeros and perhaps paddings; they are read as those bytes |
| Base64.OneMeaning | packages/file-runtime/src/index.ts:381-391 | no text decodes to two contents |
| Base64.DecodeInvertsEncode | packages/file-runtime/src/index.ts:381-391 | what is encoded decodes to itself |
| Writes.Put | packages/file-runtime/src/index.ts:790-824 | whichever step fails or is the last, the target holds its whole old or its whole new content, no other file changes, and the temporary of a file whose permissions are kept is its owner's alone until it is whole |
| Writes.Write | packages/file-runtime/src/index.ts:769-836 | success leaves exactly the decoded bytes and the old permission bits; an error, which only bad or too much content, something in the way or a failing call can cause, leaves everything as it was, but for a temporary that could not be removed |
| Windows.StepKeeps | packages/browser-runtime/src/index.ts:909-964 | every event keeps every invariant of every window |
| Windows.OperatorsWindows | packages/browser-runtime/src/index.ts:909-951 | after any run in a browser attached to, the operator's windows are not counted as the runtime's, waited for or closed, but for those that never said what they are |
| Windows.AdoptsItsOwn | packages/browser-runtime/src/index.ts:1200-1224 | a window that could be looked up and is adopted came of the runtime's doing and was not judged the operator's |
| Ownership.OursExactly | packages/browser-runtime/src/index.ts:909-951 | over every run in a browser attached to, a window is the runtime's, and adopted once it is known, exactly when it was asked for or was created in an action by a page that action may act on, or later by a window of the runtime's, as the events of the run tell |
| Ownership.AwaitedExactly | packages/browser-runtime/src/index.ts:936-949 | a window is waited for exactly from such a creation until it is looked up, destroyed or given up on |
| Ownership.TimedExactly | packages/browser-runtime/src/index.ts:1040-1056 | a popup has a timer exactly from when it was given up on until the timer runs out or it is destroyed, and is closed by it exactly in a launched browser or in the runtime's own context |
| Ownership.DuringExactly | packages/browser-runtime/src/index.ts:1210-1224 | and it is reported as the running action's exactly when that action created it |
| Windows.NoPopupForgotten | packages/browser-runtime/src/index.ts:995-1056 | after any run in a browser launched, a popup to be blocked that still lives is waited for, timed or being closed |
| Windows.WaitedForOnce | packages/browser-runtime/src/index.ts:1009-1023 | a window is waited for by one action at most |
| Windows.GivingUpTimes | packages/browser-runtime/src/index.ts:1040-1056 | giving up leaves nothing owed and every popup to be blocked with a timer |
| Tracker.BrowserRuntime.TargetCreated | packages/browser-runtime/src/index.ts:909-951 | the handler is that step |
| Tracker.BrowserRuntime.TargetDestroyed | packages/browser-runtime/src/index.ts:957-964 | the handler is that step |
| Tracker.BrowserRuntime.Adoptable | packages/browser-runtime/src/index.ts:1210-1224 | the judgement is that step, and says that the window came of the running action exactly when it did |
| Tracker.BrowserRuntime.GiveUpOwed | packages/browser-runtime/src/index.ts:1040-1056 | the loop over owed windows is that step |
| Tracker.BrowserRuntime.FireTimer | packages/browser-runtime/src/index.ts:1045-1050 | the timer is that step |
| Turns.OneAtATime | packages/browser-runtime/src/index.ts:1961-1977 | after any run of calls, promise reactions and ends, at most one action runs, and the shared `acting` flag is that one's |
| Turns.InCallOrder | packages/browser-runtime/src/index.ts:1970-1977 | the actions that began are the first called, in call order, and no action is ever refused for a rejection before it |
| Turns.NextBegins | packages/browser-runtime/src/index.ts:1974-1976 | once the last action to begin has ended, fulfilled or rejected, the next one called can begin |
| Turns.NeverStuck | packages/browser-runtime/src/index.ts:1974-1976 | while an action called has not ended, one runs or some promise can go on |
| Turns.NothingLost | packages/browser-runtime/src/index.ts:2022-2030 | after any run every dialog and popup recorded is in one report, in order, or waits, and each action that fulfilled, and no other, made one report |
| Turns.BetweenActions | packages/browser-runtime/src/index.ts:784-796 | a dialog is recorded as between actions exactly when no action is acting |
| Turns.TwentyWait | packages/browser-runtime/src/index.ts:784-796 | at most twenty dialogs and twenty popups wait to be reported, and one more is recorded as long as fewer do |
| Reports.Executor.Execute | packages/browser-runtime/src/index.ts:1970-1977 | the method makes the turn of the queue's tail, and its tail of the turn's `catch`: that step of the machine |
| Reports.Executor.React | packages/browser-runtime/src/index.ts:1974-1975 | what an engine does with a promise whose own promise settled is that step |
| Reports.Executor.Return | packages/browser-runtime/src/index.ts:2022-2030 | a successful action reports everything recorded and not yet reported, once and in order |
| Reports.Executor.Throw | packages/browser-runtime/src/index.ts:2031-2059 | a failing action drops no report, and resets the flag only if it had set it |
| Inputs.Session.ActOn | packages/browser-runtime/src/index.ts:1680-1750 | an action is carried out only on an element whose document was just checked, and input that went out is on record when an error is thrown |
| Inputs.Session.TypeElement | packages/browser-runtime/src/index.ts:1606-1653 | keys go only to the checked document, and count as sent before the first one |
| Inputs.Session.Execute | packages/browser-runtime/src/index.ts:2010-2055 | a plain failure means no input was delivered, success that every step of the action was carried out in order, and an unknown outcome that some input was tried; without a failing call and with time left it succeeds |

## Left out

- Error messages, line numbers and which of several reasons a refusal names.
- Numbers are their literals, compared as such: `-0`, non-finite numbers and `toJSON` are outside the model, as is the order of integer-like keys.
- `merged` on inherited properties: a path step such as `__proto__` that is not the object's own.
- JsonEdits.EditCommutes: assumes the edit lands. What an edit does whose added text closes the comment it is put in is not characterised further than the contract of `WithJsonEdits`.
- Twice.TwiceIsOnce: assumes the edit lands.
- Parser.Cursor.Object: its loop body is split into `Member` and `Separator`, and the array's into `Item`.
- Yaml.WithMelraYamlEntry: the rendered blocks of Goose and Hermes are rows given to it; only the list entry's are modelled.
- YamlProofs.UnionReadsBack: assumes names that JSON quotes as they are, without line breaks and without blanks before `#`, and keys that are words.
- TomlProofs.ReadsBack: assumes strings without U+2028 and U+2029, and environment keys that are bare TOML keys.
- Link targets hold no empty part and no `.`, names are compared through a folding function, and a doubled separator in a path is one.
- What macOS and Windows do differently in the file runtime, `openRegular`, `list`, `read`, `stat`, `hash`, and the contents of the list of harness files, which is a predicate here.
- Workspace.ReadStaysInside: for what a path leads to; where a link itself lies, which `delete` and `move` act on, is not judged by it.
- A second mount of a directory, in `HoldsExactly` and `NoneBelow`.
- Other processes changing files between a check and its use.
- Windows.NoPopupForgotten: assumes that a close that is asked for succeeds, and that the active page handed over and the tab asked for were opened by no page.
- Turns.NothingLost: what comes after the twentieth dialog or popup waiting to be reported is not recorded, as MELRA has it.
- Playwright, CDP transport, sockets and real timers: only the events and answers they deliver.
- Inputs.Session.ActOn: its loop body is split into `Element`, `Check`, `Perform` and `Rerendered`, and the loop over keys is `PressKeys`.
- Inputs.Session.Execute: time is a budget each call takes some of; navigation, downloads after the click, and the reads are not modelled.
- The task kernel, policy evaluation, storage, the pinning proxy and the page's own code.
