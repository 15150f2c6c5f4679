# Selection engine and captured-output post-processing of a terminal file manager

This project models two pieces of the interactive state logic of the
joshuto file manager:

- the **selection engine** (`src/commands/select.rs`): changing the
  persistent selection flags of the entries of the current directory list,
  either on the whole list, on the entry under the cursor (then moving the
  cursor down), on the entries whose name matches a pattern, or on the
  entries named in a set of names (optionally deselecting all others), with
  the counters and the informational message each of these reports;
- the **post-processing pipeline** for the last captured shell output
  (`src/commands/stdout.rs`): recognizing the processor key (`cd`,
  `select-names`), refusing when nothing was captured, trimming the
  capture, and either validating it as one existing path and resolving it to
  a directory for the directory-change command, or splitting it into a set
  of lines and selecting exactly the entries so named.

Modules, one per concern:

| file | module | models |
|---|---|---|
| `base.dfy` | `Base` | `Option`, the state error, `AppResult` |
| `format.dfy` | `Format` | decimal rendering of counters (`format!("{}", n)`) and its inverse |
| `text.dfy` | `Text` | Rust's `str::trim` (Unicode White_Space) and `str::lines` |
| `state.dfy` | `State` | directory entries, the directory list with its cursor, the application state, and a command's effect |
| `select.dfy` | `Select` | `select.rs` |
| `stdout.dfy` | `Stdout` | `stdout.rs` |

Everything is functional: a command takes an `AppState` and returns a
`Step`, the state after it ran together with its `AppResult`. The state is
returned even on an error, because the source mutates in place: after the
cursor entry was marked, an error from moving the cursor down is returned
with the mark already made.

The code that is not part of this model enters as parameters:
`cursor_move::down` is a function `AppState -> Step` (the properties about
the state after it are stated under `MovesCursorOnly`, the assumption that it
only moves the cursor, within the list); `change_directory` is a function
`(AppState, Path) -> Step`; `expand_shell_string` is a function
`string -> Path`; the filesystem queries `exists`, `is_file` and `parent`
are the three functions of a `FileSystem` record; the pattern matcher
`MatchState` is either no pattern or a decision function on names.

Points of the code's behaviour worth knowing:

- The cursor advance is delegated to `cursor_move::down`, and its result,
  including an error, is the command's result.
- At the cursor, the entry is marked before the cursor moves, so an error
  from the move comes with the mark already made; post-processing validates
  before any change.
- `str::lines` is modelled as current Rust defines it: a line ends at `\n`
  or `\r\n`, a final empty segment after a trailing `\n` is not a line, and
  a bare `\r` not followed by `\n` stays in its line. The capture is trimmed
  first, so a trailing `\r` never reaches it there.

## Model

| member | source | states |
|---|---|---|
| Select.DefaultOption | src/commands/select.rs:17-24 | the default options toggle, do not cover the whole list, and do not deselect |
| Select.MarkRule | src/commands/select.rs:58-63 | the mutation rule: reverse gives unselected whatever the prior flag, otherwise toggle negates the flag, otherwise the flag is forced to selected |
| Select.MarkTwice | src/commands/select.rs:103-109 | applying the rule twice restores every flag if and only if the options toggle without reverse; otherwise the second application changes nothing |
| Select.MarkAll | src/commands/select.rs:57-65 | every entry of the list gets the mutation rule, positions and names kept |
| Select.MarkMatching | src/commands/select.rs:97-110 | exactly the entries whose name matches get the rule, the others are unchanged, and found equals the number of matching positions |
| Select.MarkNames | src/commands/select.rs:144-165 | named entries end up selected; with deselect-others every other entry ends up unselected, otherwise unchanged; found counts the named entries and deselected the previously selected others |
| Select.MarkCurrent | src/commands/select.rs:67-80 | only the entry under the cursor changes, by the rule; with no list or no current entry nothing changes |
| Select.SelectWithoutPattern | src/commands/select.rs:49-84 | with all, every entry gets the rule and the cursor stays, result Ok; otherwise only the cursor entry changes and the cursor move's result is returned, the cursor staying within the list when the move only moves the cursor; with no list or no cursor entry nothing changes and the result is Ok |
| Select.SelectWithPattern | src/commands/select.rs:86-117 | exactly the matching entries get the rule whatever all says, the cursor stays, and "<found> files selected" is pushed with found the number of matches, even when zero; with no list nothing changes; always Ok |
| Select.SelectionPreservesValid | src/commands/select.rs:49-176 | the whole-list, pattern and by-names selections keep a list whose cursor is absent exactly when it is empty and otherwise in range |
| Select.SelectFiles | src/commands/select.rs:37-47 | no pattern chooses the whole-list or cursor path, a pattern chooses the filtered path |
| Select.SelectByNames | src/commands/select.rs:119-176 | named entries end up selected, others deselected iff deselect-others and otherwise unchanged, names kept, cursor kept; the one message reports found and, only with deselect-others, deselected; with no list nothing changes and no message is pushed; always Ok |
| Select.MarkAllTwice | src/commands/select.rs:57-65 | toggling the whole list twice restores every entry |
| Select.MarkMatchingTwice | src/commands/select.rs:97-110 | toggling by the same pattern twice restores every entry and reports the same count |
| Select.ReverseDeselectsTargets | src/commands/select.rs:103-104 | under reverse every targeted entry of a whole-list or pattern pass ends up unselected |
| Select.MarkNamesIdempotent | src/commands/select.rs:146-165 | a second selection by the same names with deselect-others leaves the same entries, finds as many and deselects none |
| Select.FoundCountsListedNames | src/commands/select.rs:149-158 | with distinct entry names, found is the number of requested names that are listed; names with no entry are ignored |
| Select.DefaultSelectTogglesCurrent | src/commands/select.rs:74-81 | the default options with no pattern negate the flag of the cursor entry and leave every other entry unchanged |
| Select.SelectByNamesExample | src/commands/select.rs:146-173 | selecting {a.txt, b.txt} with deselect-others over [a.txt off, b.txt on, c.txt on] gives [on, on, off], found 2, deselected 1 |
| Select.NamesReportDeterminesCounts | src/commands/select.rs:166-173 | the selection-by-names message with the deselection clause determines both counters |
| Select.SelectedReportDeterminesCount | src/commands/select.rs:111-114 | the "<found> files selected" message determines found |
| Format.ParseNatToString | src/commands/select.rs:114 | the decimal rendering of a counter reads back as the counter |
| Format.NatToString | src/commands/select.rs:114 | the rendering of a counter is non-empty, digits only, without a leading zero unless the counter is zero |
| Text.Trim | src/commands/stdout.rs:63 | the trimmed capture is a slice of the capture with only whitespace cut off on both sides, and starts and ends with non-whitespace |
| Text.TrimIdempotent | src/commands/stdout.rs:63 | trimming a trimmed capture changes nothing |
| Text.LineCount | src/commands/stdout.rs:29 | the number of lines is the number of line feeds, plus one when the text is non-empty and does not end with a line feed |
| Text.OneLine | src/commands/stdout.rs:29 | a text holds exactly one line iff it is non-empty and its only line feed, if any, is its last character |
| Text.TrimmedOneLine | src/commands/stdout.rs:28-33 | trimmed text holds exactly one line iff it is non-empty and contains no line feed |
| Text.LinesOfJoinLines | src/commands/stdout.rs:57 | splitting plain lines joined by line feeds gives the lines back |
| Text.LinesOfJoinLinesUnterminated | src/commands/stdout.rs:57 | the final line feed is optional: the same lines without it split the same way |
| Stdout.FromStr | src/commands/stdout.rs:19-25 | "cd" gives ChangeDirectory, "select-names" gives SelectNames, every other key gives no processor |
| Stdout.FromStrKey | src/commands/stdout.rs:19-25 | each processor is recognized from its key and from no other key |
| Stdout.AssertOneLine | src/commands/stdout.rs:28-33 | succeeds iff the text is non-empty and its only line feed, if any, is its last character; the failure is the one-line state error |
| Stdout.AsOneExistingDirectory | src/commands/stdout.rs:35-54 | checks in order one line, existence, and for a file a parent; succeeds iff all hold, giving the path itself when it is not a file and the parent when it is; a trimmed text it accepts has no line feed |
| Stdout.AsStringHash | src/commands/stdout.rs:56-58 | never fails, and a name is in the set iff it is one of the lines |
| Stdout.PostProcessStdOut | src/commands/stdout.rs:60-78 | with no capture, a state error and no change for every processor; for cd a validation error leaves the state unchanged and success hands the resolved directory to the directory-change command; for select-names it is the selection by the capture's line set with deselect-others, so every entry ends up selected iff its name is a line of the trimmed capture, the report with found and deselected counts is pushed, and the result is Ok |
| Stdout.ChangeDirectoryRejectsNotOneLine | src/commands/stdout.rs:63-66 | a capture that trims to nothing or to text with a line feed fails with the one-line error and no change, whatever the directory-change command would do |
| Stdout.ChangeDirectoryValidatesFirst | src/commands/stdout.rs:60-78 | when there is no capture or validation fails the result is an error, the state is unchanged and the outcome does not depend on the directory-change command |
| Stdout.ChangeDirectoryOneLine | src/commands/stdout.rs:35-54 | a capture of one path and a trailing line feed changes to the path if it is not a file, to its parent if it is |
| Stdout.ChangeDirectoryExample | src/commands/stdout.rs:63-66 | the capture "/home/user\n" changes to /home/user, or to its parent if it is a file |
| Stdout.EmptyCaptureDeselectsAll | src/commands/stdout.rs:67-69 | a capture that trims to nothing deselects every entry |
| Stdout.SelectNamesIdempotent | src/commands/stdout.rs:67-69 | running select-names again on an unchanged capture leaves the same list and reports the same found with zero deselected |
| Stdout.SelectNamesRepeatedLine | src/commands/stdout.rs:56-58 | the lines x, y, x name exactly {x, y}: a repeated line collapses |
| Stdout.SelectNamesExample | src/commands/stdout.rs:56-58 | the capture "x.txt\ny.txt\nx.txt\n" names exactly x.txt and y.txt |

## Left out

- The `notify-send` processes spawned inside `select_by_names`: debugging
  notifications that spawn external processes. Their `.expect` calls panic
  when a spawn or wait fails, before any flag changes or partway through the
  pass; the model assumes every spawn succeeds.
- `is_selected` and `set_permanent_selected`: the model keeps one flag per
  entry and assumes `is_selected()` reads exactly the flag
  `set_permanent_selected` writes.
- Counter width: `found` and `deselected` are 32-bit signed integers in the
  code and unbounded naturals in the model, which assumes fewer than 2^31
  entries in a list.
- The `Display` formatting of `SelectOption`: plain string output.
- `MatchState::is_match`, `cursor_move::down`, `change_directory` and
  `expand_shell_string`: their code is not part of this model; they are
  parameters, and only `cursor_move::down` carries an assumption
  (`MovesCursorOnly`), stated where it is used.
- The filesystem queries `exists`, `is_file` and `parent`: input/output,
  given as an oracle.
- Tabs and navigation history: the commands only ever reach the current
  list of the current tab, which the model holds directly.
- Entry metadata other than the name and the selection flag: neither
  command reads it.
- `src/joshuto/theme.rs`: configuration loading through files and the
  environment, with process exit on error.
- `src/ui/widgets/tui_dirlist.rs`: terminal rendering. The viewport
  computation it calls, `first_index_for_viewport`, is not part of this
  model.
- Select.SelectWithoutPattern: the state after the cursor move is
  characterised only for a move that keeps the entries and the cursor within
  the list, because the move's code is not part of this model.
