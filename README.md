# any_ls in Dafny

any_ls is a small language server. It tracks the documents its client opens and
picks a handler for each document's filetype. It asks the handler for
diagnostics when a document is opened or saved and publishes them to the
client. This project models the core of that server and proves properties of
the model:

- **The `just` handler** (`Just`, `JustReports`). It accepts the `just` and
  `justfile` filetypes and offers pull diagnostics. It turns the standard error
  output of `just --dry-run` into at most one diagnostic. The output is matched
  against the pattern `(\w+):\s(.*)\n.*——▶.*:(\d+):(\d+)`.
  - In the model a hand-written matcher (`MatchAt`, `FindMatch`) takes the place
    of the regular-expression engine.
  - The matcher is proved to find the leftmost match with greedy groups, as
    described by the declarative predicate `RegexShape`.
  - Line and column numbers are parsed as `u32`. An overflow becomes 0. Both
    numbers are decremented with saturation.
  - The examples from the source's tests are proved about the model.
- **The handler registry** (`Handlers`, `Capabilities`).
  - `AnyHandler::new` registers the `just` handler when one could be made.
  - The registry's merged capabilities start from a base record: UTF-16 positions and
    incremental sync. Each registered handler, in order, then fills the fields
    that are still absent (the `get_or_insert` of every field). This is proved
    equal to "the base field, else the first handler that offers the field".
  - `update_diagnostics` asks every handler that supports the document's
    filetype and concatenates their diagnostics. When no handler produced any
    diagnostic, the last error is returned instead. An unknown document is an
    error.
  - The error's display text is modelled, and so is the dispatch over
    `AllHandlers`.
- **The `.env` handler** (`Props`, with class `Props.PropsHandler`).
  - It collects the `.env` and `.env.example` files of the working directory
    and its ancestors. It stops above the first directory that holds a `.git`
    entry.
  - It parses their `NAME = value` lines into an index by name. A name's
    definitions are kept in order, duplicates included.
  - It answers a hover with every definition of the word the cursor's scan
    lands on. The scan runs from the start of the cursor's line and does not
    stop at a line feed, so a column past the end of a line finds the first
    word of the next line, as in the source.
  - The file system is given as a value: the levels of the directory chain, and
    a map from readable files to their contents.
- **The server** (`Server`, class `Server.Backend`). This is the state machine
  behind `did_open`, `did_change`, `did_save` and `did_close`:
  - a map from URI to document (text, version and handler);
  - an append-only log of what was sent to the client (published diagnostics
    and log messages).

  Choosing a handler for a filetype and running a handler over a text are
  parameters of the class. Each method is proved to equal a transition on
  values (`Apply`). The properties are proved about the transitions and about
  sequences of them (`Run`).

`Text` holds the character classes and the string operations the core relies
on (`trim`, `split_once`, `lines`, UTF-8 and UTF-16 widths). `Types` holds the
protocol values.

## Model

| member | source | states |
|---|---|---|
| Capabilities.Base | src/handlers/mod.rs:87-93 | the base capabilities set the UTF-16 position encoding and incremental text sync, and no other field |
| Capabilities.FillEmpty | src/handlers/mod.rs:101-107 | after one handler's turn, a field keeps its value when it is already set and otherwise takes what the handler offers (absent stays absent) |
| Capabilities.MergedIsFirstOffer | src/handlers/mod.rs:95-143 | the merged value of each field is the base value, if there is one, and otherwise the value of the first handler in registration order that offers the field |
| Capabilities.MergedFromBase | src/handlers/mod.rs:86-146 | after merging onto the base record, position encoding and text sync still hold the base values, and every other field comes from the first handler that offers it |
| Capabilities.MergedKeepsBase | src/handlers/mod.rs:87-110 | no handler can override a field of the base record |
| Capabilities.MergedAppend | src/handlers/mod.rs:95-143 | if one more handler is registered, every field that is already set keeps its value, and exactly the absent fields take the new handler's offer |
| Capabilities.FirstOfferAppend | src/handlers/mod.rs:95-107 | the first offer among handlers plus one more is the earlier first offer, or else the new handler's offer |
| Capabilities.MergeOrderExample | src/handlers/mod.rs:98-104 | with two handlers offering hover, the first handler's hover wins, a field only the second offers is taken, and the base position encoding stays |
| Just.FiletypeSupported | src/handlers/just.rs:33-35 | true exactly for the filetypes `just` and `justfile` |
| Just.GetCapabilities | src/handlers/just.rs:37-51 | the handler offers the diagnostic provider field and nothing else |
| Just.UpdateDiagnostics | src/handlers/just.rs:53-80 | an I/O or decoding failure gives `Log` with its message, and only then is there an error; a successful run gives no diagnostics; a failed run gives what parsing its standard error gives; never more than one diagnostic |
| Just.ParseStdout | src/handlers/just.rs:108-111 | standard output never yields diagnostics |
| Just.ParseSeverity | src/handlers/just.rs:114-122 | a severity exists exactly for the word `error`, and it is `Error` |
| Just.FindMatch | src/handlers/just.rs:86-87 | the match found starts at the first position where the pattern matches; no match means the pattern matches at no later position |
| Just.FindMatchIsLeftmost | src/handlers/just.rs:86-87 | the match found has the pattern's shape and starts no later than any match of the pattern; no match is found exactly when the pattern matches nowhere |
| Just.MatchAt | src/handlers/just.rs:86-87 | a match starts where it was asked for, and its line and column groups are strings of digits |
| Just.MatchAtSound | src/handlers/just.rs:86-87 | a match has the pattern's shape, and its groups are the matching slices of the text |
| Just.MatchAtComplete | src/handlers/just.rs:86-87 | wherever the pattern's shape occurs at a start, the matcher finds a match there with the same word and message, and a location no earlier |
| Just.MatchAtExact | src/handlers/just.rs:86-87 | when the column digits end the marker line, the matcher's location is exactly that one (the two greedy `.*` pick the last location) |
| Just.MatchAtGroups | src/handlers/just.rs:86-87 | for such a shape, the four captured groups are the word, the message, the line digits and the column digits |
| Just.HeadAtComplete | src/handlers/just.rs:87 | the matcher finds the `word: message` head wherever one occurs |
| Just.LocateAfterComplete | src/handlers/just.rs:87 | the matcher finds a marker location whenever the next line holds one, and none earlier than that |
| Just.LocateAfterExact | src/handlers/just.rs:87 | a location whose column digits end the line is exactly the one found |
| Just.ParseU32 | src/handlers/just.rs:89-90 | the digits' value when it fits in 32 bits, and otherwise 0 (the `unwrap_or(0)`) |
| Just.ParseDecimal | src/handlers/just.rs:89-90 | parsing the decimal writing of a number gives the number back, and gives it as a `u32` whenever it fits |
| Just.ParseU32Overflow | src/handlers/just.rs:89-90 | 4294967296 parses to 0 |
| Just.SaturatingDecrement | src/handlers/just.rs:94 | `saturating_sub(1)`: one less, stopping at 0 |
| Just.CharacterRange | src/handlers/just.rs:92-96 | a one-line range that ends at the column; it starts one line and one character before the reported values, with the decrements stopping at 0 |
| Just.DiagnosticOf | src/handlers/just.rs:92-99 | the diagnostic carries the parsed range, the severity of the captured word and the captured message |
| Just.ParseStderr | src/handlers/just.rs:85-106 | at most one diagnostic, and none exactly when the pattern does not match; otherwise its message, severity and range come from the leftmost match |
| Just.ParseStderrEmptyIffNoMatch | src/handlers/just.rs:86-105 | no diagnostic exactly when the pattern's shape occurs nowhere in the text |
| Just.ParseStderrMessage | src/handlers/just.rs:86-97 | the message is the slice after `word:` and one white-space character, up to the end of that line, and it holds no line break |
| JustReports.ReportMatch | src/handlers/just.rs:86-87 | in every report laid out as `word: msg`, then a marker line `…——▶path:line:col…`, the groups are the word, message, line and column |
| JustReports.ParseReport | src/handlers/just.rs:85-106 | such a report parses to exactly one diagnostic, with the decremented position, the severity of the word and the message |
| JustReports.UnknownTokenLayout | src/handlers/just.rs:132-139 | the first test's error text has the report layout |
| JustReports.ParseUnknownToken | src/handlers/just.rs:130-149 | the first test: the `Unknown start of token '1'` error at 7:1 gives an error diagnostic from (6,0) to (6,1) |
| JustReports.ParseUnexpectedColon | src/handlers/just.rs:151-168 | the second test: the `Expected '&&', …` error at 3:4 gives an error diagnostic from (2,3) to (2,4) |
| JustReports.ParseIndentedMarker | src/handlers/just.rs:86-99 | the location is still found when the marker line is indented and the message ends in a colon |
| Handlers.ErrorText | src/handlers/mod.rs:21-28 | the display of `Log` is its text, and the display of `NoSuchDocument` is `No such document: ` followed by the URI |
| Handlers.NoSuchDocumentNamesUri | src/handlers/mod.rs:25 | the display of a missing document is `No such document: ` and then the URI, so different URIs give different texts |
| Handlers.FiletypeSupported | src/handlers/mod.rs:187-191 | dispatching to the `just` handler accepts exactly `just` and `justfile` |
| Handlers.HandlerCapabilities | src/handlers/mod.rs:193-197 | dispatching to the `just` handler offers only the diagnostic provider |
| Handlers.HandlerDiagnostics | src/handlers/mod.rs:199-206 | dispatching gives the `just` handler's answer, and a handler's error is always `Log` |
| Handlers.New | src/handlers/mod.rs:61-70 | the registry holds the `just` handler exactly when one could be made, nothing else, and no documents |
| Handlers.Offers | src/handlers/mod.rs:95-96 | one capability record per handler, in registration order |
| Handlers.AllFieldsComplete | src/handlers/mod.rs:109-142 | the fields merged by the loop are all the capability fields |
| Handlers.FillFields | src/handlers/mod.rs:101-142 | the field-by-field `get_or_insert` loop computes one handler's turn of the merge |
| Handlers.GetCapabilities | src/handlers/mod.rs:86-146 | the merged capabilities: UTF-16 positions and incremental sync are kept, every other field comes from the first handler that offers it, and with no handler the result is the base record |
| Handlers.JustCapabilities | src/handlers/mod.rs:61-146 | with the `just` handler registered, the registry's merged capabilities are position encoding, text sync and diagnostics, and nothing else |
| Handlers.UpdateDiagnostics | src/handlers/mod.rs:148-181 | an unknown document gives `NoSuchDocument` and asks nobody; otherwise exactly the supporting handlers are asked, in order; the result is an error exactly when there are no diagnostics and some handler failed, the error is the last failure, and otherwise the result is all diagnostics, concatenated in handler order |
| Handlers.AskedAreSupported | src/handlers/mod.rs:159-162 | the handlers asked are valid indices in increasing order; each supports the filetype, and every handler that supports it is asked |
| Handlers.UnsupportedIgnored | src/handlers/mod.rs:159-162 | what handlers that do not support the filetype would answer never changes the diagnostics or the failures |
| Handlers.NoneSupported | src/handlers/mod.rs:159-181 | with no supporting handler there are no diagnostics and no failures, so the answer is an empty list |
| Handlers.FailuresAreLogged | src/handlers/mod.rs:164-171 | every failure collected from the handlers is a `Log` error |
| Handlers.EmptySuccessKeepsFailure | src/handlers/mod.rs:174-180 | one handler failing and one succeeding with no diagnostics gives no diagnostics and one failure, so the failure is returned |
| Text.Trim | src/handlers/props.rs:55-66 | `trim` gives a text with no white space at either end: the slice between the leading and the trailing white space |
| Text.SplitJoin | src/handlers/props.rs:54 | joining the pieces of a split with the separator gives the text back |
| Text.Lines | src/handlers/props.rs:54 | no line holds a line feed; the empty text has no lines, and a text without a line feed is one line |
| Text.LinesJoin | src/handlers/props.rs:54 | the lines joined by line feeds give the text back, less the line feed that ends the last line |
| Props.TrimmedTrim | src/handlers/props.rs:55-66 | trimming gives trimmed text, and trimming twice is trimming once |
| Props.ParseLineSpec | src/handlers/props.rs:54-58 | a line defines something exactly when its trimmed text holds `=`; the name is the trimmed text before the first `=`, so it holds no `=`, and the value is the trimmed rest |
| Props.ParseLineRoundTrip | src/handlers/props.rs:55-66 | writing a trimmed name without `=` and a trimmed value as `name=value` parses back to that pair |
| Props.ParseSpacedLine | src/handlers/props.rs:55-66 | ` K = v ` defines `K` as `v` |
| Props.ParseSplitsAtFirstEquals | src/handlers/props.rs:57 | `A=b=c` defines `A` as `b=c` |
| Props.ParseCommentLine | src/handlers/props.rs:57 | a line without `=` defines nothing |
| Props.LineDefinition | src/handlers/props.rs:57-68 | a line gives at most one definition |
| Props.LineDefinitions | src/handlers/props.rs:54-69 | a file gives at most one definition per line, each from that file |
| Props.AllDefinitions | src/handlers/props.rs:52-71 | every definition comes from a listed file that could be read |
| Props.Named | src/handlers/props.rs:60-67 | reference: the definitions of one name, in order |
| Props.IndexGroups | src/handlers/props.rs:60-67 | a name is a key of the index exactly when something defines it, and its entry is every definition of it, duplicates included, in order |
| Props.IndexAppend | src/handlers/props.rs:60-67 | adding a definition appends it to its name's entry and changes no other entry |
| Props.Traversal | src/handlers/props.rs:148-179 | the search fails exactly when the starting directory cannot be read |
| Props.LevelFindsExact | src/handlers/props.rs:159-168 | a path is found in a directory exactly when it names a regular file there with a wanted name that is not a stop name |
| Props.TraversalStops | src/handlers/props.rs:170-176 | a directory with a stop entry, no parent, or an unreadable parent gives only its own finds |
| Props.TraversalOwnFirst | src/handlers/props.rs:170-178 | a directory's own finds come first, before its parents' |
| Props.TraversalSound | src/handlers/props.rs:148-179 | every path found is a regular file with a wanted, non-stop name in a level the walk reaches: every level up to it is readable and none below it holds a stop name |
| Props.TraversalComplete | src/handlers/props.rs:148-179 | conversely, every regular file with a wanted, non-stop name in a level the walk reaches is found |
| Props.TraverseParents | src/handlers/props.rs:148-179 | the recursive walk with its entry loop computes the search |
| Props.GetPropFiles | src/handlers/props.rs:44-47 | the property files of the working directory chain, with `.git` as the stop name and `.env` and `.env.example` as the wanted names, and none when there is no working directory or it cannot be read |
| Props.RepositoryTopOnly | src/handlers/props.rs:44-47 | in a directory that holds `.git`, only that directory's own files are found |
| Props.SkipLinesSpec | src/handlers/props.rs:101-111 | the first loop stops at the first character after `line` line feeds, or at the end of the text |
| Props.LineStartSpec | src/handlers/props.rs:98-113 | hover starts at the first position preceded by `line` line feeds; if the text has fewer lines, it starts at the end |
| Props.ScanSpec | src/handlers/props.rs:115-130 | the second loop ends with the word run around the column: it starts after the last separator before the column and ends at the first separator at or after the column |
| Props.TokenBoundsSpec | src/handlers/props.rs:115-130 | the scan's bounds are a token around the column |
| Props.TokenBoundsUnique | src/handlers/props.rs:115-130 | exactly one pair of bounds is a token around a given column |
| Props.StopIsFirst | src/handlers/props.rs:119-123 | of two tokens around the column, the one that ends first also starts first |
| Props.TokenAtIsWord | src/handlers/props.rs:132-135 | a name looked up is a non-empty run of word characters |
| Props.TokenAtFindsWord | src/handlers/props.rs:115-135 | a cursor inside a word, with the word's UTF-16 span around the column, looks up exactly that word |
| Props.TokenAtGap | src/handlers/props.rs:119-133 | a cursor on a separator that follows a separator looks up nothing |
| Props.TokenAtIntendedCovers | src/handlers/props.rs:115-132 | the corrected lookup finds a word only when the column, counted in UTF-16 units, is before the word's end and past the start of the character before the word (the source's `>=` test); for characters of one UTF-16 unit this is the word itself |
| Props.TokenAtIntendedFindsWord | src/handlers/props.rs:115-135 | the corrected lookup finds the whole word whenever the column lies inside it, however long the text |
| Props.AsciiWidths | src/handlers/props.rs:124-129 | in ASCII text, byte counts and UTF-16 counts agree |
| Props.TokenAtAsciiAgrees | src/handlers/props.rs:119-135 | on ASCII lines, the lookup as written and the corrected lookup agree |
| Props.TokenAtPastWordEnd | src/handlers/props.rs:132 | on the line `éa` with the column past its end, the code as written looks up `a`, and the corrected lookup finds nothing |
| Props.RenderAppend | src/handlers/props.rs:136-141 | definitions are shown as `path`, a line feed, `name = value`, with the definitions separated by blank lines |
| Props.HoverTextSome | src/handlers/props.rs:132-143 | a hover shows something only for a non-empty word that is a key of the index, and then it shows all that word's definitions |
| Props.HoverPastEnd | src/handlers/props.rs:98-133 | a hover on a line past the end of the text shows nothing |
| Props.HoverExample | src/handlers/props.rs:93-145 | hovering over `KEY` on the second line shows `.env`, a line feed and `KEY = 1` |
| Props.HoverCrossesLineFeed | src/handlers/props.rs:115-130 | in `ab`, line feed, `cd`, a hover at line 0, column 4 (past the end of line 0) shows the definition of `cd`: the scan does not stop at a line feed |
| Props.PropsHandler.constructor | src/handlers/props.rs:33-42 | the new handler holds the property files of the directory chain and the index of their definitions |
| Props.PropsHandler.ParseFiles | src/handlers/props.rs:49-72 | the index is rebuilt from scratch from the definitions of every readable property file, in order, and the file list is unchanged |
| Props.PropsHandler.ParseContents | src/handlers/props.rs:53-70 | one file's lines are pushed onto the index after the definitions already in it |
| Props.PropsHandler.Hover | src/handlers/props.rs:93-145 | the two loops compute the hover text of the word under the position, with the end-of-word test corrected (see Findings), and hover never fails |
| Props.PropsHandler.FiletypeSupported | src/handlers/props.rs:76-78 | every filetype is accepted |
| Props.PropsHandler.GetCapabilities | src/handlers/props.rs:80-91 | the handler offers completion and hover, and nothing else |
| Server.NoHandlerText | src/lib.rs:38-43 | the warning is `No handler for filetype: ` followed by the filetype |
| Server.ReportPublishes | src/lib.rs:66-97 | an untracked document changes nothing. For a tracked one the documents stay as they are; the log gains a publish with the document's version, carrying the handler's diagnostics or `[]` when it failed; a failure is followed by an error log line with the error's text |
| Server.OpenWithoutHandler | src/lib.rs:34-46 | opening an untracked document whose filetype has no handler only logs the warning |
| Server.ReopenWithoutHandler | src/lib.rs:132-146 | re-opening a tracked document with a filetype that has no handler warns, and then still updates and reports the entry tracked before, with its earlier handler |
| Server.OpenWithHandler | src/lib.rs:132-146 | opening with a handler tracks the document with the opened text, version and a fresh handler, replacing any earlier entry, and reports on it |
| Server.ChangeIsSilent | src/lib.rs:148-155 | a change sends nothing and tracks no new document; a tracked document takes the first change's text and the new version and keeps its handler; other documents are untouched |
| Server.SaveOnlyReports | src/lib.rs:157-159 | a save never changes the documents; it sends something only for a tracked document |
| Server.CloseClears | src/lib.rs:161-168 | a close untracks the document, tracked or not, leaves the rest alone, and always publishes `[]` with no version |
| Server.ApplyAppends | src/lib.rs:132-168 | no notification removes or rewrites anything already sent |
| Server.RunAppends | src/lib.rs:132-168 | across any sequence of notifications, the log only grows |
| Server.ApplyTracks | src/lib.rs:34-56 | only opening with a filetype that has a handler starts tracking a URI |
| Server.RunTracks | src/lib.rs:34-56 | a URI tracked after a sequence of notifications was tracked before it, or was opened during it with a filetype that has a handler |
| Server.OpenThenClose | src/lib.rs:132-168 | after an open and then a close, the document is untracked, and the last thing sent clears its diagnostics |
| Server.Initialize | src/lib.rs:102-120 | the server advertises UTF-16 positions, full text sync and a workspace capability, and calls itself `any_ls` |
| Server.Backend.constructor | src/lib.rs:25-30 | a new server tracks no document and has sent nothing |
| Server.Backend.InitHandler | src/lib.rs:34-56 | tracks the URI with an empty text, the version and a fresh handler, or logs the no-handler warning |
| Server.Backend.UpdateDocument | src/lib.rs:58-64 | a tracked document takes the new text and version; otherwise nothing changes |
| Server.Backend.ReportDiagnostics | src/lib.rs:66-97 | performs the report transition (see `Server.ReportPublishes`) |
| Server.Backend.Initialized | src/lib.rs:122-126 | logs `server initialized!` as information and changes nothing else |
| Server.Backend.DidOpen | src/lib.rs:132-146 | init, then update, then report, as the open transition |
| Server.Backend.DidChange | src/lib.rs:148-155 | the change transition: the first change's text replaces the document's, and nothing is reported |
| Server.Backend.DidSave | src/lib.rs:157-159 | the save transition: only a report |
| Server.Backend.DidClose | src/lib.rs:161-168 | the close transition: untrack, then publish `[]` with no version |

## Left out

- `src/main.rs`, `src/cli.rs` and `src/any_error.rs` are not part of this model. They are the process entry point, argument parsing and error plumbing.
- `Just::new` is not modelled. It runs `just --version` and creates a temporary file. `Just.Just` holds only the version string, and `Handlers.New` takes whether a handler could be made as an argument.
- The I/O inside `Just::update_diagnostics` is a parameter (`Just.ToolOutcome`). That I/O is truncating and writing the temporary file, spawning `just --dry-run`, and decoding its output as UTF-8. The outcome's strings are already decoded.
- The regular-expression engine is left out. In its place is the matcher proved equal to the declarative shape of the pattern.
- `\w`, `\s`, `\d` and `trim` are modelled on ASCII: letters, digits and `_`, and the six ASCII white-space characters. The Unicode classes of the source's regex engine and of `str::trim` are wider.
- `str::lines` is modelled as a split at line feeds with no final empty piece. A `\r` before a line feed stays in the line. Every line is trimmed right after, so parsing is unaffected.
- `AnyHandler::handle_notification` and the `lsp_textdocument` store it feeds are left out. In the model the registry's documents are a map from URI to language id and content.
- Handlers.UpdateDiagnostics: each handler's outcome is given as an argument, so the document's content is not passed to the handlers. The mutation of each handler's temporary file is not modelled.
- Capability values are not modelled in full. Only the fields' presence and a coarse value (`Utf16`, `Incremental`, `Full`, or an opaque description) are modelled; the LSP option records are not.
- `PropsHandler` is not registered in `AllHandlers`, in the source or in the model. Its `hover` is modelled on its own.
- The file system in `Props` is a value, not modelled I/O. `current_dir` and `read_dir` become the list of directory levels, with `None` for a directory that cannot be read. `read_to_string` becomes a map of readable files. `file_type` becomes the entry's `isFile` flag.
- In `Props`, entries that `read_dir` fails to return (dropped by `flatten`) do not appear in the model at all. Paths are strings, so `to_string_lossy` is left out.
- Props.PropsHandler.Hover: the overflow of the `u32` counter `num_chars_in_line` is not modelled. Its value is unbounded in the model, because a line would need more than four billion UTF-16 units to reach it. The method uses the corrected end-of-word test of the finding below. The test as written, with the wrap-around of `bytes_traversed as u32`, is `Props.TokenAt`.
- The server's locks, `async` and the client connection are left out. Everything the server sends is appended to the event log in the order it is sent.
- `AnyHandler::from_filetype`, which `src/lib.rs` calls, is commented out in `src/handlers/mod.rs`. The server's handler lookup is therefore a parameter (`handlerFor`).
- A handler's computation is also a parameter (`diagnose`), a function of the handler and the document's text. State a handler keeps between calls is not modelled.
- On a handler error, `src/lib.rs` matches only `HandlerError::Log` and logs its text. The model logs the error's display text, which is the same for `Log`.
- The registry's merged capabilities (`Handlers.GetCapabilities`) are not what the server advertises. `initialize` in `src/lib.rs:102-120` never calls `AnyHandler::get_capabilities`. It advertises full text sync, a workspace capability and no diagnostic provider (`Server.Initialize`).
- Server.Backend.DidChange: an empty change list makes the source panic on `content_changes[0]` (`src/lib.rs:152`). The model requires at least one change (`Server.Acceptable`).
- `shutdown` always succeeds and touches no state, so it is left out. So is the server version reported by `initialize`, which comes from the build.

## Findings

| source | as written | input that shows it | evidently intended | confidence | as-written member | corrected member |
|---|---|---|---|---|---|---|
| src/handlers/props.rs:132 | the hover is given up when the word's end, counted in UTF-8 bytes (`bytes_traversed as u32`), is at or before the column — but the column counts UTF-16 units | the line `éa` with the cursor at character 2, past the end of the line: `é` takes two bytes but one UTF-16 unit, so the check passes and `a` is looked up | the word's end compared in UTF-16 units, as for ASCII text: a column at or past the word's end finds nothing | not executed; medium | Props.TokenAtPastWordEnd | Props.TokenAtIntendedCovers |

`Props.TokenAt` models the test as written, including the 32-bit truncation of the byte count. `Props.TokenAtIntended` is the corrected test; `Props.HoverText` and the hover method use it. `Props.TokenAtAsciiAgrees` shows that the two agree on ASCII text shorter than 2^32 bytes.
