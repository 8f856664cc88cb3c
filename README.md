# Boot-terminal overlay, modelled in Dafny

This project models the core of the "boot terminal" overlay that a personal
site shows before revealing its content (`src/components/TerminalOverlay.jsx`).
The overlay streams a boot log into a terminal window one line at a time,
opens a two-option mode menu that is driven by the keyboard, streams a
post-selection log headed by a summary of the choice, and then plays an exit
animation. At the end it reports the chosen mode id to its host.

The model has five modules:

- `Wrappers` (`wrappers.dfy`): the `Option` type. The formatter's `null` result is `None`.
- `JsText` (`js_text.dfy`): the JavaScript string operations the overlay uses.
  These are `startsWith`, `includes`, `split` and `join` on a one-character
  separator, and `trim` with ECMAScript's white-space set. `IndexOf`, the
  first-occurrence search that `Split` is built on, is a helper and not a call
  the overlay makes. Each has a contract or lemma that characterises it independently. `split` and
  `join` are proved inverse in both directions.
- `LineFormatter` (`line_formatter.dfy`): `formatLogLine` as a token classifier,
  and the `txt.split("\n").filter(Boolean)` step that turns a fetched log into
  display lines. A buffer entry is a `LineValue`: a string, or `undefined`.
- `Menu` (`menu.dfy`): the fixed option table and the wrap-around arrow updaters.
- `TerminalOverlay` (`terminal_overlay.dfy`): the overlay component as a class.
  - Fields: `phase`, `bootLines`, `postLines`, `selectedIndex` and the
    `bootStarted` guard.
  - Asynchronous state: the running stream interval (`job`, holding the
    counter `idx` that the interval's closure captures), the scheduled settle
    timeout (`pendingPhase`), the outstanding fetches, and whether the exit
    timeline has completed.
  - Each browser event is a method: the mount effect, each fetch resolving,
    one interval tick, the 150 ms timeout, a key press, and the end of the exit
    animation.
  - The invariant `Valid()` states the following:
    - the selection is a valid index;
    - at most one fetch, interval or timeout is pending at a time, so a new
      stream never overwrites a running one;
    - each log is requested at most once;
    - the boot buffer holds exactly what the boot stream has revealed so far;
    - the post buffer is empty before POST, and from POST on it is the
      selection summary followed by what the post stream has revealed.
  - `Run` delivers any sequence of events. It proves that the phase only moves
    forward, that the selection is frozen after MENU, and that `onClose` fires
    at most once, with the selected id.
  - `RunTicks` drives a stream tick by tick and proves it reveals its lines in
    order. `StreamAsWritten` models the appends of the streamer's interval as
    written, where the shown line depends on when React runs the state
    updater; the completion step is modelled by `Tick`.
  - `PlaygroundSession` is the end-to-end run: a boot log, ArrowDown, Enter, a
    post log and the exit, which reports `"2"`.

## Model

| member | source | states |
|---|---|---|
| JsText.Includes | src/components/TerminalOverlay.jsx:21-25 | `includes` is true exactly when the marker occurs at some position of the line |
| JsText.IndexOfFinds | src/components/TerminalOverlay.jsx:11 | the first-occurrence search behind `split`: -1 exactly when the separator is absent, otherwise a position holding it with none before it |
| JsText.FirstAt | src/components/TerminalOverlay.jsx:11 | conversely, a position holding the separator with none before it is the one the search returns |
| JsText.SplitLacks | src/components/TerminalOverlay.jsx:11 | no piece of a `split` on one character contains the separator |
| JsText.JoinSplit | src/components/TerminalOverlay.jsx:11-12 | joining the pieces of a split with the same separator gives back the original string, so `rest.join(":")` restores everything after the first colon |
| JsText.SplitJoin | src/components/TerminalOverlay.jsx:99 | splitting the join of separator-free pieces gives back exactly those pieces |
| JsText.TrimStart | src/components/TerminalOverlay.jsx:12 | the result is a suffix of the input; everything dropped is white space; the result does not start with white space |
| JsText.TrimEnd | src/components/TerminalOverlay.jsx:12 | the result is a prefix of the input; everything dropped is white space; the result does not end with white space |
| JsText.Trim | src/components/TerminalOverlay.jsx:12 | `trim` returns a contiguous middle of the input, with only white space around it, that neither starts nor ends with white space |
| LineFormatter.FormatLogLine | src/components/TerminalOverlay.jsx:7-28 | a falsy line (empty or `undefined`) gets no token and every other line gets one; the token is a prompt exactly when the line starts with `madwesh@`, whatever markers it contains |
| LineFormatter.PromptSplitsAtFirstColon | src/components/TerminalOverlay.jsx:10-12 | for a prompt line `prefix + ":" + rest` whose prefix has no colon, the prompt carries that prefix and `rest` trimmed, with later colons kept |
| LineFormatter.PromptWithoutColon | src/components/TerminalOverlay.jsx:10-12 | a prompt line without a colon is all prefix and has an empty command |
| LineFormatter.SeverityPrecedence | src/components/TerminalOverlay.jsx:21-25 | a non-empty line that is not a prompt gets the token of marker k exactly when marker k is the first of FATAL, ERROR, WARN, DEBUG, INFO that the line contains (both directions) |
| LineFormatter.PlainWithoutMarker | src/components/TerminalOverlay.jsx:21-27 | a non-empty line that is not a prompt is plain exactly when it contains none of the five markers |
| LineFormatter.DropEmpty | src/components/TerminalOverlay.jsx:99 | `filter(Boolean)` keeps only non-empty strings, each taken from the input, and never adds any |
| LineFormatter.DropEmptySingle | src/components/TerminalOverlay.jsx:99 | a single piece is kept exactly when it is non-empty |
| LineFormatter.DropEmptyAppend | src/components/TerminalOverlay.jsx:99 | filtering a concatenation is filtering each part and concatenating, so every non-empty piece is kept and the order is preserved |
| LineFormatter.SplitLines | src/components/TerminalOverlay.jsx:99 | every line handed to the streamer is non-empty and contains no `\n` (a `\r` of a CRLF log stays in its line) |
| LineFormatter.SplitLinesOfLine | src/components/TerminalOverlay.jsx:99 | a text without `\n` gives no line when it is empty and itself as the one line otherwise |
| LineFormatter.SplitLinesAppend | src/components/TerminalOverlay.jsx:99 | the lines of `a + "\n" + b`, for `a` without `\n`, are the lines of `a` followed by the lines of `b`; with `SplitLinesOfLine` this fixes the lines of every text, a trailing `\n` included |
| LineFormatter.SplitLinesKeepsText | src/components/TerminalOverlay.jsx:169 | the lines, concatenated in order, are the fetched text with every `\n` removed, so no character is lost or reordered |
| LineFormatter.SplitLinesJoin | src/components/TerminalOverlay.jsx:99 | non-empty lines without `\n`, joined with `\n`, split back into exactly those lines |
| Menu.ArrowUp | src/components/TerminalOverlay.jsx:122-126 | from a valid index ArrowUp gives a valid index, namely the previous one modulo the number of options (0 wraps to the last) |
| Menu.ArrowDown | src/components/TerminalOverlay.jsx:128-132 | from a valid index ArrowDown gives a valid index, namely the next one modulo the number of options (the last wraps to 0) |
| Menu.ArrowsAreInverse | src/components/TerminalOverlay.jsx:122-132 | ArrowUp then ArrowDown, and ArrowDown then ArrowUp, return to the starting index |
| Menu.ArrowsToggle | src/components/TerminalOverlay.jsx:38-41 | with the two-entry table both arrows switch between option 0 and option 1 |
| Menu.OptionTable | src/components/TerminalOverlay.jsx:38-41 | the table has two entries, ids "1" and "2", labels "Professional Mode" and "Playground Mode" |
| TerminalOverlay.StreamAsWritten | src/components/TerminalOverlay.jsx:73-86 | the interval of `streamLines` as written appends, on tick k, `lines[k]` when React runs the updater at the call and `lines[k + 1]` when it runs it after `idx++` |
| TerminalOverlay.AsWrittenOnTime | src/components/TerminalOverlay.jsx:77-79 | when every updater runs at its call, the stream as written shows each line once, in order |
| TerminalOverlay.LateTickSkipsLine | src/components/TerminalOverlay.jsx:77-79 | for a log with distinct lines, line k reaches the buffer exactly when tick k reads it on time or tick k - 1 reads it late, so a late tick after an on-time one loses line k (both directions) |
| TerminalOverlay.LateLastTick | src/components/TerminalOverlay.jsx:77-81 | a late updater on the last tick of a non-empty log shows `undefined` in place of the last line, so the buffer differs from the log |
| TerminalOverlay.SessionBootLogLate | src/components/TerminalOverlay.jsx:77-79 | the three-line session boot log with the second and third updaters late shows its first and third lines and then `undefined` |
| TerminalOverlay.AppendedStep | src/components/TerminalOverlay.jsx:78-79 | each tick appends `lines[idx]` after the earlier entries and changes none of them |
| TerminalOverlay.Overlay.constructor | src/components/TerminalOverlay.jsx:34-50 | the first render is in BOOT with empty buffers, the first option selected and the guard clear |
| TerminalOverlay.Overlay.StartBoot | src/components/TerminalOverlay.jsx:92-96 | the first run of the boot effect sets the guard and requests the boot log; any later run changes nothing, so the log is requested at most once |
| TerminalOverlay.Overlay.BootLogFetched | src/components/TerminalOverlay.jsx:97-101 | the resolved boot log starts one stream of its split lines into the empty boot buffer, with MENU as the next phase |
| TerminalOverlay.Overlay.PostLogFetched | src/components/TerminalOverlay.jsx:166-171 | the resolved post log starts one stream of its split lines into the post buffer, behind the summary line, with EXIT as the next phase |
| TerminalOverlay.Overlay.Tick | src/components/TerminalOverlay.jsx:77-86 | a tick appends `lines[idx]` to its target buffer only; it advances the counter, or at the end clears the interval and schedules the next phase |
| TerminalOverlay.Overlay.RunTicks | src/components/TerminalOverlay.jsx:73-86 | n ticks of a freshly started stream append exactly the first n items of its lines, in order, to its own buffer only, and the interval is cleared with the next phase scheduled exactly when n reaches the tick count |
| TerminalOverlay.Overlay.SettleElapsed | src/components/TerminalOverlay.jsx:84 | the settle timeout sets the scheduled phase, which is always the next one along BOOT, MENU, POST, EXIT |
| TerminalOverlay.Overlay.OnKey | src/components/TerminalOverlay.jsx:116-142 | outside MENU no key changes anything. In MENU the arrows wrap, "1" forces index 0 and "2" index 1, Enter moves to POST with the index unchanged and reseeds the post buffer with exactly the summary line, and any other key changes nothing |
| TerminalOverlay.Overlay.FinishExit | src/components/TerminalOverlay.jsx:188-195 | the first completion in EXIT reports `options[selectedIndex].id`, which is "1" or "2"; nothing is reported outside EXIT or a second time |
| TerminalOverlay.Overlay.Step | src/components/TerminalOverlay.jsx:92-195 | whichever event arrives, the phase does not move back, the selection is frozen after MENU, and a report is made exactly when the exit first completes, with the selected id |
| TerminalOverlay.Overlay.Run | src/components/TerminalOverlay.jsx:30-195 | over any event sequence: no phase is revisited, the selection is frozen after MENU, each log is requested at most once, and `onClose` fires at most once with the selected id |
| TerminalOverlay.SessionLogsSplit | src/components/TerminalOverlay.jsx:99 | the session's logs, written one line per row, split back into exactly their lines |
| TerminalOverlay.ExitTwice | src/components/TerminalOverlay.jsx:188-195 | a completed exit followed by a second completion reports the selected id once and then nothing |
| TerminalOverlay.PlaygroundSession | src/components/TerminalOverlay.jsx:92-195 | boot log of three lines, ArrowDown, Enter, post log: the boot buffer holds the three lines in order, the post buffer is the summary then the post line, and the exit reports "2" once |

## Left out

- Network fetches of `/logs/boot.log` and `/logs/post_select.log`. Each fetch
  is split into the request and its resolution, and the resolution is an event
  that carries the text. A failed fetch is modelled as a resolution that never
  arrives, so the phase stalls. No retry or timeout is added, because the code
  has none.
- Wall-clock timing: the 50 ms interval and the 150 ms timeout become the
  events `IntervalTick` and `TimeoutFired`, handled by the methods `Tick` and
  `SettleElapsed`.
- GSAP animations: the menu fade-in, the per-line fade-in, and the shrink and
  fade of the window and backdrop. The end of the exit timeline is the single
  event `FinishExit`.
- DOM side effects: the body overflow lock, the wheel `stopPropagation`,
  auto-scroll, and `preventDefault` for ArrowUp, ArrowDown and Space.
  Attaching and detaching the key listener is modelled only as the phase check
  in `OnKey`.
- TerminalOverlay.Overlay.Tick: evaluates `lines[idx]` when the tick fires, the
  reading the streamer evidently intends. This matches the code only when React
  runs the updater at the `setter` call. The reading as written is modelled
  separately by `StreamAsWritten`; see "## Findings".
- StreamAsWritten: assumes a late updater runs before the next tick, 50 ms
  later. Updaters delayed over several ticks are not modelled.
- React scheduling: an effect that depends on the phase runs atomically with
  the phase change. Events that land between a state update and its effect
  are not modelled.
- JSX markup and styles: only the token kind is kept. The colon that the
  prompt rendering adds after the prefix is presentation and is not modelled.
- Strings are sequences of Unicode scalar values, not UTF-16 code units.
  Lone surrogates cannot be represented.
- `src/App.jsx`: the host stores the reported id and sets a `showTerminal`
  flag that nothing reads. It renders the overlay unconditionally, so the
  overlay stays mounted after EXIT, which is why EXIT is final in the model.
- TerminalOverlay.PlaygroundSession: takes the two log texts as parameters
  whose split lines are the session's lines, rather than fixing the literal
  texts; `SessionLogsSplit` shows that the texts written one line per row
  qualify.
- Where one might expect otherwise, the model follows the code:
  - The code has no cancellation of stream jobs. The model proves instead
    that a new stream only starts when none is running.
  - An empty source does not complete without lines: its first tick appends
    `lines[0]`, which is `undefined`, before finishing.
  - A failed fetch stalls the overlay; it does not fall back.

## Findings

| source | as written | input that shows it | evidently intended | confidence | as-written member | corrected member |
|---|---|---|---|---|---|---|
| src/components/TerminalOverlay.jsx:77-79 | the updater `(prev) => [...prev, lines[idx]]` reads the shared counter `idx`, which `idx++` advances right after the `setter` call; when React runs the updater at the next render it reads the incremented value | the boot log `madwesh@sys: init`, `[INFO] loading modules`, `[WARN] low memory` with the first updater run at its call and the other two at the next render shows the first line, the third line, then `undefined` | each tick shows the line at the counter's value when the tick fires (the line read before `idx++`), so the buffer is the log's lines once each, in order | not executed; whether React runs an updater at the call or at the next render depends on its internal update queue | TerminalOverlay.StreamAsWritten, TerminalOverlay.LateTickSkipsLine, TerminalOverlay.SessionBootLogLate | TerminalOverlay.Overlay.RunTicks |
