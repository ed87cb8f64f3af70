# showtext, i18n and menu layout: a Dafny model

This project models three pieces of sequential logic from MinUI's tg3040
tools and the shared UI code. It states their behaviour as contracts and
lemmas and proves them.

1. **`showtext`** (`workspace/tg3040/showtext/showtext.c`) is the polling
   variant of the on-screen text announcer. The model covers:
   - the argument loop of `main` (`-t seconds`, then the text);
   - the one-slot "next command" file `./showtext.next`, written with
     `"%d %s\n"` and read with `"%d %[^\n]"`;
   - the start-up gate that parks a request in the slot when the pending
     command has a positive duration;
   - the display loop, as a step function over ticks, quit events and other
     invocations' writes to the slot.

   The screen is reduced to `Render(text)` / `Clear` outputs. The slot file
   is `Option<string>`, where `None` means the file is absent.
2. **i18n** (`workspace/all/common/i18n.h`) is the INI translation table.
   The model covers:
   - `trim`;
   - the per-line parse of `load_language`, which splits at the first `=`;
   - the table of at most 1000 pairs, and reload semantics;
   - the `_` lookup, which falls through to its argument;
   - the `lang_<lang>.ini` paths of `init_i18n` and `switch_language`.

   A language file is the sequence of lines `fgets` returns. The file system
   is a map from path to file.
3. **Menu layout** (`workspace/all/common/ui.c`, with `ui.h`): the cached
   menu width, the rows of a window `start..end` with selection pill, name and
   value, the scroll-arrow rules and the description line. Each operation
   returns what it would draw and where. `SCALE1` and the font metrics are the
   uninterpreted functions of a `Metrics` value.

Modules: `Wrappers` (Option), `CLib` (`isspace`, truncating division,
`printf("%d")`, `scanf`'s `%d`, blank and `%[^\n]`), `ShowArgs`,
`NextCommand`, `ShowText`, `I18n` and `MenuUi`.

The loop is modelled as written, and the model proves three consequences of
that:
- `idle_time` is an `int`, so `idle_time += 0.1` leaves it at 0. The
  three-second exit of an interruptible display never fires
  (`ShowText.IdleWaitNeverEnds`).
- The idle wait unlinks a command it takes from the slot, so the final check
  of the same iteration fails. The loop then exits without showing that
  command, unless another invocation rewrites the slot in between
  (`ShowText.TakenCommandIsDropped`, `ShowText.RewrittenSlotIsShown`).
- The gate reads the duration of the *pending* command, not of the running
  display. The loop never fills the slot itself
  (`ShowText.TicksKeepSlotEmpty`), so a display started over an empty slot,
  even a timed one, never makes a new invocation wait
  (`ShowText.GateIgnoresRunningDisplay`).

Where the source's own comments and usage text promise more than the code
does, the model follows the code:
- The comments on the idle wait (`workspace/tg3040/showtext/showtext.c:205`
  and `:223`) say an interruptible display is shown for 3 seconds and then
  exits. Because `idle_time` is an `int`, it never does (see above).
- The usage text (`showtext.c:155`) gives only a maximum of 30 seconds. The
  code cuts values above 30 and keeps zero and negative values, which then
  select the interruptible display.

## Model

| member | source | states |
|---|---|---|
| `CLib.TruncDiv` | workspace/all/common/ui.c:23 | C's `/` truncates toward zero: for a non-negative dividend the quotient rounds down, for a negative one it rounds up |
| `CLib.HalfIsCentred` | workspace/all/common/ui.c:23 | halving a length with C division leaves two margins that differ by at most one, whatever the sign |
| `CLib.ScanIntReads` | workspace/tg3040/showtext/showtext.c:165 | `%d` succeeds iff a digit follows the white space and the optional sign; it then reads the whole digit run, negated after a minus sign, and leaves exactly what follows the run |
| `CLib.FormatInt` | workspace/tg3040/showtext/showtext.c:119 | `printf("%d")` writes a minus sign exactly for negative values, followed by decimal digits only |
| `CLib.ScanFormatted` | workspace/tg3040/showtext/showtext.c:119-128 | `%d` reads back exactly the integer `%d` printed, for every integer, when no digit follows |
| `ShowArgs.ParseArgs` | workspace/tg3040/showtext/showtext.c:137-149 | the argument loop gives the last word as text and the clamped `atoi` of the last `-t` argument as duration; the duration is -1 with no `-t` and never above 30 |
| `ShowArgs.Clamp` | workspace/tg3040/showtext/showtext.c:144 | durations above 30 become 30, all others (zero and negatives included) are kept |
| `ShowArgs.TokensSpellArgs` | workspace/tg3040/showtext/showtext.c:141-149 | splitting the command line into `-t value` pairs and words loses and invents no argument |
| `ShowArgs.TrailingDashTIsText` | workspace/tg3040/showtext/showtext.c:142-148 | appending a `-t` with nothing after it adds it as the text and leaves the duration as the earlier arguments set it, unless the command line already ended in a bare `-t` |
| `ShowArgs.TrailingDashTAlone` | workspace/tg3040/showtext/showtext.c:137-148 | with no other `-t`, a trailing `-t` is the text and the duration stays -1 |
| `ShowArgs.NoOptionNoDuration` | workspace/tg3040/showtext/showtext.c:137-148 | a command line without `-t` names no duration |
| `NextCommand.Decode` | workspace/tg3040/showtext/showtext.c:128 | a successful two-field read yields a non-empty text without newline or leading white space, and the slot's leading integer as duration |
| `NextCommand.Save` | workspace/tg3040/showtext/showtext.c:116-122 | saving always leaves a slot, and it reads back as the saved command exactly when the text is slot-safe |
| `NextCommand.CheckNext` | workspace/tg3040/showtext/showtext.c:124-134 | a command comes back iff the slot exists and parses; the slot is removed only then; an absent or malformed slot is left as it was |
| `NextCommand.Encode` | workspace/tg3040/showtext/showtext.c:119 | a saved slot ends with a newline, and holds no earlier newline exactly when the text holds none |
| `NextCommand.EncodedDurationReads` | workspace/tg3040/showtext/showtext.c:119-128 | the leading `%d` of a saved line reads back the saved duration, whatever its sign and whatever the text, and stops at the blank before the text |
| `NextCommand.EncodedIsTaken` | workspace/tg3040/showtext/showtext.c:124-134 | a slot holding a saved line of a slot-safe text is taken by the next read, which returns that command and unlinks the slot |
| `NextCommand.SlotRoundTrip` | workspace/tg3040/showtext/showtext.c:116-134 | `check_next_command` returns `(d, t)` after `save_next_command(t, d)` if and only if `t` is non-empty, newline-free and does not start with white space |
| `NextCommand.SavedIsTaken` | workspace/tg3040/showtext/showtext.c:116-134 | a slot-safe command just saved is what the next read returns, and that read unlinks the slot |
| `NextCommand.LastWriteWins` | workspace/tg3040/showtext/showtext.c:117-121 | after two saves only the second command is pending, whatever the slot held |
| `NextCommand.FailedCheckIsStable` | workspace/tg3040/showtext/showtext.c:124-134 | a failed read changes nothing, so repeating it gives the same answer |
| `ShowText.PendingTimed` | workspace/tg3040/showtext/showtext.c:161-165 | the gate waits only when the slot exists |
| `ShowText.PendingTimedReadsDuration` | workspace/tg3040/showtext/showtext.c:128-165 | on a slot the loop can read, the gate waits iff the duration the loop would take is positive |
| `ShowText.Gate` | workspace/tg3040/showtext/showtext.c:151-180 | no text means usage with exit 0 and no slot access; a pending command with positive duration means the request is saved and nothing is shown; otherwise SDL set-up failure exits 1, success starts the loop with the slot untouched |
| `ShowText.ShowOutput` | workspace/tg3040/showtext/showtext.c:186-190 | the text `clear` clears the screen, and any other text is rendered as given |
| `ShowText.Exit` | workspace/tg3040/showtext/showtext.c:237-241 | `cleanup_and_exit` ends the loop and removes the slot |
| `ShowText.Step` | workspace/tg3040/showtext/showtext.c:183-241 | only the top of the loop shows anything, and it shows the current text; other invocations only touch the slot; a timed wait before its deadline neither reads nor removes the slot unless it quits, which exits through `cleanup_and_exit`; a new text comes only from a parsed slot, which is then removed; every exit removes the slot; an exited loop stays exited |
| `ShowText.IntPlusTenth` | workspace/tg3040/showtext/showtext.c:221 | adding 0.1 to an `int` and truncating back changes no non-negative value and adds one to a negative one |
| `ShowText.IdleTimeNeverGrows` | workspace/tg3040/showtext/showtext.c:204-221 | adding 0.1 to the `int` idle counter leaves any non-negative value, and so its start value 0, unchanged |
| `ShowText.StepKeepsInv` | workspace/tg3040/showtext/showtext.c:193-223 | one step keeps the invariant: the timed wait only runs for positive durations, and the idle wait only for non-positive ones with `idle_time == 0` |
| `ShowText.StartSatisfiesInv` | workspace/tg3040/showtext/showtext.c:177-193 | a loop the gate starts satisfies the invariant |
| `ShowText.RunKeepsInv` | workspace/tg3040/showtext/showtext.c:183-235 | the same invariant holds after any sequence of events, so, with `ShowText.StartSatisfiesInv`, in every state the loop reaches |
| `ShowText.IdleWaitNeverEnds` | workspace/tg3040/showtext/showtext.c:202-223 | with no quit and no new command, an interruptible display waits forever and shows nothing more |
| `ShowText.IdleWaitTakesCommand` | workspace/tg3040/showtext/showtext.c:214-217 | the idle wait takes a saved command out of the slot, unlinking it |
| `ShowText.WaitTakes` | workspace/tg3040/showtext/showtext.c:204-218 | a quiet pass of the idle wait over a slot the read consumes switches to that command, empties the slot and goes on to the final check |
| `ShowText.RecheckTakes` | workspace/tg3040/showtext/showtext.c:226-231 | a quiet final check over a slot the read consumes starts the next iteration on that command with the slot empty |
| `ShowText.TakenCommandIsDropped` | workspace/tg3040/showtext/showtext.c:214-234 | a command taken in the idle wait is never shown when the slot stays empty: the final check fails and the loop exits |
| `ShowText.RewrittenSlotIsShown` | workspace/tg3040/showtext/showtext.c:226-231 | a command saved between the idle wait and the final check is shown next, once |
| `ShowText.TicksKeepSlotEmpty` | workspace/tg3040/showtext/showtext.c:183-241 | the display loop never fills an empty slot: it only reads and unlinks it, so the slot stays empty over any run of ticks |
| `ShowText.GateIgnoresRunningDisplay` | workspace/tg3040/showtext/showtext.c:160-235 | while a display started over an empty slot runs, timed or not and however long, a new invocation with a text is not deferred |
| `ShowText.SavedDurationGates` | workspace/tg3040/showtext/showtext.c:165-168 | a saved command makes the next invocation wait iff its duration is positive |
| `ShowText.DeferralsOverwrite` | workspace/tg3040/showtext/showtext.c:160-171 | behind a timed pending command, a second deferred request replaces the first |
| `ShowText.InterruptibleDeferralLetsNextStart` | workspace/tg3040/showtext/showtext.c:160-174 | a deferred request without positive duration does not protect the slot, so the next invocation displays |
| `ShowText.TimedWaitHolds` | workspace/tg3040/showtext/showtext.c:193-201 | before the full duration has elapsed, a timed display shows nothing else and leaves the slot alone, however many ticks pass |
| `ShowText.ExpiryTakesPending` | workspace/tg3040/showtext/showtext.c:195-231 | when the time is up, the final check takes the saved command and empties the slot |
| `ShowText.ExpiryShowsPending` | workspace/tg3040/showtext/showtext.c:183-235 | the command saved during a timed display is shown exactly once after the time is up, and then the wait its own duration selects starts |
| `I18n.Trim` | workspace/all/common/i18n.h:29-37 | the result neither starts nor ends with white space, and what follows it in the input is all white space |
| `I18n.TrimIsSlice` | workspace/all/common/i18n.h:29-37 | the result is the contiguous piece of the input that starts after its leading white space |
| `I18n.TrimIdempotent` | workspace/all/common/i18n.h:29-37 | trimming twice equals trimming once |
| `I18n.TrimAddsNothing` | workspace/all/common/i18n.h:29-37 | trimming only removes characters: a character of the result occurs in the input |
| `I18n.Find` | workspace/all/common/i18n.h:58 | `strchr` finds the first occurrence, or reports that there is none |
| `I18n.SplitAt` | workspace/all/common/i18n.h:60-66 | cutting a line at an index gives a key without `=` when no `=` comes before the cut, and a value that never holds a newline |
| `I18n.ParseLine` | workspace/all/common/i18n.h:53-67 | a line gives no pair iff it starts with `;`, `#` or newline or has no `=`; otherwise it gives the pair cut at the first `=`, whose key never contains `=` and whose value never contains a newline |
| `I18n.ParseFormatted` | workspace/all/common/i18n.h:55-66 | a `key=value` line written from a trimmed, `=`-free key and a newline-free value parses back to that pair |
| `I18n.Store` | workspace/all/common/i18n.h:69-73 | storing keeps every earlier pair in place; it adds exactly one pair, the parsed one, iff the line gave a pair and the table has fewer than 1000 |
| `I18n.LoadLines` | workspace/all/common/i18n.h:53-75 | the load loop only appends, at most one pair per line, and never grows a table of at most 1000 pairs past 1000 |
| `I18n.LoadKeepsFirstPairs` | workspace/all/common/i18n.h:69-73 | the load loop keeps the file's first 1000 pairs in file order and drops later ones |
| `I18n.StoreThenCap` | workspace/all/common/i18n.h:69-73 | storing one pair while there is room, or dropping it when the table is full, agrees with keeping the first 1000 pairs of the whole run |
| `I18n.Cleanup` | workspace/all/common/i18n.h:116-122 | `cleanup_i18n` empties the table and keeps the language and path |
| `I18n.LoadLanguage` | workspace/all/common/i18n.h:40-79 | a file that cannot be opened reports failure and leaves the whole configuration untouched; otherwise the table holds only the new file's first 1000 pairs |
| `I18n.Translate` | workspace/all/common/i18n.h:82-89 | `_` returns the translation of the first entry whose key equals its argument exactly, or the argument itself when there is none |
| `I18n.Truncate` | workspace/all/common/i18n.h:94 | a bounded copy keeps the whole string when it fits, and otherwise its prefix exactly one shorter than the buffer |
| `I18n.LangFile` | workspace/all/common/i18n.h:97-98 | the built path always fits its 512-byte buffer |
| `I18n.LangFileNamesLang` | workspace/all/common/i18n.h:98 | a path that fits has the form `dir/lang_<lang>.ini`, and the language is read back from it |
| `I18n.InitI18n` | workspace/all/common/i18n.h:92-106 | the directory is always stored (cut to 511 characters); the result is success iff `dir/lang_<lang>.ini` exists; only on success are the table reloaded and the language recorded |
| `I18n.SwitchLanguage` | workspace/all/common/i18n.h:109-113 | loads the language file in the stored directory; the recorded language and path never change; a failed switch changes nothing |
| `I18n.SwitchBeforeInit` | workspace/all/common/i18n.h:109-113 | before `init_i18n`, the zeroed `g_i18n` (i18n.h line 26) holds an empty directory, so a switch looks for `/lang_<lang>.ini` (cut to 511 characters); a failed switch leaves the table empty |
| `I18n.SwitchForgetsOldTable` | workspace/all/common/i18n.h:40-48 | after a successful switch the table does not depend on the table loaded before |
| `MenuUi.Widest` | workspace/all/common/ui.c:13-19 | the width loop reaches the largest option width (name plus padding), or 0 when every option is narrower than that |
| `MenuUi.MenuWidth` | workspace/all/common/ui.c:11-21 | a non-zero cached width is used unchanged; a zero cache is replaced by min(widest option, screen width less padding), which is stored back |
| `MenuUi.RenderMenuOptions` | workspace/all/common/ui.c:10-50 | the list comes back with the cache rule applied; exactly `end - start` rows are returned (none when `end <= start`); row `j` lays out item `start + j` in the block centred with C division at the cached width |
| `MenuUi.MenuLeft` | workspace/all/common/ui.c:23 | `ox` is half the free width truncated toward zero, as C's `/` does: the margins differ by at most one, the odd pixel on the right when the block fits and on the left when it is wider than the screen |
| `MenuUi.RowAt` | workspace/all/common/ui.c:25-48 | a row's name sits one padding inside the block at `oy + SCALE1(j * BUTTON_SIZE + 1)`; only the selected row gets the pill and black text; a value label appears iff `value >= 0` and `values` is non-null, in white, with its right edge one padding inside the block's right edge, at `oy + SCALE1(j * BUTTON_SIZE + 3)`; the pill spans the block at `oy + SCALE1(j * BUTTON_SIZE)` |
| `MenuUi.MenuRowsLayout` | workspace/all/common/ui.c:25-49 | over the window: row `j` shows item `start + j`; only the selected item is highlighted, so at most one row is, and one is iff `start <= selected < end`; all others are white |
| `MenuUi.ScrollBars` | workspace/all/common/ui.c:52-68 | arrows appear only when `count > end - start`; then the up arrow appears iff `start > 0` and the down arrow iff `end < count`, at the top and bottom positions, both at x `(screen_w - SCALE1(SCROLL_WIDTH)) / 2` with C's truncating division |
| `MenuUi.ArrowsMarkHiddenRows` | workspace/all/common/ui.c:52-67 | for a window inside the list, the up and down arrows show exactly whether rows are hidden above and below, and some arrow shows iff the window does not hold the whole list |
| `MenuUi.Description` | workspace/all/common/ui.c:70-78 | a description is drawn iff it is non-null; it is white, measured at line height `SCALE1(12)`, centred horizontally at x `(screen_w - w) / 2` with C's truncating division, with its bottom edge at `screen_h - SCALE1(PADDING)` |

## Left out

- SDL and TTF (`init_sdl`, `cleanup`, `clear_screen`, `display_text`): window, surface and font handling are library calls. The model reduces them to the `Render`/`Clear` outputs and to a success flag for `init_sdl`. A render that fails inside `display_text` is not distinguished from one that succeeds.
- `log_message`: it only timestamps and appends to a log file.
- Real time, `SDL_Delay` and `SDL_PollEvent` become ticks. Each tick carries a quit flag and a `time(NULL)` reading.
- Concurrency between invocations: another invocation appears only through its writes to the slot (`Saved`, `Removed`). Two display loops running at once are not modelled.
- `save_next_command` when `fopen(..., "w")` fails: the model assumes the slot file can always be written.
- Integer width: `atoi`, `%d` and `int` arithmetic are unbounded here. The model does not cover overflow of a duration outside the C `int` range.
- C memory concerns: the unbounded `%[^\n]` write into a 1024-byte buffer, `strdup`/`free`, and a `NULL` from `strdup`.
- `fgets` chunking: each line of a language file is taken whole. The 255-byte split of longer lines is not modelled, and neither are NUL bytes inside lines. Characters stand for bytes.
- `atoi` itself is a parameter of `ShowArgs.ParseArgs`, since its parse is not part of the modelled files.
- `SCALE1`, the font metrics (`TTF_SizeUTF8`, rendered surface widths, `GFX_sizeText`), colours and asset ids come from headers that are not part of this model. They are uninterpreted parameters.
- `UI_renderBackground`: two calls into the graphics API and nothing else.
- `MenuList.count` is taken to be the number of items.
- `workspace/tg3040/settings/settings.c`: a hard-coded SDL demo with no logic of its own.
- I18n.LangFile: its contract is only the length bound. The shape of a path that fits is stated by `I18n.LangFileNamesLang`, and the truncated form of an overlong path by `I18n.Truncate`.
- MenuUi.RenderMenuOptions and MenuUi.RowAt: their requires (`WindowReadable`, `ValueReadable`) exclude a window outside the item list and a `values[value]` out of bounds. C reads out of bounds there, which is undefined behaviour, so the model promises nothing for those inputs.
