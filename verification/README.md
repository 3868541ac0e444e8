# Portfolio desktop, terminal, typewriter and navigation bar in Dafny

A model of the interactive core of a personal portfolio site. The site has two faces:

- **Desktop page** (`script.js`). A fake Ubuntu desktop. It has:
  - draggable, stackable windows;
  - a dock that highlights the open windows;
  - a clock in the top panel;
  - a terminal window that interprets a handful of commands.
- **React page**. Its hero banner types and deletes a list of roles (`Hero.jsx`). Its navigation bar tracks the section being read and scrolls to a section on click (`Navbar.jsx`).

Everything is stated over immutable values and pure functions. An event handler becomes a function from the state before the event to the state after it. The document's elements become maps and records.

| file | module | what it holds |
|---|---|---|
| `Common.dfy` | `Common` | `Option`, `Min`, `Max` |
| `Desktop.dfy` | `Desktop` | windows, stacking counter, focus, dock, titlebar drag; the desktop invariant and its preservation over any session of events |
| `Clock.dfy` | `Clock` | the panel clock's text, and reading it back |
| `JsText.dfy` | `JsText` | JavaScript's `trim`, `split(' ')`, `join(' ')` and `toLowerCase`, as the language defines them |
| `Terminal.dfy` | `Terminal` | the terminal's Enter handler and command table |
| `Typewriter.dfy` | `Typewriter` | the hero banner's typing effect, its step timing, and its full cycle |
| `Navbar.dfy` | `Navbar` | scroll spy, shadow flag, link click, menu button, link highlight |

Modelling choices:

- **Windows.**
  - A window is known by the part of its element id before `-window`.
  - Its inline `left`, `top`, `width`, `height` and `z-index` styles are each `Option<int>`, where `None` means the style was never set. The page sets none of them until `openWindow` or a drag writes them.
  - `parseInt(style) || 100` is modelled exactly: an unset or zero z-index counts as 100.
- **Preconditions.**
  - Handlers that receive a window *element* (close, minimize, maximize, focus, the titlebar's handler) require the id to be present.
  - `openWindow` looks the id up itself and returns when it is absent, so `Open` is a no-op for unknown ids.
  - The dock's handler looks up its item's `data-window` with `getElementById` and uses the result without a null check. A dock item without a window throws before anything changes, so `DockClick` is a no-op for that id.
- **Page load.** `Desktop.Initial` is the desktop as the markup leaves it: every window closed with no inline style, the counter at 1000, nothing focused and no dock item highlighted. `init`'s `openWindow('about')` is the first `Open` event of a session.
  - `MouseMove` requires the focus pointer, when set, to name an existing window. The source holds an element reference there.
- **Terminal log.** The log is a sequence of lines: a prompt echoing the trimmed input, a reply, or the blank separator line.
  - The reply texts of the printing commands are a `Texts` record parameter. `Terminal.Replies` holds the page's own texts.
  - `date` prints its `now` parameter, which stands for `new Date().toString()`.
- **Hero banner.**
  - The typing effect is stated for any non-empty role list. `Typewriter.Roles` is the banner's list.
  - One effect run is one step (`Next`), plus the wait before it (`Delay`).
  - `Run` chains steps and adds up their waits.
- **Navigation bar.** The page is a map from element id to the section's `offsetTop` and `clientHeight`. A missing key is `getElementById` returning `null`.

The scroll spy makes the *first* section in page order whose band contains the offset active. A section's band runs from 180 pixels above its top, for its height. So a section is made active when the offset is its top minus 180 only when no earlier section's band also contains that offset. `Navbar.EarliestOwnerWins` states it with that condition.

## Model

| member | source | states |
|---|---|---|
| Desktop.Focus | script.js:73-88 | the counter goes up by one and the window gets the new value; every other window, open or not, ends at or below the old counter minus one, keeping its level when already below (unset or zero counts as 100); the window becomes `activeWindow` and its title the current app; nothing else changes |
| Desktop.FocusIsTopmost | script.js:75-82 | once the counter is at least 100, the focused window is strictly above every other window as the next `focusWindow` reads levels |
| Desktop.FocusKeepsInv | script.js:73-88 | focusing keeps the desktop invariant: the focused window holds the counter and every other window is below it |
| Desktop.UpdateDock | script.js:175-186 | afterwards each dock item is highlighted exactly when its window exists and is open; windows, focus and counter are untouched |
| Desktop.Open | script.js:28-52 | unknown id: nothing changes; an open window is only focused and keeps position and size; a closed one moves to 100 + 30·(open windows before the call) on both axes, gets 700×500, opens, takes the new top level while every other window gets `focusWindow`'s level, its own (unset or zero counting as 100) capped at the old counter minus one, takes focus, keeps its title, and the dock (same items) is consistent afterwards; the drag and every other window's classes, position and size are untouched |
| Desktop.OpenKeepsInv | script.js:28-52 | opening keeps the invariant and never lowers the counter |
| Desktop.Close | script.js:54-58 | clears both `active` and `maximized`, changes no other field and no other window, keeps focus and counter, leaves the same dock items, each consistent |
| Desktop.Minimize | script.js:60-63 | clears only `active`; `maximized`, z-index, focus and counter stay; the same dock items remain, each consistent |
| Desktop.CloseKeepsInv | script.js:54-63 | closing and minimizing keep the invariant |
| Desktop.Maximize | script.js:65-71 | flips `maximized` of that window and changes nothing else |
| Desktop.MaximizeInvolution | script.js:65-71 | maximizing twice gives back the same desktop |
| Desktop.MaximizeKeepsInv | script.js:65-71 | maximizing keeps the invariant |
| Desktop.DockClick | script.js:158-173 | a dock item without a window changes nothing; otherwise the click is exactly `Minimize` of an open window and `Open` of any other: the window's `active` flag flips, focus and counter are kept on minimizing and move to it on opening, the dock keeps its items and is consistent, and no other window opens or closes |
| Desktop.TitlebarMouseDown | script.js:95-108 | a press on a control button or a maximized window changes nothing; otherwise a drag starts with the pointer's offset inside the window's box and the window is focused: it takes the new top level, every other window gets its own level (unset or zero counting as 100) capped at the old counter minus one, no window changes anything but its z-index, the dock is unchanged and the label is the window's title |
| Desktop.TitlebarMouseDownKeepsInv | script.js:95-108 | a titlebar press keeps the invariant and never lowers the counter |
| Desktop.MouseMove | script.js:111-119 | with no drag or no focused window nothing changes; otherwise only the focused window moves: left edge exactly under the pointer minus the offset (unclamped), top edge the same but never above the 32-pixel panel |
| Desktop.MouseMoveKeepsInv | script.js:111-119 | dragging keeps the invariant, in particular every top edge stays at or below the panel |
| Desktop.MouseUp | script.js:121-128 | the drag ends, the offset and the rest of the desktop are untouched |
| Desktop.MoveAfterUpIsNoOp | script.js:111-123 | after the button is released a pointer move changes nothing |
| Desktop.TitlebarPress | script.js:95-143 | a titlebar press also reaches the window's own mousedown listener: the window always ends focused on top with every other window below the counter, the counter rising by two when a drag started and by one otherwise; the drag state, offsets included, is the titlebar handler's; each other window's level is its own capped at the old counter minus one, capped once more at the old counter when a drag started; only z-indices change among the windows, the dock is unchanged and the label is the window's title |
| Desktop.Apply | script.js:138-169 | dispatching any user event keeps the set of windows, the dock's items and the well-formedness of the focus pointer |
| Desktop.ApplyKeepsInv | script.js:54-169 | every handler keeps the invariant (stacking, dock consistency, windows below the panel) and never lowers the counter |
| Desktop.RunKeepsInv | script.js:28-186 | over any session of events the invariant holds throughout and the counter never decreases |
| Desktop.InitialInv | script.js:3-7 | the page as loaded (counter 1000, nothing focused, every window closed with no style set, no dock item lit) satisfies the invariant |
| Desktop.SessionKeepsInv | script.js:399-414 | from page load, over any session of events, the invariant holds and the counter stays at or above 1000 |
| Clock.Decimal | script.js:17-19 | `String(n)` is at least one digit, with no leading zero, and one or two digits below 10 and 100 |
| Clock.ValueOfDecimal | script.js:17-19 | reading the printed digits gives the number back |
| Clock.PadTwo | script.js:18-19 | `padStart(2, '0')` keeps the string as its suffix and fills with zeros to two characters |
| Clock.TwoDigits | script.js:18-19 | a number below 100 prints and pads to two digits reading back to it |
| Clock.ParseRender | script.js:21 | the clock text's layout, for three-letter names and two-character time fields, splits back into exactly its fields |
| Clock.Format | script.js:10-21 | the clock text for any weekday, month, day of the month and time of day reads back as those names and numbers, with the day of the month printed unpadded (`String(date)`, no leading zero) |
| JsText.Trim | script.js:300 | `trim` returns a string without white space at either end, no longer than its input |
| JsText.TrimBlank | script.js:300-309 | trimming gives the empty string exactly when the input is all white space |
| JsText.TrimReturnsCore | script.js:300 | for a blank prefix, a tight core and a blank suffix, `trim` returns the core |
| JsText.TrimIdempotent | script.js:300 | trimming twice is trimming once |
| JsText.Split | script.js:310 | `split(' ')` always yields at least one piece; its partners `JoinSplit`, `SplitJoin` and `SplitPiecesHaveNoSpace` pin the pieces down |
| JsText.Join | script.js:316 | `join(' ')` of no pieces is empty; the first piece starts the result and a space follows it when there are more |
| JsText.JoinSplit | script.js:310-316 | joining the pieces of `split(' ')` with single spaces gives back the string |
| JsText.SplitJoin | script.js:310-316 | splitting a join of space-free pieces gives back the pieces |
| JsText.SplitPiecesHaveNoSpace | script.js:310 | no piece of `split(' ')` contains a space |
| JsText.SplitAtFirstSpace | script.js:310-312 | the first piece is everything before the first space; the rest are the pieces of what follows |
| JsText.Lower | script.js:311 | `toLowerCase` keeps the length and maps each character on its own: `A`–`Z` to `a`–`z`, every other character to itself; its partners `LowerNoUpper`, `LowerKeepsSpaces` and `LowerIdempotent` state what it leaves fixed |
| JsText.LowerKeepsSpaces | script.js:311 | lower-casing neither adds nor removes a space |
| JsText.LowerIdempotent | script.js:311 | lower-casing twice is lower-casing once |
| JsText.LowerNoUpper | script.js:311 | a string with no upper-case ASCII letter is its own lower case |
| Terminal.Lookup | script.js:246-317 | a name found in the table is the key of the command returned |
| Terminal.LookupName | script.js:246-296 | every command is found under its own key |
| Terminal.Perform | script.js:246-296 | only `clear` wipes; `date` prints the current time; `ls` prints its listing |
| Terminal.CommandWord | script.js:310-311 | the command word never contains a space; `RespondToWordAndRest` shows it is the lower-cased text before the first space |
| Terminal.NotFound | script.js:320 | the word can be read back from the not-found message, between its 19-character lead and 37-character tail |
| Terminal.Respond | script.js:309-321 | there is no reply exactly when the command word is empty, and the reply wipes the log exactly when the word is `clear` |
| Terminal.RespondToWordAndRest | script.js:309-321 | for a space-free word `w`, a space and any text: an empty word gets no reply; `echo` in any letter case prints the text after the space, inner spacing kept; a table word gets its handler's effect; any other word gets the not-found message with the lower-cased word |
| Terminal.RespondToWord | script.js:309-321 | the same for a single word, `echo` printing the empty text |
| Terminal.Record | script.js:303-336 | a wipe leaves only the blank line; otherwise the old log is kept, then the prompt, the printed reply if any, and the blank line |
| Terminal.Enter | script.js:298-341 | after Enter the log is the old one plus a prompt echoing the trimmed input, at most one reply line and a blank line, or just a blank line for `clear` |
| Terminal.CommandWordNonEmpty | script.js:300-319 | a trimmed non-empty input has a non-empty command word, so the not-found branch always prints |
| Terminal.OneReplyPerCommand | script.js:309-329 | every non-empty input other than `clear` adds exactly three lines with a reply between prompt and blank |
| Terminal.BlankInput | script.js:300-336 | an all-blank input adds an empty prompt and the blank line only |
| Terminal.ClearLeavesBlank | script.js:286-336 | `clear`, in any letter case and with any arguments, leaves exactly one blank line whatever was logged |
| Terminal.EnterPrints | script.js:303-336 | a printed reply lands between the prompt and the blank line |
| Terminal.EchoPrintsRest | script.js:310-316 | `echo` prints exactly what follows the first space, inner spacing kept |
| Terminal.EchoAlone | script.js:315-316 | a lone `echo` prints an empty line |
| Terminal.UnknownCommand | script.js:319-320 | a word outside the table gets `Command not found: <word>. Type 'help' for available commands.` with the lower-cased word |
| Terminal.TableCommand | script.js:317-318 | a table command other than `clear` prints its own reply whatever the arguments |
| Terminal.LsExample | script.js:293-295 | `ls` prints `about  skills  projects  contact` |
| Terminal.EchoExample | script.js:315-316 | `echo hello world` prints `hello world` |
| Typewriter.Prefix | src/components/Hero.jsx:39-49 | `substring(0, n)` is a prefix of the role, of length `n` in range and clamped outside it |
| Typewriter.Next | src/components/Hero.jsx:29-52 | deleting an empty text moves to typing the next role (wrapping after the last); deleting removes the last character; a full role starts deleting; typing adds the role's next character |
| Typewriter.Delay | src/components/Hero.jsx:32-51 | each wait is fixed by the change the step makes: a typed character waits 150 ms, a deleted one 75 ms, the switch to deleting 2000 ms, the switch to the next role the intended 500 ms |
| Typewriter.OneChangePerStep | src/components/Hero.jsx:32-52 | every step types a character, deletes one, starts deleting or starts the next role, so `Delay`'s contract fixes every wait |
| Typewriter.DelayAsWritten | src/components/Hero.jsx:32-36 | as written, the switch to a new role happens without wait; every other wait is the intended one |
| Typewriter.NextKeepsInv | src/components/Hero.jsx:29-50 | each step keeps the index in range and the text a prefix of the current role |
| Typewriter.RunKeepsInv | src/components/Hero.jsx:26-55 | any number of steps keeps that invariant |
| Typewriter.StepOrder | src/components/Hero.jsx:32-46 | the index moves only once the text is empty while deleting; deleting starts only on a fully typed role; typing resumes only on the empty text |
| Typewriter.RunAdd | src/components/Hero.jsx:26-55 | running `a` steps then `b` steps is running `a + b` steps, with the waits added |
| Typewriter.TypeRest | src/components/Hero.jsx:47-50 | typing the rest of a role takes one 150 ms step per missing character |
| Typewriter.DeleteAll | src/components/Hero.jsx:37-40 | deleting takes one 75 ms step per character down to the empty text |
| Typewriter.TypeAndHold | src/components/Hero.jsx:43-50 | from the empty text a role is typed in full and the switch to deleting follows, taking 150 ms per character plus the 2000 ms hold |
| Typewriter.DeleteAndWrap | src/components/Hero.jsx:32-41 | from a fully typed role the text is deleted in full and the next role begins (wrapping after the last), taking 75 ms per character plus the pause |
| Typewriter.Round | src/components/Hero.jsx:29-52 | from the empty text a role is typed, held, deleted and the next role begins, in 2n + 2 steps and 225 ms per character plus the hold and the pause |
| Typewriter.Rounds | src/components/Hero.jsx:9-55 | after the steps of the first `j` rounds the machine is at the start of role `j` (role 0 after the last), the time taken being the sum of those rounds' times |
| Typewriter.FullCycle | src/components/Hero.jsx:9-55 | from the first render the banner is back where it started after 92 steps, taking 19.45 s with the intended pauses |
| Typewriter.BannerCycle | src/components/Hero.jsx:9-55 | the banner's cycle takes 17.45 s plus four pauses, whichever timing is used |
| Typewriter.PauseLostAsWritten | src/components/Hero.jsx:33-36 | as written a cycle visits the same states but is 2 s shorter: each of the four role switches loses its 500 ms |
| Navbar.FirstOwner | src/components/Navbar.jsx:17-29 | the index found is the first existing section whose band contains the offset; every section before it is absent or does not contain it |
| Navbar.OnScroll | src/components/Navbar.jsx:9-30 | `scrolled` holds exactly when the offset is past 100; the menu is untouched; the active section is kept or becomes one of the page's sections |
| Navbar.EarliestOwnerWins | src/components/Navbar.jsx:17-27 | a section whose band contains the offset, with no earlier section's band containing it, becomes active |
| Navbar.NoOwnerKeepsActive | src/components/Navbar.jsx:17-29 | when no section's band contains the offset the active section stays |
| Navbar.ActiveOwnsOffset | src/components/Navbar.jsx:17-27 | conversely, a newly active section contains the offset and no earlier section does |
| Navbar.TargetId | src/components/Navbar.jsx:40 | the target id is the href without its first character |
| Navbar.OnClick | src/components/Navbar.jsx:36-52 | the menu closes; the page scrolls to 80 pixels above the target exactly when the target id is non-empty and exists; nothing else changes |
| Navbar.ClickScrollsToSection | src/components/Navbar.jsx:40-51 | a link to `#id` scrolls to 80 pixels above section `id` when it exists |
| Navbar.ToggleMenu | src/components/Navbar.jsx:96 | the menu button flips `isOpen` and nothing else |
| Navbar.ToggleTwice | src/components/Navbar.jsx:96 | pressing the menu button twice restores the state |
| Navbar.LinksMatchSections | src/components/Navbar.jsx:14-60 | the links point one for one, in order, at the sections the scroll spy checks |
| Navbar.KnownPreserved | src/components/Navbar.jsx:4-96 | starting from `home`, scrolling, clicking and the menu button keep the active section one of the page's sections |
| Navbar.Highlighted | src/components/Navbar.jsx:85 | a link is highlighted exactly when its `href` is one character followed by the active section's id |
| Navbar.ExactlyOneHighlighted | src/components/Navbar.jsx:85-130 | with a known active section exactly one link is highlighted |

## Left out

- Event-listener registration (`setup*`), element lookups by selector, and cursor styles are not modelled. They are wiring; the modelled handlers receive their inputs as parameters. The keyboard shortcut `Ctrl+Alt+T` is `Open("terminal")`. The activities tiles and the initial `openWindow('about')` are the same `Open` event.
- The activities overview, the power button, the contact form's alert, the console messages and the once-a-second clock refresh are not modelled. They are I/O and timers with no state the model tracks.
- `new Date()` is a parameter: the clock takes weekday, month, day of the month, hours and minutes, and the terminal's `date` prints its `now` argument.
- `getBoundingClientRect` is not modelled. The titlebar press takes the box's left and top edges as parameters.
- Desktop.TitlebarMouseDown: the pointer's `clientX`/`clientY` and the box's edges are integers here. In the browser they can be fractional; the offset arithmetic is subtraction, which keeps its properties over the reals.
- Desktop.MouseMove: the pointer position and drag offset are integers here. Fractional values are not modelled; the subtraction and `Math.max` keep their properties over the reals.
- Desktop.Initial: `index.html` is not part of this model. The initial desktop assumes its markup opens no window and highlights no dock item; the window titles, the dock's items and the panel label are parameters.
- Terminal.Lookup: JavaScript's prototype lookup through `commands[cmd]` is not modelled. For example, `constructor` finds the inherited `Object` constructor and prints `[object Object]`; the table here has exactly its eight keys.
- Terminal.Enter: the handler also empties the input box and scrolls the output to its bottom. Neither is state the log holds, so neither is modelled.
- Terminal.Enter: the prompt line is built with `innerHTML`, so markup typed into the terminal is interpreted. The model keeps the trimmed input as plain text.
- JsText.Lower: `toLowerCase` is modelled on the ASCII letters only. Other scripts' case mapping is not modelled.
- Typewriter.Delay: the waits are the timer lengths the effect schedules. React's render scheduling and the timers themselves are not modelled.
- The hero's parallax translate and opacity are not modelled. They are floating-point functions of the scroll offset.
- Navbar.OnScroll: the scroll offset is an integer. Fractional `pageYOffset` values are not modelled.
- The smooth scroll animation is not modelled. `OnClick` returns the target position only.
- The About, Skills, Projects, Contact and Footer components are not modelled. They are static content, viewport-triggered transitions and a timer-driven counter animation.

## Findings

| source | as written | input that shows it | evidently intended | confidence | as-written member | corrected member |
|---|---|---|---|---|---|---|
| src/components/Hero.jsx:33-36 | On reaching the empty text while deleting, the effect sets `isDeleting` and `roleIndex` at once. It then schedules a 500 ms timeout with an empty callback. The state change re-renders immediately and the cleanup clears that timeout, so the next role starts typing with no pause. | One full cycle from `("", 0, false)` with the roles at Hero.jsx:9. It takes 17.45 s instead of 19.45 s: the four role switches each lose 500 ms. | A 500 ms pause before the next role starts typing, as the length of the scheduled timeout says. | medium, not executed | Typewriter.PauseLostAsWritten | Typewriter.FullCycle |
