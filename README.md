# Context-menu auto-hide monitor, in Dafny

This project models the auto-hide monitor of the context-menu library, `src/presenter/ContextMenuMonitor.ts`. The monitor decides when an open context menu is dismissed. It has four parts:

- **`EventListener`** reads a list of watch specifications such as `keydown:27` or `keydown:ctrl+27`. For each non-blank specification it installs one window listener and records it in a registry keyed by the raw specification text. When an event arrives, the listener decides whether to call `onevent`:
  - **Mouse events.** Never while a submenu is open. Never inside the single open root menu, edges included. Otherwise, when no combo is declared, or when the pressed combo matches one that is declared.
  - **Keyboard events.** When the pressed combo matches a declared one.
  - **Other events** (resize, scroll). Only when no combo is declared.
- **Combo matching** (`equalsKey`) works in four steps:
  - cleans both strings: white space is removed, runs of `+` collapse to one, and leading and trailing `+` are dropped;
  - splits each string on `+`;
  - sorts the pieces and rejoins them;
  - compares the results.

  `containsKey` asks whether any declared combo matches.
- **`TargetRectListner`** polls the rectangle of the element the menu was opened on. When the rectangle differs from the last one seen, it clears that baseline and calls `onchanged`.
- **`ContextMenuMonitor`** wires both watchers to one callback and starts them on a fixed list: Escape, a mouse press, resize and scroll. It also stops them.

The model follows the code as written, including behaviour a reader might not expect:

- In the mouse branch, ctrl, meta and shift all contribute the token `alt`.
- The pressed combo joins five slots, so an event with no modifiers gives text such as `27++++`. The cleaning step removes the extra `+`.
- Matching compares multisets of tokens, so `ctrl+ctrl+27` does not match `ctrl+27`.
- The poller's `start` calls `stop` before `run`. So `run` sees `stopped` and schedules nothing.
- Neither `start` nor `stop` resets the rectangle baseline.
- A tick that detects a change still reschedules.
- `start` adds to the registry without clearing it. A repeated specification overwrites its own entry.

Two static classes, `EventListener` and `TargetRectListner`, are modelled as objects that the facade holds. Rectangles are compared field by field on left, top, right and bottom. That is the assumed meaning of `Rect.equals`; `src/utils/Rect.ts` is not part of this model.

Files:

- `js_text.dfy` (module `JsText`): the JavaScript string operations the code relies on. These are `split` on one character, `join`, the default `sort`, `trim`, and `'' + n`.
- `key_combo.dfy` (module `KeyCombo`): `fix`, `equalsKey` and `containsKey`.
- `input_watch.dfy` (module `InputWatch`): specification parsing, the listener's decision, and the `EventListener` class.
- `rect_watch.dfy` (module `RectWatch`): the `TargetRectListener` class and runs of ticks.
- `monitor_facade.dfy` (module `MonitorFacade`): the `ContextMenuMonitor` class and concrete scenarios.
- `geometry.dfy` and `wrappers.dfy`: rectangles and points, and `Option`.

## Model

| member | source | states |
|---|---|---|
| JsText.Split | src/presenter/ContextMenuMonitor.ts:28 | `split` on one character always returns at least one piece |
| JsText.SplitSepFree | src/presenter/ContextMenuMonitor.ts:28 | no piece returned by `split` contains the separator |
| JsText.JoinSplit | src/presenter/ContextMenuMonitor.ts:114-121 | joining the pieces of a split with the same separator gives back the original string |
| JsText.SplitJoin | src/presenter/ContextMenuMonitor.ts:114-121 | splitting a join of pieces that do not contain the separator gives back exactly those pieces |
| JsText.Sort | src/presenter/ContextMenuMonitor.ts:117-118 | the in-place `sort` keeps the same multiset of tokens |
| JsText.SortSorted | src/presenter/ContextMenuMonitor.ts:117-118 | the result of `sort` is ordered under the string order |
| JsText.SortedUnique | src/presenter/ContextMenuMonitor.ts:117-121 | two sorted sequences with the same multiset are equal, which is why sorting makes the comparison order-blind |
| JsText.LexLeTotal | src/presenter/ContextMenuMonitor.ts:117-118 | the string order used by `sort` is total |
| JsText.LexLeAntisymmetric | src/presenter/ContextMenuMonitor.ts:117-118 | the string order is antisymmetric |
| JsText.LexLeTransitive | src/presenter/ContextMenuMonitor.ts:117-118 | the string order is transitive |
| JsText.Join | src/presenter/ContextMenuMonitor.ts:120-121 | `join` with one separator character; `JoinSplit` and `SplitJoin` show it is the inverse of `split` |
| JsText.Trim | src/presenter/ContextMenuMonitor.ts:25 | `trim()`, white space dropped at both ends; `TrimEmptyIffAllSpace` states when it is empty |
| JsText.LexLe | src/presenter/ContextMenuMonitor.ts:117-118 | the string order used by the default `sort`; `LexLeTotal`, `LexLeAntisymmetric` and `LexLeTransitive` make it a total order |
| JsText.TrimEmptyIffAllSpace | src/presenter/ContextMenuMonitor.ts:25 | `trim()` gives an empty string exactly when every character is white space |
| JsText.NumberToString | src/presenter/ContextMenuMonitor.ts:60 | `'' + code` starts with a minus sign exactly when the number is negative, and every other character is a digit, so it never contains `+` or white space |
| JsText.NatToDecimalInjective | src/presenter/ContextMenuMonitor.ts:60 | two natural numbers with the same decimal digits are equal |
| JsText.NumberToStringInjective | src/presenter/ContextMenuMonitor.ts:60 | `'' + a` and `'' + b` are the same text only when `a` and `b` are the same number |
| KeyCombo.RemoveSpaces | src/presenter/ContextMenuMonitor.ts:105 | the first pass of `fix` leaves no white space, and leaves a string without white space unchanged |
| KeyCombo.RemoveSpacesAppend | src/presenter/ContextMenuMonitor.ts:105 | the first pass works character by character: on a concatenation it is the concatenation of its results |
| KeyCombo.RemoveSpacesChar | src/presenter/ContextMenuMonitor.ts:105 | on one character, the first pass drops it exactly when it is white space and keeps it otherwise |
| KeyCombo.RemoveSpacesAllSpace | src/presenter/ContextMenuMonitor.ts:105 | a run of white space disappears entirely |
| KeyCombo.CollapsePlus | src/presenter/ContextMenuMonitor.ts:106 | the second pass leaves no `"++"`, keeps the first character, and adds no white space |
| KeyCombo.StripLeadingPlus | src/presenter/ContextMenuMonitor.ts:107 | the third pass returns a suffix of its input that does not start with `+` |
| KeyCombo.StripTrailingPlus | src/presenter/ContextMenuMonitor.ts:108 | the fourth pass returns a prefix of its input that does not end with `+` |
| KeyCombo.Fix | src/presenter/ContextMenuMonitor.ts:104-110 | `fix` returns a string with no white space, no `"++"`, and no `+` at either end |
| KeyCombo.StripLeadingKeepsTokens | src/presenter/ContextMenuMonitor.ts:107 | dropping leading `+` loses no non-empty token |
| KeyCombo.StripTrailingKeepsTokens | src/presenter/ContextMenuMonitor.ts:108 | dropping trailing `+` loses no non-empty token |
| KeyCombo.CollapseKeepsTokens | src/presenter/ContextMenuMonitor.ts:106 | collapsing runs of `+` keeps the first piece and every later non-empty token |
| KeyCombo.FixIsJoinOfTokens | src/presenter/ContextMenuMonitor.ts:104-110 | `fix(s)` is the non-empty `+`-separated tokens of `s` without white space, rejoined with single `+` |
| KeyCombo.CleanIsJoinOfTokens | src/presenter/ContextMenuMonitor.ts:104-110 | a string that is already clean is the join of its own non-empty tokens |
| KeyCombo.FixIdempotent | src/presenter/ContextMenuMonitor.ts:104-110 | applying `fix` twice gives the same result as applying it once |
| KeyCombo.TokensIgnoreSpaces | src/presenter/ContextMenuMonitor.ts:105 | a combo has the same tokens as its own text with the white space removed |
| KeyCombo.FixIgnoresBlanks | src/presenter/ContextMenuMonitor.ts:104-110 | white space inserted at any position of a combo does not change the result of `fix` |
| KeyCombo.EqualsKeyIgnoresBlanks | src/presenter/ContextMenuMonitor.ts:103-125 | white space inserted at any position of either argument never changes the outcome of `equalsKey`, so `" ctrl + 27 "` equals `"ctrl+27"` |
| KeyCombo.TokensShape | src/presenter/ContextMenuMonitor.ts:111-115 | the pieces compared are either the single empty piece of an empty cleaned combo, or non-empty tokens free of `+` and white space |
| KeyCombo.TokensOfJoin | src/presenter/ContextMenuMonitor.ts:104-115 | cleaning and splitting a `+`-join of clean slots gives back its non-empty slots, in order |
| KeyCombo.TokensOfCleanJoin | src/presenter/ContextMenuMonitor.ts:104-115 | a combo written with non-empty pieces and no blanks keeps exactly those pieces |
| KeyCombo.Tokens | src/presenter/ContextMenuMonitor.ts:104-115 | the pieces `equalsKey` sorts: the cleaned combo split on `+`; `TokensShape` and `FixIsJoinOfTokens` state what they are |
| KeyCombo.Canonical | src/presenter/ContextMenuMonitor.ts:111-121 | the cleaned, split, sorted and rejoined text that `equalsKey` compares |
| KeyCombo.EqualsKey | src/presenter/ContextMenuMonitor.ts:103-125 | `equalsKey` compares the canonical texts of both arguments; `EqualsKeyIffSameTokens` states what that decides |
| KeyCombo.EqualsKeyIffSameTokens | src/presenter/ContextMenuMonitor.ts:103-125 | `equalsKey(code, key)` holds exactly when the cleaned tokens of both form the same multiset |
| KeyCombo.EqualsKeyIgnoresOrder | src/presenter/ContextMenuMonitor.ts:103-125 | rewriting a combo with its tokens in any order never changes the outcome of `equalsKey` |
| KeyCombo.EqualsKeyIgnoresCleaning | src/presenter/ContextMenuMonitor.ts:111-124 | pre-cleaning either argument with `fix` never changes the outcome |
| KeyCombo.EqualsKeyEquivalence | src/presenter/ContextMenuMonitor.ts:103-125 | `equalsKey` is reflexive, symmetric and transitive |
| KeyCombo.AnyMatchIff | src/presenter/ContextMenuMonitor.ts:126-133 | the front-to-back scan finds a match exactly when some declared combo satisfies `equalsKey` with the key |
| KeyCombo.ContainsKey | src/presenter/ContextMenuMonitor.ts:126-133 | `containsKey` returns true exactly when some declared combo satisfies `equalsKey` with the key, and false for no declared combos |
| InputWatch.ParseSpec | src/presenter/ContextMenuMonitor.ts:25-31 | a specification is skipped exactly when it is blank once trimmed; otherwise its type and its codes contain no `:` |
| InputWatch.ParseSpecRoundTrip | src/presenter/ContextMenuMonitor.ts:28-31 | for a non-blank specification, the type followed by the codes, joined with `:`, is the specification |
| InputWatch.UnparseParses | src/presenter/ContextMenuMonitor.ts:28-31 | a non-blank specification built from a type and codes without `:` parses back to that type and those codes |
| InputWatch.KeyboardCode | src/presenter/ContextMenuMonitor.ts:72-81 | the keyboard code is absent only when keyCode, charCode and which are all absent; otherwise it is at least each present field and equals one of them |
| InputWatch.CodeSlotClean | src/presenter/ContextMenuMonitor.ts:60 | the code slot has no `+` or white space, and is non-empty when a code is present |
| InputWatch.SlotsClean | src/presenter/ContextMenuMonitor.ts:59-65 | every one of the five slots is free of `+` and white space |
| InputWatch.SlotTokens | src/presenter/ContextMenuMonitor.ts:59-66 | the tokens of a joined five-slot combo are the code, then each filled modifier slot in order |
| InputWatch.NonEmptyOfSlots | src/presenter/ContextMenuMonitor.ts:59-65 | the empty slots of a five-slot array are exactly the ones that drop out |
| InputWatch.MouseSlots | src/presenter/ContextMenuMonitor.ts:59-65 | the five-slot `keys` array of the mouse branch, with `alt` in the ctrl, meta and shift slots as written |
| InputWatch.KeyboardSlots | src/presenter/ContextMenuMonitor.ts:82-88 | the five-slot `keys` array of the keyboard branch |
| InputWatch.MouseCombo | src/presenter/ContextMenuMonitor.ts:59-66 | the pressed mouse combo, the slots joined with `+`; `MouseComboTokens` states its tokens |
| InputWatch.KeyboardCombo | src/presenter/ContextMenuMonitor.ts:82-89 | the pressed keyboard combo, the slots joined with `+`; `KeyboardComboTokens` states its tokens |
| InputWatch.KeyboardComboTokens | src/presenter/ContextMenuMonitor.ts:82-89 | the keyboard combo's tokens are the code followed by `alt`, `ctrl`, `meta`, `shift` for each held modifier |
| InputWatch.MouseComboTokens | src/presenter/ContextMenuMonitor.ts:58-66 | the mouse combo's tokens are the button followed by one `alt` per held modifier, whatever the modifier |
| InputWatch.Fires | src/presenter/ContextMenuMonitor.ts:36-96 | the listener's decision for one event; `MouseDecision` and `KeyboardAndOtherDecision` state it case by case |
| InputWatch.MouseDecision | src/presenter/ContextMenuMonitor.ts:36-70 | a mouse event never fires with more than one menu open, or inside the only open menu (edges included); otherwise it fires exactly when no combo is declared or one matches |
| InputWatch.KeyboardAndOtherDecision | src/presenter/ContextMenuMonitor.ts:71-96 | a keyboard event fires exactly when a declared combo matches, so never with none declared; any other event fires exactly when no combo is declared |
| InputWatch.KeyboardFiresIffSameTokens | src/presenter/ContextMenuMonitor.ts:72-91 | a keyboard event fires exactly when some declared combo has, as a multiset, the code and the names of the held modifiers |
| InputWatch.MouseFiresIffSameTokens | src/presenter/ContextMenuMonitor.ts:56-70 | outside the menus, a mouse event fires exactly when no combo is declared or one has the button plus one `alt` per held modifier |
| InputWatch.MouseModifiersOnlyCounted | src/presenter/ContextMenuMonitor.ts:59-66 | mouse events that differ only in which modifiers are held, not in how many, get the same decision |
| InputWatch.MouseNeverMatchesCtrlMetaShift | src/presenter/ContextMenuMonitor.ts:59-66 | a declared combo that names `ctrl`, `meta` or `shift` never matches a mouse event |
| InputWatch.NumberToStringNotName | src/presenter/ContextMenuMonitor.ts:60 | a button or key code never reads as a modifier name |
| InputWatch.MouseTokensMultiset | src/presenter/ContextMenuMonitor.ts:59-65 | the mouse tokens are the button once and `alt` as many times as modifiers are held |
| InputWatch.Registered | src/presenter/ContextMenuMonitor.ts:23-31 | the registry after `start` has gone through the specifications, later ones overwriting; `RegisteredEntries` states its entries |
| InputWatch.RegisteredEntries | src/presenter/ContextMenuMonitor.ts:23-31 | `start` adds exactly the non-blank specifications as keys, each mapped to its parse, and leaves every other entry as it was |
| InputWatch.EventListener.constructor | src/presenter/ContextMenuMonitor.ts:13 | the registry starts empty and `onevent` has not been called |
| InputWatch.EventListener.Stop | src/presenter/ContextMenuMonitor.ts:16-21 | `stop` leaves the registry empty |
| InputWatch.EventListener.Start | src/presenter/ContextMenuMonitor.ts:23-101 | `start` updates the registry one specification at a time, skipping blank ones and overwriting repeated ones |
| InputWatch.EventListener.Deliver | src/presenter/ContextMenuMonitor.ts:35-97 | an installed listener calls `onevent` once exactly when the decision says it fires, and otherwise not at all |
| RectWatch.Moved | src/presenter/ContextMenuMonitor.ts:166-178 | a tick reports a move when both the baseline and the measurement exist and differ |
| RectWatch.Poll | src/presenter/ContextMenuMonitor.ts:166-178 | the baseline and the number of moves after a run of ticks; the lemmas below state its properties |
| RectWatch.NextBaseline | src/presenter/ContextMenuMonitor.ts:167-176 | a move clears the baseline; a measurement that is not a move becomes the baseline; no measurement keeps the baseline |
| RectWatch.SteadyTargetNeverMoves | src/presenter/ContextMenuMonitor.ts:166-178 | a target whose rectangle never changes is never reported, and becomes the baseline |
| RectWatch.MovedTargetReportedOnce | src/presenter/ContextMenuMonitor.ts:166-178 | after a steady run, the first different rectangle is reported once and clears the baseline |
| RectWatch.MovesNeedBaseline | src/presenter/ContextMenuMonitor.ts:166-186 | every reported move uses up a baseline, so a run of ticks reports at most half as many moves as measurements |
| RectWatch.TargetRectListener.constructor | src/presenter/ContextMenuMonitor.ts:140-146 | no timeout is pending, there is no baseline, and no callback is assigned |
| RectWatch.TargetRectListener.Stop | src/presenter/ContextMenuMonitor.ts:148-154 | `stop` marks the poller stopped and leaves no timeout pending |
| RectWatch.TargetRectListener.Run | src/presenter/ContextMenuMonitor.ts:162-166 | `run` schedules a tick exactly when the poller is not stopped |
| RectWatch.TargetRectListener.Start | src/presenter/ContextMenuMonitor.ts:156-160 | `start` leaves the poller not stopped and with no timeout pending |
| RectWatch.TargetRectListener.Hide | src/presenter/ContextMenuMonitor.ts:181-186 | `hide` clears the baseline and calls `onchanged` once when one is assigned |
| RectWatch.TargetRectListener.Tick | src/presenter/ContextMenuMonitor.ts:166-178 | a tick updates the baseline as `NextBaseline` says, calls `onchanged` once exactly on a move, and always reschedules |
| MonitorFacade.ContextMenuMonitor.Start | src/presenter/ContextMenuMonitor.ts:192-211 | `start` assigns the callback, leaves the poller running with no tick scheduled and its baseline untouched, and registers the fixed list on top of the existing registry; it changes nothing else, so neither callback counter moves |
| MonitorFacade.ContextMenuMonitor.Stop | src/presenter/ContextMenuMonitor.ts:213-216 | `stop` leaves the poller stopped with nothing pending and the registry empty; the callback assignment, the baseline and both callback counters stay as they were |
| MonitorFacade.MonitorSpecsRegistered | src/presenter/ContextMenuMonitor.ts:205-210 | on an empty registry, the fixed list registers `keydown` with code `27`, and `mousedown`, `resize` and `scroll` with no codes |
| MonitorFacade.MonitorSpecsParse | src/presenter/ContextMenuMonitor.ts:205-210 | each of the four fixed specifications parses to its event type, with the code `27` for `keydown` |
| MonitorFacade.RegisteredFour | src/presenter/ContextMenuMonitor.ts:23-31 | four parsing specifications registered in order give exactly those four entries, later ones overwriting |
| MonitorFacade.ParseEscapeSpec | src/presenter/ContextMenuMonitor.ts:28-31 | `keydown:27` parses to type `keydown` and the single code `27` |
| MonitorFacade.EscapeDismisses | src/presenter/ContextMenuMonitor.ts:72-91 | Escape with no modifier held fires the `keydown:27` watch, whatever menus are open |
| MonitorFacade.ModifiedEscapeIgnored | src/presenter/ContextMenuMonitor.ts:82-91 | Escape with any of alt, ctrl, meta or shift held does not fire the `keydown:27` watch, because the pressed combo has more tokens than `27` |
| MonitorFacade.OtherKeyIgnored | src/presenter/ContextMenuMonitor.ts:72-91 | a key whose code is present and is not 27 never fires the `keydown:27` watch, whatever modifiers are held |
| MonitorFacade.CtrlEscapeDeclared | src/presenter/ContextMenuMonitor.ts:82-91 | any declared combo whose tokens are `ctrl` and `27` fires on Escape pressed with ctrl alone |
| MonitorFacade.SingleComboFires | src/presenter/ContextMenuMonitor.ts:72-91 | with one declared combo, a keyboard event fires exactly when that combo has the event's tokens as a multiset |
| MonitorFacade.CtrlEscapeDeclaredAsCtrlPlus27 | src/presenter/ContextMenuMonitor.ts:10 | the documented example `keydown:ctrl+27` fires on ctrl+Escape |
| MonitorFacade.ClickInsideMenuScenario | src/presenter/ContextMenuMonitor.ts:44-55 | a press inside the only open menu is not dismissed, and the same press with no menu open is |

## Left out

- Window `addEventListener`/`removeEventListener` are left out; only the registry is modelled. `stop` calls `removeEventListener` with the whole specification text as the event type and without the capture flag (line 18). Listeners are added with that flag (line 98). So the model does not claim that `stop` detaches anything.
- `setTimeout`/`clearTimeout` and the 100 ms delay are left out. A pending timeout is the flag `timer`, and its callback is `Tick`. Any order of callbacks is allowed; nothing runs concurrently.
- What `ContextMenu.hide()` does when the callback fires is left out. It may re-enter the monitor. The callback is a counter: `fired` for the event watcher, `changes` for the poller, and their sum `Hides` for the facade.
- `Logger.debug` and `Logger.error` are left out. The `error` branch for other events with declared codes is modelled only as "does not fire".
- `Utils.getMouseEventPoint`, `getBoundingClientRect` and `ContextMenu.presenter` are not part of this model. The mouse position, the open menus' rectangles and the measured target rectangle are inputs. Coordinates are only compared, so integers stand for the DOM's floating-point values.
- `Rect.equals` is assumed to compare the four edges field by field.
- Specification entries that are `undefined` or `null` are left out. The parameter's declared type is `Array<string>`.
- The case where `onevent` was never assigned is left out. Every listener is assumed to call the facade's callback, so `Deliver` counts it. For the poller, the `onchanged` test is modelled by `onchangedSet`.
- Key and button codes are unbounded integers standing for the DOM's 16- and 32-bit codes. JavaScript writes numbers from 1e21 up in exponent form (`"1e+21"`), which `NumberToString` does not model, because no DOM code reaches that size.
- JsText.IsSpace: JavaScript's `\s` and `trim` are modelled on a fixed set of white-space characters. It is not the full Unicode space-separator category.
- JsText.Sort: the default `sort` compares UTF-16 code units; the model compares characters. The order is total in both cases, and `EqualsKeyIffSameTokens` shows the result of `equalsKey` does not depend on which total order is used.
- MonitorFacade.ContextMenuMonitor.Start: the callback is not invoked by starting, and `Hides` is unchanged. The callback's own effect is not modelled (see `ContextMenu.hide()` above).
