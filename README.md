# eecalc sheet model

eecalc is a shared calculator sheet in the browser. The page keeps a column of cells. Each cell has:

- an input, whose text has its engineering-notation suffixes rewritten (`10k` becomes `10E3`) before `math.eval` evaluates it in a scope shared by all cells;
- an output element showing the result.

Edits and deletions are sent on a socket and applied when they arrive from other users. A deletion marks the cell at once and removes it when a removal animation ends.

The project models the page's controller, the `eecalc` closure of `public/main.js`, and the pure rewrite `ee_parse`. It has three modules:

- `EeNotation` (`ee_notation.dfy`) defines `ee_parse` as functions on strings.
  - Each of the nine suffix replacements is a left-to-right scan (`Rewrite`), and `RewriteStars` turns `"**"` into `"^"`.
  - Lemmas say when a replacement changes the text, what happens to text with no digits, and how the rewrite splits around separators.
  - Worked examples: `"10k"`, `"10 k"`, `"**"`.
- `Sheets` (`sheets.dfy`) describes the sheet state as a value (`Sheet`) and each operation of the closure as a function from the old state to the new one.
  - A `Cell` records what the code reads and writes on a cell element: the input text, the output, the `data-deleting` marker, and the `data-index` and `tabindex` attributes.
  - Each cell also has an identity `id`, which stands for the DOM node. The removal callback and the keyboard focus refer to a node, not to a position.
  - `pending` lists the removals whose animation has started. `CompleteRemoval` is the step the environment fires when one ends.
  - `sent` is the log of socket emits.
  - `Valid` is the invariant every reachable sheet keeps. Lemmas state the guards, the two-phase deletion, growing and editing, the outcomes of `calculate_cell`, and the order `re_run` evaluates cells in.
- `EeCalc` (`eecalc.dfy`) holds the closure as a class `Calc`.
  - Its fields are the closure's variables and the DOM state it mutates: cells, `cell_count`, focus, scope, emitted events, pending removals.
  - Its methods are the inner functions, with the source's loops (`update_indices`, `grow_to`, `re_run`, `load_json`, `send_all`).
  - Each method is proved to leave `State() == Sheets.F(old(State()))` for its function `F`, so every lemma of `Sheets` is a statement about the object.

Two parts are parameters of the model:

- The expression evaluator `math.eval` is the `eval` field of `Sheets.Evaluator`. It maps a rewritten text and a scope to an outcome (a value, `undefined`, or a thrown error) and a new scope. The test `result != undefined` is loose, so a `null` result takes the same path as `undefined`: `Undefined` stands for both, and `ShownUndefined` is whatever `innerHTML = result` shows for them (`undefined`, or the empty text for `null`).
- The rewrite is the `parse` field. It may be any function that leaves the empty text empty (`Sheets.Rewriter`). The class always instantiates it with `EeNotation.EeParse`, and `EeNotation.EeParseEmpty` discharges the requirement. The sheet proofs use nothing else about `ee_parse`.

A JavaScript exception thrown by the controller ends the current handler. The model carries out the state changes made before the throw and none after. This covers `find_cell` on an index no cell has (its `subqsa` calls `querySelectorAll` on `undefined`), `removeChild` on a detached element, and `.focus()` on a missing input.

Where the code does not keep what its comments state, the model follows the code:

- **"Never delete last remaining cell".** The guard at public/main.js:250-253 counts the cells that are already marked for deletion. Deleting both cells of a two-cell sheet before the first animation ends passes the guard twice, and the sheet ends up with no cell (`Sheets.TwoDeletesEmptySheet`).
- **Empty snapshot.** The same one-cell floor is not kept by `load_json` (public/main.js:288-298, which carries no comment of its own): with no texts it leaves no cell at all, and `cell_count` keeps its old value, because only `update_indices` sets it (`Sheets.LoadJsonResult`).

`Valid` therefore allows an empty sheet with a stale `cell_count`.

## Model

| member | source | states |
|---|---|---|
| EeNotation.Rewrite | public/main.js:469-477 | definition: one global `str.replace(/([0-9]+)( *)SUFFIX/g, "$1EXPONENT")`, a left-to-right scan that copies non-digits, replaces a digit run with its spaces and suffix by the digits and the exponent, and resumes after the match |
| EeNotation.ApplyRules | public/main.js:469-477 | definition: the nine replaces one after another, each on the result of the previous one, in the order of `Rules` |
| EeNotation.RewriteStars | public/main.js:478 | definition: one global replace of `**` by `^`, leftmost first and without overlap |
| EeNotation.EeParse | public/main.js:468-480 | definition: the whole of `ee_parse`, the nine suffix replaces and then the `**` replace |
| EeNotation.RulesWellFormed | public/main.js:469-477 | every suffix of the nine rules begins with a character that is neither a digit nor a space, and its exponent begins differently, which is what makes the scan equal to the regular-expression replace |
| EeNotation.DigitRun | public/main.js:469-477 | the length of the maximal run of digits at the start, the `[0-9]+` of each pattern: all digits before it, a non-digit after it |
| EeNotation.SpaceRun | public/main.js:469-477 | the length of the maximal run of spaces, the ` *` of each pattern |
| EeNotation.RewriteChangesIff | public/main.js:469-477 | one suffix replacement changes the text exactly when a digit run, optional spaces and the suffix occur in it |
| EeNotation.RewriteStarsChangesIff | public/main.js:478 | the `**` replacement changes the text exactly when `"**"` occurs in it |
| EeNotation.EeParseDigitFree | public/main.js:468-480 | on text without digits, no suffix rule fires and only `"**"` is rewritten |
| EeNotation.EeParsePlainText | public/main.js:468-480 | text with no digit and no `"**"` comes back unchanged |
| EeNotation.EeParseEmpty | public/main.js:468-480 | the empty text stays empty |
| EeNotation.EeParseSplit | public/main.js:468-480 | the rewrite of `u + v` is the two rewrites joined whenever `u` ends in a separator (a character no pattern contains that no match can straddle) |
| EeNotation.EeParseLeading | public/main.js:468-480 | a leading non-digit other than `*` is kept, and the rest is rewritten on its own |
| EeNotation.LetterKept | public/main.js:468-480 | a letter after a separator is kept: a suffix letter with no digits before it is not rewritten |
| EeNotation.EeParseKilo | public/main.js:473 | `"10k"` and `"10 k"` both become `"10E3"` |
| EeNotation.EeParsePower | public/main.js:478 | `"**"` becomes `"^"` |
| EeNotation.EeParseMilliMicro | public/main.js:474-475 | a number followed by `mu` becomes the number and `E-3E-6`: the `u` rule reads the digit of the exponent the `m` rule wrote |
| Sheets.Renumber | public/main.js:334-339 | every cell's `data-index` is its position and its `tabindex` one more; nothing else about a cell changes |
| Sheets.UpdateIndices | public/main.js:332-341 | cells renumbered, `cell_count` equals the number of cells, texts and order kept, nothing else changed |
| Sheets.FreshCell | public/main.js:362-364 | definition: the element cloned from the cell template: a new identity, the content, no output, not marked, not yet numbered |
| Sheets.NewCell | public/main.js:362-373 | one fresh cell with the given text appended at the end, the others kept, `cell_count` equals the length, focus on the new cell, invariant kept |
| Sheets.Focus | public/main.js:316-321 | the focus moves to cell `index` when `0 <= index < cell_count` and that cell exists; otherwise nothing changes; only the focus ever changes |
| Sheets.GrowTo | public/main.js:352-360 | the length becomes `number + 1` if it was shorter; the added cells are blank, unmarked and empty; the existing cells are kept; no change when `number` is below the length |
| Sheets.GrowToFocus | public/main.js:352-360 | a sheet that grows ends with the focus on the new cell `number`, since every `new_cell` takes the focus |
| Sheets.SetText | public/main.js:345-346 | the text of cell `number` becomes `content`; every other cell, the length and every other field are kept |
| Sheets.DeleteCell | public/main.js:247-273 | keeps the invariant: the marker is set exactly on the cells with a pending removal |
| Sheets.DeleteGuard | public/main.js:250-253 | definition: the test of `delete_cell` that the index is positive or more than one cell is attached, and that the index is below the number of attached cells, marked ones included |
| Sheets.DeleteChangesIff | public/main.js:250-260 | `delete_cell` changes the sheet exactly when there are two cells or more, the index names a cell, and that cell is not yet marked; with one cell nothing ever happens |
| Sheets.DeleteEffect | public/main.js:253-272 | a deletion that goes through marks exactly that cell, records one pending removal, keeps all texts, and emits one `delete cell {number: index}` when local and nothing when remote |
| Sheets.DeleteTwice | public/main.js:256-260 | a second `delete_cell` on the same index changes nothing and emits nothing |
| Sheets.RemoteDeleteSilent | public/main.js:219-223 | the socket's `delete cell` handler never emits |
| Sheets.PositionOf | public/main.js:262-265 | the position of an element still attached, or none; what `removeChild` depends on |
| Sheets.RemoveAt | public/main.js:139 | the cells with exactly position `p` removed, the others in order |
| Sheets.CompleteRemoval | public/main.js:262-265 | keeps the invariant, including after the element has been detached |
| Sheets.CompleteRemovalEffect | public/main.js:262-265 | the end of a removal removes exactly the marked element, keeps the others' texts in order, renumbers them, sets `cell_count` to the length, and focuses `index - 1` when that names a cell, leaving the focus otherwise |
| Sheets.CompleteDetached | public/main.js:139-140 | the end of a removal whose element `load_json` already detached only retires the animation |
| Sheets.TwoDeletesEmptySheet | public/main.js:250-265 | two local deletions on a two-cell sheet both pass the guard, and completing both removals leaves no cell |
| Sheets.Render | public/main.js:436-450 | an error is shown; an empty rewritten text leaves the output as it was; otherwise a value is shown as the value and `undefined` as `undefined` |
| Sheets.SetOutput | public/main.js:439-448 | the output of cell `index` becomes the rendered text; every other cell, the length and every other field are kept; invariant kept |
| Sheets.Advances | public/main.js:443-450 | definition: `calculate_cell` goes on to append or move the focus exactly when the rewritten text is not empty and the result is neither an error nor `undefined` |
| Sheets.Advance | public/main.js:454-461 | appending a cell or moving the focus keeps the invariant |
| Sheets.Calculate | public/main.js:424-462 | texts unchanged or one empty cell appended, appended only on the last cell by `cell_count` with a non-empty rewritten text; nothing emitted and no pending removal touched; invariant kept |
| Sheets.CalculateOutcome | public/main.js:424-462 | the scope is the evaluator's; the cell shows the outcome; an error, an empty text or `undefined` stops without appending or moving the focus; a value on the last cell appends exactly one empty cell and focuses it; a value on another cell focuses the next input |
| Sheets.RunFrom | public/main.js:281-283 | the loop of `re_run`, which re-reads the number of cells each round; terminates and keeps the invariant |
| Sheets.ReRun | public/main.js:279-284 | keeps the invariant |
| Sheets.ReRunInOrder | public/main.js:279-284 | after `re_run` each cell shows the outcome of its own text in the scope its predecessors leave, from an empty scope; the final scope is the one all texts leave; the texts change only by one empty cell appended exactly when the last cell's evaluation advances; nothing is emitted, and pending removals, identities and removal markers are kept |
| Sheets.RunFromInOrder | public/main.js:281-283 | the loop of `re_run`, from any state where its invariant holds, ends in the state `ReRunInOrder` describes, emitting nothing |
| Sheets.ReRunKeeps | public/main.js:279-284 | `re_run` emits nothing and keeps pending removals, identities and removal markers |
| Sheets.RunDecreases | public/main.js:281-283 | every round of the loop lowers its measure, although a round may append a cell |
| Sheets.EditedTexts | public/main.js:343-360 | the texts an edit asks for: at least `number + 1` texts, text `number` is `content`, other old texts kept, added texts empty |
| Sheets.GrowAndSet | public/main.js:343-346 | growing and then setting the text yields `EditedTexts` |
| Sheets.EditCell | public/main.js:343-350 | keeps the invariant |
| Sheets.EditCellTexts | public/main.js:343-350 | after `edit_cell(number, content)` the texts are `EditedTexts`, with one more empty cell exactly when cell `number` is the last and its evaluation advances; a negative number changes nothing |
| Sheets.DeleteAll | public/main.js:275-277 | no cells and no focus; `cell_count`, the scope, the emits, the pending removals and the identity counter all kept; invariant kept |
| Sheets.Rebuild | public/main.js:294-296 | the texts are the old ones followed by the snapshot's; `cell_count` is the length after a non-empty snapshot; no change for an empty one |
| Sheets.RebuildFocus | public/main.js:294-296 | after a non-empty snapshot the focus is on the last cell built |
| Sheets.RebuildKeeps | public/main.js:294-296 | the loop keeps the existing cells and adds cells with a blank output, without touching scope, emits or removals |
| Sheets.LoadJson | public/main.js:288-298 | keeps the invariant |
| Sheets.LoadJsonResult | public/main.js:288-298 | after `load_json` the texts are the snapshot's (plus one empty cell exactly when the last evaluation advances), each cell shows its outcome in order from an empty scope, nothing is emitted, pending removals are kept, and an empty snapshot leaves no cell with `cell_count` unchanged |
| Sheets.SendValue | public/main.js:412-421 | emits `edit cell {index, text}` for a cell of the sheet; nothing changes for an index no cell has |
| Sheets.EditEvents | public/main.js:308-312 | one `edit cell` event per cell, event `k` carrying position `k` and cell `k`'s text |
| Sheets.SendAll | public/main.js:308-312 | exactly one `edit cell {k, text_k}` per cell, in order, appended to what was sent; nothing else changes |
| Sheets.Init | public/main.js:198-206 | the start: one empty focused cell, an empty scope, nothing sent, invariant holds |
| Sheets.OnSheet | public/main.js:208-210 | the socket's `sheet` message loads the snapshot; invariant kept |
| Sheets.OnRemoteEdit | public/main.js:212-217 | the socket's `edit cell` message edits, and so evaluates, the cell; invariant kept |
| Sheets.RemoteEditSilent | public/main.js:212-217 | applying an edit received from the socket emits nothing |
| Sheets.OnRemoteDelete | public/main.js:219-223 | the socket's `delete cell` message deletes with `remote` set; invariant kept |
| Sheets.OnEnter | public/main.js:390-393 | Enter emits exactly one `edit cell` event carrying the cell's index and text, then evaluates the cell; invariant kept |
| Sheets.OnArrowUp | public/main.js:394-395 | arrow up focuses the cell above when there is one below `cell_count`, and otherwise changes nothing; only the focus changes |
| Sheets.OnArrowDown | public/main.js:396-397 | arrow down focuses the cell below when it exists and is below `cell_count`, and otherwise changes nothing; only the focus changes |
| Sheets.OnBackspace | public/main.js:398-403 | Backspace on a non-empty input changes nothing; on an empty one it is a local `delete_cell`; invariant kept |
| Sheets.BackspaceEffect | public/main.js:398-403 | Backspace changes the sheet exactly when the input is empty, another cell exists and the cell is not already being removed; then it marks the cell, emits one `delete cell` and keeps all texts |
| Sheets.OnGoButton | public/main.js:383-385 | the go button evaluates the cell; invariant kept |
| Sheets.OnStarter | public/main.js:503-509 | a starter loads the snapshot, sends every cell, and runs the sheet again; invariant kept |
| Sheets.OnStarterSends | public/main.js:503-509 | a starter emits exactly one `edit cell` per loaded cell, in order, carrying the snapshot's texts, and nothing else; pending removals kept |
| EeCalc.Calc.constructor | public/main.js:195-206 | the object starts in `Sheets.Init()` with `ee_parse` as its rewrite |
| EeCalc.Calc.UpdateIndices | public/main.js:332-341 | the loop leaves `Sheets.UpdateIndices` of the old state; keeps the invariant |
| EeCalc.Calc.NewCell | public/main.js:362-373 | leaves `Sheets.NewCell` of the old state; keeps the invariant |
| EeCalc.Calc.Focus | public/main.js:316-321 | leaves `Sheets.Focus` of the old state; keeps the invariant |
| EeCalc.Calc.GrowTo | public/main.js:352-360 | the loop leaves `Sheets.GrowTo` of the old state; keeps the invariant |
| EeCalc.Calc.SetText | public/main.js:345-346 | leaves `Sheets.SetText` of the old state; keeps the invariant |
| EeCalc.Calc.DeleteCell | public/main.js:247-273 | leaves `Sheets.DeleteCell` of the old state; keeps the invariant |
| EeCalc.Calc.CompleteRemoval | public/main.js:262-265 | leaves `Sheets.CompleteRemoval` of the old state; keeps the invariant |
| EeCalc.Calc.Calculate | public/main.js:424-462 | leaves `Sheets.Calculate` of the old state; keeps the invariant |
| EeCalc.Calc.ReRun | public/main.js:279-284 | the loop, re-reading the number of cells, leaves `Sheets.ReRun` of the old state; keeps the invariant |
| EeCalc.Calc.DeleteAll | public/main.js:275-277 | leaves `Sheets.DeleteAll` of the old state; keeps the invariant |
| EeCalc.Calc.LoadJson | public/main.js:288-298 | the loop leaves `Sheets.LoadJson` of the old state; keeps the invariant |
| EeCalc.Calc.SendValue | public/main.js:412-421 | leaves `Sheets.SendValue` of the old state; keeps the invariant |
| EeCalc.Calc.SendAll | public/main.js:308-312 | the loop leaves `Sheets.SendAll` of the old state; keeps the invariant |
| EeCalc.Calc.EditCell | public/main.js:343-350 | leaves `Sheets.EditCell` of the old state; keeps the invariant |
| EeCalc.Calc.OnSheet | public/main.js:208-210 | leaves `Sheets.OnSheet` of the old state |
| EeCalc.Calc.OnRemoteEdit | public/main.js:212-217 | leaves `Sheets.OnRemoteEdit` of the old state |
| EeCalc.Calc.OnRemoteDelete | public/main.js:219-223 | leaves `Sheets.OnRemoteDelete` of the old state |
| EeCalc.Calc.OnEnter | public/main.js:390-393 | leaves `Sheets.OnEnter` of the old state |
| EeCalc.Calc.OnArrowUp | public/main.js:394-395 | leaves `Sheets.OnArrowUp` of the old state; keeps the invariant |
| EeCalc.Calc.OnArrowDown | public/main.js:396-397 | leaves `Sheets.OnArrowDown` of the old state; keeps the invariant |
| EeCalc.Calc.OnBackspace | public/main.js:398-403 | leaves `Sheets.OnBackspace` of the old state |
| EeCalc.Calc.OnGoButton | public/main.js:383-385 | leaves `Sheets.OnGoButton` of the old state |
| EeCalc.Calc.OnStarter | public/main.js:503-509 | leaves `Sheets.OnStarter` of the old state |

## Left out

- DOM and templating helpers (`qsa`, `subqsa`, `load_template`, `instanciator`, `load_script`, `new_el`): plumbing. A cell element is the `Cell` record.
- Animations (`appear`, `flash`, `animate`, and the timing of `animated_remove`): cosmetic and timer-driven. What is kept is that a removal completes later, as the `CompleteRemoval` step the environment may fire in any order.
- `math.eval` and `eeify_mathjs`/`LL`: floating-point arithmetic in a foreign library. The evaluator is a parameter, and values are the strings the output element shows.
- The socket.io transport, `beforeunload` and the nickname field: input and output. Emitted events are a log, and received messages are the `On…` handlers.
- `console.log` calls: output only.
- `JSON.parse` in `load_json` and in `init_starters`: a snapshot is its sequence of texts.
- URL routing, building the starter buttons and `get_json` (an empty stub): outside the controller. The starter click itself is `OnStarter`.
- `math.eval` is taken to be deterministic: the evaluator is a function of the text and the scope, so expressions such as `random()`, `randomInt()` or `pickRandom()`, whose results change from call to call, are not modelled. The outcomes `ReRunInOrder` and `LoadJsonResult` describe are those of that one function.
- Concurrency between the socket, timers and keys: each event is a whole handler run, and the order of events is the caller's.
- The leaked global `i` of `grow_to`: no other modelled code reads it.
- EeNotation.LetterKept: states the kept letter only after a separator character or at the start of the text (`EeParseLeading`), not after an arbitrary character. After a letter such as `e`, the rewrite of the two sides does not in general split, and a letter written by an earlier rule can be followed by digits a later rule reads (`EeParseMilliMicro`: `"1mu"` becomes `"1E-3E-6"`).
- Typing into an input: the browser changes `input.value` and the controller has no handler for it (the `onkeyup` of public/main.js:406-407 is empty). The edit is `Calc.SetText`, and `send_value` reads the text it leaves (public/main.js:420).
- Clicking into an input: the browser moves the keyboard focus with no controller code. Only `focus` moves the model's focus.
