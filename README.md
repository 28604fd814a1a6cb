# cereja progress line, console checks and utilities, in Dafny

This project models the sequential core of cereja's terminal progress tool:

- the progress fields (`Loading`, `Awaiting`, `Bar`, `Percent`) with their
  in-progress `display` text and their final `done` text;
- the line `_states_view` composes from them, with its completion
  threshold, the "Done!" marker and the `" - "` separator;
- the `ProgressBase` session (`cereja/display.py`): its ordered states,
  maximum value, view counter, started and awaiting flags, and its
  lifecycle (`start`, `stop`, `restart`, `update_max_value`,
  `show_progress`, indexing, context-manager entry and exit);
- `ProgressIterator`, the generator that drives a session over a
  sequence, and `Progress.__init__`;
- the older copy of the engine in `lab/console.py`, modelled as a second
  flavour of the same class that differs only where that file differs;
- three checks of `ConsoleBase`: `translate_non_bmp`, the `text_color`
  setter and the colour-name check of `format`;
- `invert_dict`, `get_version`, `get_version_pep440_compliant`,
  `proportional` and `combine_with_all` from `cereja/utils.py`.

Modules, one per file:

- `Errors` (`errors.dfy`): `Option`, `Result` and `Outcome`. An `Outcome`
  is a method's "returned normally" or "raised this Python exception".
- `Text` (`text.dfy`): the Python string built-ins the core relies on.
  These are `split`, `join`, `strip`, `lower`/`upper`, `int()` and `str()`
  of an integer, `*` on strings and the `fill` padding helper.
- `Render` (`render.dfy`): the field renderers and line composition.
- `Console` (`console.dfy`): the `ConsoleBase` checks. Console state that
  the session touches (`title`) lives in the class `ConsoleBase`.
- `Engine` (`progress.dfy`): the classes `Progress` and
  `ProgressIterator`. What a session sends to its console and to its
  awaiting thread is recorded in the field `events`.
- `Utils` (`utils.dfy`): the `cereja/utils.py` functions.

`Progress` is a class whose methods update its fields in place. Each
method's `ensures` gives the whole new state and the events appended.
`ProgressIterator.Run` models a consumer pulling `pulls` items from the
generator. The generator's `for` loop is the `while` loop of `ShowUpTo`.
The line events it writes are proved equal to `IterationLines`, a
function of the inputs. The lemmas `OnlyLastLineDone` and
`LabDoneFromIndex99` then read off which of those lines are complete.

## Model

| member | source | states |
|---|---|---|
| Render.LoadingDisplay | cereja/display.py:391-397 | the field is five characters between brackets; phase `n_times % 3` shows phase + 1 dots, then spaces |
| Render.LoadingDone | cereja/display.py:399-402 | `done` is the field full of dots, `[...]`, whatever the arguments |
| Render.LoadingPeriodic | cereja/display.py:391-397 | the loading animation repeats every three views |
| Render.LoadingLooksDoneIff | cereja/display.py:391-402 | the in-progress field reads like the finished one exactly in phase 2 |
| Render.StripBracketed | cereja/display.py:407-408 | stripping the bracket characters from a bracketed text whose ends are not brackets gives back the inside |
| Render.AwaitingDisplay | cereja/display.py:410-412 | Awaiting's `display` is "Awaiting" followed by Loading's three inner characters for the same count |
| Render.AwaitingDone | cereja/display.py:414-416 | Awaiting's `done` is "Awaiting", Loading's finished inner dots, then " Done!" |
| Render.Trunc | cereja/display.py:428 | `int()` of a float truncates toward zero: the result lies within one unit of the value, on the zero side |
| Render.TruncMonotone | cereja/display.py:428 | truncation never decreases when the value grows |
| Render.BarDisplayShape | cereja/display.py:425-430 | the bar shows k = int(0.3 × percent) `=` signs (none when k < 0), one arrow, then two spaces for each of the 29 − k units left; length and character counts follow |
| Render.ArrowBarShape | cereja/display.py:427-430 | for any fill level k: brackets at both ends, k `=` signs, the arrow right after them, two spaces per remaining unit, and the counts of each character |
| Render.ArrowBarLayout | cereja/display.py:427-430 | the positions in the bar: brackets at the ends, `=` from index 1 to k, the arrow at index k + 1 |
| Render.ArrowBarCounts | cereja/display.py:427-430 | the bar holds exactly k `=`, one `>` and 2 × (29 − k) spaces (zero when negative) |
| Render.BarDoneShape | cereja/display.py:432-435 | the finished bar is 32 characters: 30 `=` between brackets and no arrow |
| Render.BarDisplayNeverDone | cereja/display.py:425-435 | no percentage makes the in-progress bar equal the finished one, since the in-progress bar always has its arrow |
| Render.BarMonotone | cereja/display.py:425-430 | a higher percentage never shows fewer `=` signs |
| Render.RoundHalfEven | cereja/display.py:443 | formatting to two decimals rounds to the nearest hundredth: within half a hundredth of the exact value, and a tie goes to the even hundredth |
| Render.TwoDigits | cereja/display.py:443 | the two decimals are two digits reading as the hundredths below 100 |
| Render.PercentRoundTrip | cereja/display.py:441-445 | the percent field for h hundredths reads back as h: integer digits, a dot, two decimals, a percent sign, with the zero padding not changing the value |
| Render.PercentFixedWidth | cereja/display.py:441-445 | below 1000% the zero padding makes the field exactly seven characters |
| Render.PercentDoneIsFull | cereja/display.py:441-449 | `done` reads "100.00%", exactly what `display` shows at 100% |
| Render.PercentOfScales | cereja/display.py:569-570 | the share passed to the fields scales back to the value (share × max = value × 100) and is 0 for a zero maximum |
| Render.ProportionalUndoesPercent | cereja/utils.py:220-221 | `proportional` of the maximum by the share gives back the value |
| Render.RenderAll | cereja/display.py:535-544 | one fragment per state, in the order of the states, each state's `done` or `display` form |
| Render.SplitJoined | cereja/display.py:547 | fragments that contain no space directly before a dash can be read back from their `" - "` join |
| Render.LoadingClean | cereja/display.py:391-402 | Loading's fragments contain no " -" |
| Render.AwaitingClean | cereja/display.py:410-416 | Awaiting's fragments contain no " -" |
| Render.BarClean | cereja/display.py:425-435 | Bar's fragments contain no " -" |
| Render.PercentClean | cereja/display.py:441-449 | Percent's fragments contain no " -", negative percentages included |
| Render.BuiltinFragmentClean | cereja/display.py:391-449 | no built-in field other than the time field can hide a separator |
| Render.MarkerClean | cereja/display.py:546 | the "Done! ✅" marker contains no " -" |
| Render.ComposeLineFields | cereja/display.py:525-547 | splitting the composed line on `" - "` gives every state's `done` fragment and the marker when `for_value >= max_value - 1`, and every state's `display` fragment otherwise |
| Render.CompletionMarkedIff | cereja/display.py:535-547 | the line has one field more than there are states exactly when `for_value >= max_value - 1`, and that field is "Done! ✅" |
| Text.Repeat | cereja/display.py:402 | `c * n` is n copies of c, empty for n ≤ 0 |
| Text.Fill | cereja/display.py:395 | `fill` right-pads with spaces to the width and keeps a longer value whole |
| Text.SplitOn | cereja/utils.py:165 | `str.split('.')` gives at least one piece and no piece holds a dot |
| Text.JoinSplitOn | cereja/utils.py:165 | joining the pieces of a split with the separator gives back the string |
| Text.ParseIntToString | cereja/utils.py:167 | `int(str(i)) == i` for every integer |
| Text.CanonicalIntRoundTrip | cereja/utils.py:167 | a canonical integer text is accepted by `int()` and `str()` writes it back unchanged |
| Text.StripLeft | cereja/display.py:408 | `strip` removes the longest prefix of the given characters |
| Text.StripRight | cereja/display.py:408 | `strip` removes the longest suffix of the given characters |
| Text.Lower | cereja/display.py:206 | `lower()` maps each ASCII letter to lower case and keeps the length |
| Text.Upper | cereja/display.py:206 | `upper()` maps each ASCII letter to upper case and keeps the length |
| Console.BaseColorMap | cereja/display.py:161-171 | the colour map holds `default`, which is white (ESC[37m) |
| Console.ConsoleBase.constructor | cereja/display.py:178-182 | a console starts with its title, the base colour map and the default (white) text colour |
| Console.ConsoleBase.TranslateNonBmp | cereja/display.py:220-226 | when non-BMP output is supported the message is unchanged; otherwise every character from U+10000 up becomes U+FFFD and every other is kept |
| Console.ConsoleBase.TranslateIdempotent | cereja/display.py:220-226 | translating twice is translating once |
| Console.ConsoleBase.TranslateKeepsBmp | cereja/display.py:220-226 | a message made only of BMP characters is never changed |
| Console.ConsoleBase.SetTextColor | cereja/display.py:204-210 | a name that resolves to a known colour becomes the text colour and the map's `default`; an unknown one raises `ValueError` and changes nothing |
| Console.PrefixedNameResolves | cereja/display.py:206 | "CL_" + an upper-case colour name resolves to the lower-case name when that name does not begin or end with C, L or _ |
| Console.PlainNameResolves | cereja/display.py:206 | a colour name in lower or upper case resolves to the lower-case name |
| Console.UpperKeepsPrefix | cereja/display.py:206 | a name starting "CL_" takes the stripping path |
| Console.CyanStripped | cereja/display.py:206 | `strip('CL_')` removes the characters C, L and _ rather than the prefix: "CL_CYAN" becomes "YAN" |
| Console.YanIsNoColor | cereja/display.py:206-208 | "yan" is not in the colour map |
| Console.CyanPrefixRejected | cereja/display.py:206-208 | so setting the colour "CL_CYAN" looks up "yan" and raises |
| Console.ConsoleBase.Format | cereja/display.py:264-272 | an unknown colour other than "random" raises `ValueError`; a known one wraps the formatted text in that colour's code on both sides; "random" formats the text between the chosen colour's tags |
| Console.ConsoleBase.Disable | cereja/display.py:326-328 | disabling renames the console "Cereja" and keeps its colours |
| Engine.NewStates | cereja/display.py:555-563 | the states added are exactly the given states not already present |
| Engine.NewStatesInOrder | cereja/display.py:555-563 | the added states keep the order they were given in |
| Engine.NewStatesIdempotent | cereja/display.py:549-563 | adding the same states a second time adds nothing |
| Engine.NewStatesNone | cereja/display.py:556-562 | when every given state is present, nothing is added (and nothing is logged) |
| Engine.NewStatesCounts | cereja/display.py:556-561 | each state not already present is added as many times as it is given, repeats included; a present state is never added |
| Engine.NewStatesKeepsRepeats | cereja/display.py:556-561 | for instance, a state given twice is added twice |
| Engine.IndexOf | cereja/display.py:633 | `tuple.index` finds the first position holding the state |
| Engine.Max | cereja/display.py:627 | `max` of the indices is at least every index and is one of them |
| Engine.Below | cereja/display.py:629 | the `if i < len` filter keeps exactly the indices below the length, each one of the given indices |
| Engine.Pick | cereja/display.py:629 | the tuple comprehension fails with `IndexError` exactly when an index is below minus the length; otherwise its result is `Kept`: the indices below the length, in order, each read as Python reads it |
| Engine.PickDropsBeyond | cereja/display.py:627-629 | an index at or past the length, inserted at any position, changes nothing in the result |
| Engine.PickDropsLength | cereja/display.py:627-629 | so an index equal to the length passes the `max` check and is silently dropped |
| Engine.ExitFlavoursDiffer | cereja/display.py:650-653 | the two copies log the same exceptions except `DeprecationWarning`, which only `lab/console.py:307-310` logs; nothing is logged without an `Exception` |
| Engine.Progress.Cereja | cereja/display.py:675-695 | the session starts stopped with no views, the task name when given, the default states plus the new given ones, the maximum given (100 when 0 or absent), and Loading first for the "loading" style |
| Engine.Progress.Lab | lab/console.py:161-170 | the older copy starts the same way but its maximum is always 100 |
| Engine.Progress.AddState | cereja/display.py:549-563 | the existing states stay a prefix, the new given states are appended in order, and a log event is recorded only when something was added |
| Engine.Progress.Stop | cereja/display.py:611-616 | stopping a stopped session changes nothing; otherwise the awaiting flag is cleared, the thread joined, the console disabled and the session is stopped |
| Engine.Progress.Start | cereja/display.py:600-609 | after `start` the session is started, awaiting, with no views and the start time set; a started session is stopped and started first |
| Engine.Progress.Restart | cereja/display.py:618-620 | `restart` is `stop` followed by `start` |
| Engine.Progress.UpdateMaxValue | cereja/display.py:572-583 | a non-number raises and changes nothing; an equal value changes nothing; a different value of any sign restarts the session and then becomes the maximum |
| Engine.Progress.StatesView | cereja/display.py:525-547 | a view clears the awaiting flag, counts one more view and returns the composed line for the value |
| Engine.Progress.ShowProgress | cereja/display.py:585-598 | an invalid maximum raises first; otherwise any restart the new maximum causes happens, then exactly one line is written for the value |
| Engine.Progress.GetItem | cereja/display.py:625-636 | an integer index works from either end, else `IndexError`; an empty tuple raises `ValueError`; a tuple succeeds exactly when its largest index is at most the length and no index is below minus the length, and then gives `Kept`, the states at the indices below the length; otherwise `IndexError`; a string goes through the key map (`KeyError` when the state is absent); in `lab/console.py:296-301` a string raises `TypeError` |
| Engine.Progress.NegativeIndex | cereja/display.py:636 | a negative index reads the same state as its positive counterpart |
| Engine.Progress.SetItem | cereja/display.py:638-644 | an integer key replaces exactly one position and keeps the length and the other positions; a bad index raises `IndexError` and any other key raises; the older copy has no item assignment |
| Engine.Progress.Enter | cereja/display.py:646-648 | entering the context starts the session, with the same whole new state as `start` |
| Engine.Progress.Exit | cereja/display.py:650-653 | leaving the context logs the exception when the flavour's rule says so, then always stops, with the same whole new state as `stop` |
| Engine.IterationLines | cereja/display.py:662-668 | one line per index shown |
| Engine.IterationLinesAt | cereja/display.py:664-666 | the n-th line written is the view of index n, with n + 1 views counted |
| Engine.ProgressIterator.constructor | cereja/display.py:657-660 | the maximum becomes the length of the sequence (restarting when that changes it); `lab/console.py:314-316` leaves the session alone |
| Engine.ProgressIterator.ShowIndex | cereja/display.py:664-666 | the view of index n in a started session writes exactly the line of index n |
| Engine.ProgressIterator.ShowUpTo | cereja/display.py:663-667 | the loop yields the first items in order and writes their lines in order; the view count equals the items shown and the console is untouched |
| Engine.ProgressIterator.Run | cereja/display.py:662-668 | pulling starts the session once, writes one line per item pulled and yields the items in order; only the pull after the last item stops the session, so stopping early leaves it started; the view count is the number of items pulled and the console title changes only on a restart or the final stop |
| Engine.OnlyLastLineDone | cereja/display.py:657-668 | with the maximum set to the sequence length, only the line of the last index is complete and ends with "Done! ✅" |
| Engine.LabDoneFromIndex99 | lab/console.py:318-324 | with the fixed maximum of 100 the lines of indices 99 and up are complete and all earlier ones are not |
| Utils.Swapped | cereja/utils.py:56 | the swapped pairs are the items with key and value exchanged, in order |
| Utils.InvertDict | cereja/utils.py:45-56 | anything that is not a dict raises `TypeError`, and only that |
| Utils.FromPairsFacts | cereja/utils.py:56 | building a dict from pairs keeps one entry per key, holding the last value given for it |
| Utils.InvertDictEntries | cereja/utils.py:45-56 | the inverted dict's keys are exactly the original values, and each maps to the last key holding it |
| Utils.InvertDictSound | cereja/utils.py:45-56 | every inverted entry maps a value back to a key that maps to that value |
| Utils.InvertDictTwice | cereja/utils.py:45-56 | when the values are distinct, inverting twice gives back the dict, order included |
| Utils.VersionOfPieces | cereja/utils.py:164-173 | too few pieces raise `IndexError`, a non-integer piece other than the fourth `ValueError`, a wrong length or note `AssertionError`; a success keeps the pieces in order with the note at index 3 |
| Utils.VersionOf | cereja/utils.py:152-173 | every version accepted has five components with a note from {alpha, beta, rc, final} at index 3; a ready-made list is accepted exactly when it has that shape |
| Utils.GetVersion | cereja/utils.py:164-173 | the pop, integer conversion and insert compute exactly `VersionOf` |
| Utils.VersionTextRoundTrip | cereja/utils.py:164-173 | parsing the dotted text of a version gives back that version |
| Utils.PiecesOfVersion | cereja/utils.py:164-173 | five pieces that read as a version's components parse to that version |
| Utils.DocExamplePieces | cereja/utils.py:157 | the documented example "1.0.3.a.3" splits into five pieces |
| Utils.DocExampleVersionRejected | cereja/utils.py:157-173 | that documented example is rejected with an `AssertionError`, because "a" is not a note |
| Utils.Pep440Of | cereja/utils.py:204-217 | the compliant version always starts with the first three components joined by dots |
| Utils.Pep440Version | cereja/utils.py:195-217 | it raises exactly what `get_version` raises, and otherwise starts with the dotted root |
| Utils.Pep440Suffixes | cereja/utils.py:204-217 | final gives the bare root; beta and rc add "b" or "rc" and the number; alpha with a non-zero number adds "a" and the number; alpha 0 adds ".dev" and the git stamp only when there is one |
| Utils.Pep440KeepsInputRoot | cereja/utils.py:206-207 | for canonical integer text, the result starts with the input's own first three pieces joined by dots |
| Utils.Proportional | cereja/utils.py:220-221 | `proportional(100, p) == p` and `proportional(v, 100) == v` |
| Utils.ProportionalLinear | cereja/utils.py:220-221 | `proportional` is linear in its value |
| Utils.Heads | cereja/utils.py:238-240 | for a size above 1 the heads are the combinations of that size in index order; otherwise they are the elements of `a` |
| Utils.CombinationsCount | cereja/utils.py:240 | there are C(len(a), n) combinations of size n |
| Utils.CombinationsShape | cereja/utils.py:240 | every combination has n elements and is a subsequence of `a` |
| Utils.IndexCombos | cereja/utils.py:240 | the position tuples: each has n strictly increasing positions in range |
| Utils.CombinationsSelect | cereja/utils.py:240 | the combinations of a suffix of `a` are, one for one, the elements of `a` at the position tuples |
| Utils.CombinationsByPosition | cereja/utils.py:240 | `combinations(a, n)` is the list of `a` read at each increasing tuple of n positions, in the order of `IndexCombos` |
| Utils.IndexCombosSorted | cereja/utils.py:240 | the position tuples are in strictly increasing lexicographic order, so no two are equal |
| Utils.IndexCombosComplete | cereja/utils.py:240 | every strictly increasing tuple of n positions in range is among them |
| Utils.ProductAt | cereja/utils.py:241 | the product has len(xs) × len(ys) pairs, with (xs[i], ys[j]) at position i × len(ys) + j |
| Utils.CombineWithAll | cereja/utils.py:224-244 | a non-integer count raises `TypeError`, and only that |
| Utils.CombineWithAllLength | cereja/utils.py:236-244 | the result has C(len(a), n) × len(b) pairs for a count above 1, and len(a) × len(b) otherwise |
| Utils.CombineWithAllOrder | cereja/utils.py:226-244 | pairs come head-major: head i paired with b[j] sits at position i × len(b) + j |
| Utils.NegativeCountBeyondLength | cereja/utils.py:238 | a count below −len(a) is not clamped (the clamp comes before `abs`), so there are no combinations and the result is empty |

## Left out

- `__Stdout` and every write to the terminal are not modelled. The stream
  swapping, the relay thread and the buffers are I/O and concurrency. What a
  session asks of its console is recorded as `Engine.Event`s instead.
- The awaiting thread (`_create_awaiting`, `_show_awaiting`) and its loop
  are not modelled. Only the `_awaiting_update` flag and the
  spawn and join events stay, so the awaiting lines the thread writes are
  not in the trace.
- `TaskList(...).run()` from `cereja.concurrently` is not part of this
  model. It is taken to map the states in order and return their fragments
  in the same order.
- The time field (`__StateTime`) depends on the wall clock and on
  `estimate`, `time_format` and `Unicode`, which are not part of this
  model. It is the `TimeRenderer` parameter. The lemmas about composed
  lines ask of it only that it produce no " -" (`CleanTime`).
- Clocks are parameters (`now`, `clock`). `_states_view` reads
  `time.time()` twice; the model reads one value for both.
- `percent` from `cereja.utils` is not part of this model. `PercentOf`
  takes it to be value / max × 100, and 0 when the maximum is 0.
- `fill` is not part of this model. `Text.Fill` takes it to right-pad with
  spaces to the width.
- Render.PercentDisplay: float formatting is modelled on exact reals
  rounded half-to-even to hundredths. A binary float can round the other
  way at a tie. The text for a negative value that rounds to zero is
  "-0.00" in Python and "0.00" here.
- Floats are modelled as reals throughout: `max_value`, `for_value` and
  `proportional` carry no rounding error, and complex numbers are not
  modelled.
- `template_format`, `random_color`, `colorful_words`, `text_bg`, the
  message prefix and `_parse` are not modelled: they are Python's format
  mini-language and randomness. `Format` takes the template step as a
  function parameter and the random pick as an argument.
- Whether the terminal supports non-BMP characters is a constructor
  parameter of `ConsoleBase`, not the module-level detection.
- Engine.Progress.Exit: the error text with the traceback's file and line
  is not modelled; the model records only that an error was logged.
- The log text of `add_state` is abstracted as the `StatesAdded` event
  with the added states.
- Engine.Event: a `Line` event records the states and metrics of the line
  written, not its text. `Engine.LineText` gives the text; the state is
  what `ComposeLine` reads.
- Render.LoadingDone and Render.AwaitingDone take the view count as an
  ignored argument, standing for the arguments `done` receives and
  ignores.
- `__getitem__` with a Python slice object, a tuple holding non-integers,
  or a key of another type is not modelled. The same goes for `__len__`,
  `__repr__` and the `states` property (class names).
- Engine.ProgressIterator.Run: the consumer's own actions between two
  pulls are not modelled (the session is not touched between yields), and
  a fresh generator is assumed for each run.
- `Progress.__call__`, `Progress.prog` and `Progress.update` are outside
  this model.
- `get_version(None)` reads the package's own version constant, and
  `latest_git` runs a subprocess. Neither is modelled: the version is
  always given and the git stamp is an `Option<string>` parameter.
- Text.ParseInt: accepts an optional minus or plus sign and decimal
  digits. Python's `int()` also accepts surrounding whitespace and
  underscores between digits, which are not modelled.
- Utils.InvertDict: values are assumed hashable; the `TypeError` Python
  raises for an unhashable value is not modelled.
- Utils.CombineWithAll: the `is_random` shuffle is left out (randomness),
  and the result is always in order.
- Text.Lower and Text.Upper: only ASCII letters change case; Python's full
  Unicode case mapping is not modelled.
