# layout-triage duty rotation, modelled in Dafny

layout-triage keeps a history of triage duty cycles in a JSON file. Each date key (`YYYY-MM-DD`) maps to
a duty cycle: two triagers, each with the bug components they look after that week. The `update`
command adds the next cycle:

- it takes the greatest date key in string order;
- it finds that cycle's second triager in the roster and assigns the next two roster members;
- it starts the new cycle seven days later;
- it draws half of the components at random for the first triager, and the second triager gets the
  rest.

This project models that core of `index.js`:

- **`selectRandom`** (`sampler.dfy`) is imperative. It is a partial Fisher–Yates sampler: a sparse
  `taken` map records which position each drawn slot now stands for, and the result is filled from
  the back. `Sampler.SelectRandom` keeps that loop, with the result in an `array`. It is proved equal
  to the specification function `Sampler.Sample`, and the lemmas beside `Sample` state what sampling
  without replacement promises.
- **`generateDutyCycle`** (`rotation.dfy`) is pure. `Rotation.GenerateWith` is the function, with
  the date step as a parameter:
  - `AsWritten` steps the date as index.js:72-74 does;
  - `Corrected` refuses a date that would need a six-digit year (see "## Findings").

  `Rotation.GenerateDutyCycle` is the corrected run, and the rest of the model uses it. Its helpers
  live in their own modules:
  - the JavaScript default sort order on strings and the greatest key (`string_order.dfy`);
  - calendar dates counted in days (`civil_date.dfy`);
  - reading and writing `YYYY-MM-DD` keys the way `new Date(key)` and `toISOString` do
    (`iso_date.dfy`).
- **`commandUpdate`** (`commands.dfy`) is the method `Commands.DutyHistory.CommandUpdate`. It
  upserts the new cycle into the history object in place.
- **A worked example** (`scenarios.dfy`) works through one `generateDutyCycle` step on a small
  history.
- **Shared types**: the thrown errors are the datatype `Failures.Failure`, and `wrappers.dfy`
  holds the `Option` and `Result` datatypes.

How the model represents the source:

- `Math.random()` is a parameter. `draws[j]` is the index `Math.floor(Math.random() * len)` drawn in
  iteration `j`, so it lies in `[0, len)` (`Sampler.DrawsFit`).
- The configuration (`config.json`) is a parameter. The roster is the list of the `triagers`
  object's keys.
- A stored duty cycle is a JavaScript object. The source tells its first and second triager apart
  by key insertion order (index.js:59, index.js:77-79). So a cycle is a list of `Entry(name,
  components)` in insertion order, and `Rotation.Put` is `obj[key] = value`. This keeps two
  behaviours of the source:
  - its "exactly two triagers" check (index.js:61);
  - a one-member roster, where both assignments write the same key and the cycle gets a single
    entry.
- Dates are whole days rather than milliseconds. A key is read as UTC midnight, so adding
  `CYCLE_LENGTH_MS` adds exactly seven days.
- A key such as `2023-02-30`, whose day is past the end of its month, rolls over into the next
  month, as `new Date` does in V8 (`CivilDate.Normalize`).

## Model

| member | source | states |
|---|---|---|
| Sampler.SelectRandom | index.js:32-48 | The loop with the sparse `taken` map returns exactly `Sample(arr, n, draws)`: the error when `n > arr.length`, otherwise the elements at the drawn positions, filled from the back |
| Sampler.Sample | index.js:37-47 | Throws `CannotSelect(n, arr.length)` if and only if `n > arr.length`; otherwise returns exactly `n` elements, each an element of `arr` |
| Sampler.SampleOfDistinct | index.js:41-45 | Element `k` of the result is `arr` at its own drawn position; so if `arr` has no repeats, neither does the result |
| Sampler.DrawnPositions | index.js:41-45 | The positions read are `n` pairwise-distinct indices of `arr` |
| Sampler.PicksDistinct | index.js:41-45 | Drawing from a pool of distinct slots never draws the same position twice, and draws only positions from the pool |
| Sampler.RemainingMembers | index.js:42-44 | After a draw, the slots stand for exactly the positions not drawn yet, still without repeats |
| Sampler.TakenStep | index.js:43-44 | Updating `taken[idx]` with what the last slot stood for keeps every remaining slot mapped to its position |
| Sampler.ImageStep | index.js:41-45 | One iteration keeps the undrawn positions distinct and disjoint from the drawn ones |
| Sampler.IotaMembers | index.js:34-35 | Before the first draw, the slots `[0, len)` stand for exactly the positions of `arr`, each once |
| Sampler.DrawingStart | index.js:33-35 | The loop state holds before the first iteration: an empty `taken`, `len == arr.length`, nothing drawn |
| Sampler.DrawingStep | index.js:42-44 | One iteration keeps the loop state: the slot index is in range, the position it reads is in `arr`, `len` drops by one, and the drawn positions stay distinct |
| StringOrder.LessIrreflexive | index.js:52 | The default sort order puts no string before itself |
| StringOrder.LessAsymmetric | index.js:52 | If `a` sorts before `b`, then `b` does not sort before `a` |
| StringOrder.LessTransitive | index.js:52 | The default sort order is transitive |
| StringOrder.LessTotal | index.js:52 | Of any two different strings, one sorts before the other |
| StringOrder.LessConcat | index.js:52 | For two prefixes of equal length, the concatenations compare by the prefixes first and the rest second, in both directions |
| StringOrder.GreatestExists | index.js:52-58 | Every non-empty key set has a key that sorts after all others |
| StringOrder.GreatestUnique | index.js:52-58 | That last key is unique |
| StringOrder.GreatestKey | index.js:52-58 | `sort().slice(-1)[0]` is the key that sorts after every other key |
| CivilDate.AddDays | index.js:72 | Adding `k` days gives a valid date whose day number is `k` more; a step that stays within day 28 keeps the month |
| CivilDate.Normalize | index.js:72 | A key's date with its day rolled over is valid, has the same day number and year, and is unchanged when already valid |
| CivilDate.EarlierDayNumber | index.js:72 | An earlier valid date has a smaller day number, even against a day past its month's end |
| CivilDate.LaterDayNumberIsLater | index.js:72 | A valid date with a larger day number comes later in calendar order |
| CivilDate.BeforeIffDayNumber | index.js:72 | On valid dates, calendar order and day-number order agree, in both directions |
| IsoDate.Pad | index.js:74 | The zero-padded field has exactly the width, only digits, and reads back as the number |
| IsoDate.PadDigitsValue | index.js:74 | Re-padding the value of a digit string gives the string back |
| IsoDate.PadLess | index.js:52 | Zero-padded numbers of one width sort as strings exactly as they sort as numbers |
| IsoDate.FormatDate | index.js:74 | Up to year 9999 the key is ten characters: the four-digit year, month and day, joined by dashes. After 9999 the key starts with `+` and a six-digit year |
| IsoDate.ParseDate | index.js:72 | An accepted key has a month from 1 to 12, a day from 1 to 31 and a four-digit year |
| IsoDate.ParseFormatDate | index.js:72-74 | Reading back a written date of years 0 to 9999 gives the date |
| IsoDate.FormatParseDate | index.js:72-74 | Writing an accepted key's date gives the key back |
| IsoDate.FormatDateOrder | index.js:52 | Written dates of years 0 to 9999 sort as strings if and only if they come earlier in the calendar |
| IsoDate.ExpandedYearSortsFirst | index.js:74 | A date written with a six-digit year sorts before every key that `ParseDate` accepts |
| Rotation.IndexOf | index.js:66-67 | `indexOf` is -1 exactly when the element is absent; otherwise it is the first index holding it |
| Rotation.IndexOfDistinct | index.js:66 | In a roster without repeats, `indexOf` of the member at `i` is `i` |
| Rotation.Without | index.js:76 | The filter keeps every occurrence of each component not in the first set, drops the others, and keeps the config order |
| Rotation.Put | index.js:78-79 | `obj[key] = value`: an existing key keeps its place and takes the new value, a new key goes last, every other key keeps its place and value, and no key appears twice |
| Rotation.PairCycle | index.js:77-79 | With two names, the cycle is first triager then second triager; with one name, the second assignment overwrites the first. Either way each name appears once |
| Rotation.PairCycleNames | index.js:77-79 | The keys of the cycle are the pair in order, or the one name |
| Rotation.NextIndexIsMod | index.js:71 | The wrap-around step is `(i + 1) % triagers.length` |
| Rotation.AdvanceIsMod | index.js:71-73 | Stepping `k` places round the roster is `(s + k) % n` |
| Rotation.NextDutyDateAsWritten | index.js:72-74 | The date step fails exactly on keys that are not dates |
| Rotation.AsWrittenExpandedKeySortsFirst | index.js:72-74 | When the step reaches year 10000, the key written starts with `+` and sorts before the key it was stepped from |
| Rotation.AsWrittenNextDateSortsFirst | index.js:72-74 | From `9999-12-25`, the key written sorts before `9999-12-25` itself |
| Rotation.NextDutyDate | index.js:72-74 | The corrected step fails on non-dates with `InvalidDate`, and on the year-10000 case with `DateOutOfRange`. Otherwise it agrees with the as-written step, gives a date exactly seven days later, and the new key sorts after the old one |
| Rotation.GenerateWith | index.js:50-85 | With either date step, every cycle built names each triager once, as a JSON object does. The lemmas below fix its outcome: its errors, date, pair and split |
| Rotation.GenerateDutyCycle | index.js:50-85 | The corrected run. Every cycle it builds names each triager once. GenerateFailures, GenerateDateIsNext, GeneratePair and GenerateSplit fix its outcomes |
| Rotation.CorrectedAgreesAsWritten | index.js:50-85 | The corrected run returns exactly what index.js returns, except where it refuses with `DateOutOfRange` for the last key |
| Rotation.GenerateSameStep | index.js:72-85 | Where the two date steps agree on the last key, the two runs agree |
| Rotation.GenerateRefused | index.js:54-74 | Where the corrected step refuses, the corrected run fails as index.js does before the date step, or with that refusal |
| Rotation.GenerateSameLast | index.js:52-74 | The outcome and the date depend on the history only through its greatest key and that key's cycle |
| Rotation.StaleKeyKeepsGreatest | index.js:52-58 | Storing a cycle under a key that sorts before the greatest key leaves the greatest key and its cycle unchanged |
| Rotation.AsWrittenUpdateRepeats | index.js:52-91 | As written, once the step from the last key reaches year 10000, the stored key sorts before the last key. In the map index.js:91 leaves, the last key stays the greatest, and generateDutyCycle run on that map returns the same date again |
| Rotation.GenerateFailures | index.js:54-69 | It throws `NoHistory` exactly on an empty history, and `InvalidTriagerData` exactly when the last cycle does not have two names. It throws `UnknownTriager` exactly when the second name is not in the roster. Otherwise it fails exactly when the date step does, with the same error |
| Rotation.GenerateDateIsNext | index.js:52-58 | The new key is seven days after the greatest existing key. It sorts after every existing key and is not already in the history |
| Rotation.GeneratePair | index.js:65-73 | With either date step: with a roster of at least two distinct names and `i` the index of the last second triager, the pair is `roster[(i+1) mod n]`, `roster[(i+2) mod n]`; with a roster of one it is the single name |
| Rotation.SplitIsPartition | index.js:75-76 | With distinct components, the first set and the filtered rest together are exactly the components |
| Rotation.GenerateSplit | index.js:75-79 | With either date step, the first triager gets `floor(n/2)` components from the config. The second gets the rest in config order. With distinct components the two sets are disjoint, and together they are exactly the components |
| Rotation.ConsecutiveCyclesAdvanceByTwo | index.js:65-74 | If cycle `s`, `s+1` is stored, the next update gives `s+2`, `s+3` (mod n) with a later date, or fails only on the year-10000 date |
| Rotation.TwoTriagerRosterRepeatsPair | index.js:71-73 | With a roster of two, every cycle has the same pair in the same order |
| Rotation.OneTriagerRosterStalls | index.js:61-63 | With a roster of one, the stored cycle has one key, so the next update throws `InvalidTriagerData` |
| Commands.DutyHistory.constructor | index.js:19-25 | The object holds the date map as read, and every stored cycle names each triager once, as a JSON object does |
| Commands.DutyHistory.CommandUpdate | index.js:87-93 | Runs the corrected step. On failure it stores nothing and returns the error. On success it stores the cycle under the new key, which was not present and sorts after every old key. Every other key and its cycle are unchanged. Every cycle still names each triager once, and if every key was a date, every key still is |
| Scenarios.FirstUpdate | index.js:50-85 | From `2024-01-01` with alice and bob, roster alice, bob, carol, and draw 1: the next cycle is `2024-01-08`, carol with `layout`, then alice with `css` |
| Scenarios.FirstRun | index.js:50-85 | The same step, run with the corrected date step: it gets past every check and builds the cycle from carol, alice and the drawn component |

## Left out

- Rotation.GenerateDutyCycle, Commands.DutyHistory.CommandUpdate: use the corrected date step.
  Where index.js writes a `+010000-…` key (a greatest key from `9999-12-25` to `9999-12-31`),
  they return `DateOutOfRange` and store nothing. `Rotation.GenerateWith` with `AsWritten` models
  index.js there, and Rotation.CorrectedAgreesAsWritten states that this is the only difference.

- File I/O: `readConfig`, `readHistory` and `writeHistory` (index.js:10-30) read and write JSON
  files. The configuration is a parameter, and the date map is the state of `Commands.DutyHistory`.
- No read/write round trip of the history file is modelled, because `writeHistory` is given the
  bare date map (index.js:92) while `readHistory` reads its `duty-start-dates` field (index.js:23).
- Command-line dispatch (index.js:95-103) is glue, and an unknown command does nothing.
  `ical-toolkit` (index.js:2) is imported but never used.
- `Math.random()` and its float multiply and floor (index.js:42) are not modelled. The draws are a
  parameter limited to the range `[0, len)`.
- Millisecond time values (index.js:72-74) are replaced by day numbers; they agree for UTC midnight
  keys.
- `new Date(key)` accepts many strings besides `YYYY-MM-DD`, such as keys with a time or a signed
  year. The model reads only `YYYY-MM-DD` keys and treats any other key as `InvalidDate`, the error
  that `toISOString` throws on an unparsable date.
- JavaScript compares strings by UTF-16 code unit, while the model compares Dafny characters. The
  two agree for keys and names without characters outside the Basic Multilingual Plane.
- Object keys that look like array indices are listed first by `Object.keys`. Date keys never look
  like that; triager names that do are not modelled.
- A history value that is not an object (for example, an array or a string) is not modelled: a
  stored cycle is always a list of named entries.
- `Array.isArray(lastTriagePair)` (index.js:61) always holds for `Object.keys`, so only the length
  test is modelled.
- Sampler.SelectRandom: `arr` is a sequence value, so "it only reads `arr`" holds by construction.
  The loop variant is the count of draws left.
- Rotation.GenerateDutyCycle: `(i + 1) % triagers.length` is written as `NextIndex`, which wraps
  without the remainder operator. Rotation.NextIndexIsMod and Rotation.AdvanceIsMod prove that the
  two agree.
- Rotation.GeneratePair and Rotation.GenerateSplit state the pair and the split for a roster
  without repeated names. A roster's names are the keys of one JSON object, so they are distinct.
- A "most recent Monday" starting date for an empty history, and restarting the rotation at the
  first member when a name is missing, do not exist in this code. The code throws in both cases
  (index.js:54-56, index.js:67-69), and the model follows the code.
- The pair start advances by two roster positions per cycle (Rotation.ConsecutiveCyclesAdvanceByTwo).
  With an even roster size, only every other member is ever first triager; the model follows the
  code.

## Findings

| source | as written | input that shows it | evidently intended | confidence | as-written member | corrected member |
|---|---|---|---|---|---|---|
| index.js:72-74 | Seven days after `9999-12-25` is written by `toISOString` as `+010000-01-01`. That key sorts before every four-digit key. generateDutyCycle run on the map index.js:91 leaves picks `9999-12-25` again and returns the same date. index.js's own next `update` fails earlier, unless the file is re-wrapped in `duty-start-dates`: writeHistory stores the bare map (index.js:92) and readHistory reads that field (index.js:23) | history whose greatest key is `9999-12-25` | each new key sorts after the last one, or the update refuses | not executed | Rotation.AsWrittenUpdateRepeats | Rotation.NextDutyDate |
