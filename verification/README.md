# Total Match: configuration, records and round generation in Dafny

This project models the core of a small arithmetic puzzle game. The player picks three cells of a 3×3 board of digits whose sum equals a displayed target, as often as possible before the timer runs out. The model covers:

- **Configuration** (`Config`): the six settings, the default configuration, the pick-count and target-ceiling lists offered per grid size, and the clamp that brings a loaded or edited configuration back into those lists.
- **Persistence** (`Storage`, `HighScores`, `Presets`): the three entries the game keeps under the `tmg:v1:` prefix of the browser's key-value store.
  - The configuration, read by laying stored fields over the defaults and then clamping.
  - The per-configuration high-score table, keyed by a string such as `g3|k3|t20|s60|wkeep`.
  - The list of saved presets: at most four, newest first.
  - Reset, which removes all three entries.
- **Settings screen** (`Settings`): editing one setting, the duplicate and capacity checks that disable saving, opening the name dialog, saving, applying and removing a preset. Each is a transition over the screen's state and the store.
- **Round generation** (`Rounds`): three distinct solution cells are drawn, then three solution values, which fix the target, then one filler value for each of the other six cells.
- **Time display** (`Time`): `m:ss` formatting of a number of seconds.

Supporting modules: `Decimal` holds decimal rendering of integers (JavaScript's `String(n)` on integers) and its parser. `Strings` holds `split`/`join` on a separator, `padStart` and `trim` with ECMAScript's whitespace set.

Storage is modelled as a value. Each entry is `Missing` (never written, removed, or the empty string), `Unparsable` (`JSON.parse` throws) or `Parsed(value)`. Every operation that writes returns the new store.

Randomness is a finite sequence of draws supplied by the caller: the k-th call of `randInt(min, max)` returns the k-th draw. A draw outside the requested range, or running out of draws, makes generation return `None`. The pick loop succeeds, however many repeated indices it rejects on the way, exactly when the draws so far are cell indices that hold three distinct values, and it stops at the first such draw (`Rounds.PickSucceeds`, `Rounds.PickSucceedsOnlyIf`). Nine in-range draws after that always complete the round (`Rounds.GenerateRoundSucceedsFrom`).

The preset id (`crypto.randomUUID()` or `String(Date.now())`) and the timestamp (`Date.now()`) are parameters of the save operations.

The round generator takes no configuration: it always builds a 3×3 board with three solution cells, whatever the grid size, pick count or ceiling. The target is the sum of three draws in [0, 9]. So it can be 0, and it can exceed the ceilings 20 and 25, but it never reaches the ceilings 30, 35 and 40. The model follows the code, and `Rounds.EveryTargetReachable` shows that every value in [0, 27] occurs.

## Model

| member | source | states |
|---|---|---|
| Config.PicksOptionsForSize | src/game/config.ts:30-34 | the list is a prefix of [3, 4, 5], of length 1 for size 3, 2 for size 4 and 3 for any other size |
| Config.TargetMaxOptionsForSize | src/game/config.ts:35-39 | the list is a prefix of [20, 25, 30, 35, 40], of length 3, 4 or 5 by size, and never offers a ceiling below 20 |
| Config.OptionsGrowWithSize | src/game/config.ts:30-39 | a larger board (from size 3 on) offers every pick count and ceiling a smaller one does |
| Config.ClampTo | src/game/config.ts:48-51 | the result is always allowed; an allowed value is kept; any other value becomes the list's first entry |
| Config.Clamp | src/game/config.ts:47-51 | the clamped configuration is allowed for its grid size; picksCount falls back to 3 and targetMax to 20 only when not allowed; all other fields are kept; an allowed configuration is unchanged |
| Config.ClampIdempotent | src/game/config.ts:47-51 | clamping twice is the same as clamping once |
| Config.DefaultAllowed | src/game/config.ts:14-21 | the default configuration is allowed and clamping leaves it unchanged |
| Config.MergeOverDefault | src/game/config.ts:44-45 | each stored field overrides the default, and each missing field takes the default |
| Config.MergeFull | src/game/config.ts:45 | a fully stored configuration laid over the defaults gives back exactly that configuration |
| Storage.LoadConfig | src/game/config.ts:41-57 | the loaded configuration is always allowed; unreadable or absent data gives the defaults; otherwise it is the clamped merge of stored fields over defaults |
| Storage.SaveConfig | src/game/config.ts:58-60 | writes every field of the configuration and touches neither scores nor presets |
| Storage.SaveThenLoad | src/game/config.ts:41-60 | loading after saving gives the saved configuration clamped, so an allowed configuration survives the round trip unchanged |
| Storage.LoadSavedConfigs | src/game/config.ts:72-79 | the stored preset list, or the empty list when it is absent or unreadable |
| Storage.SaveSavedConfigs | src/game/config.ts:80-82 | the list written is the list read back; the other entries are untouched |
| Storage.LoadScoreTable | src/game/config.ts:120-126 | the stored score table, or the empty table when it is absent or unreadable |
| Storage.ResetAllData | src/game/config.ts:134-142 | after a reset, loading gives the default configuration, no presets and an empty score table |
| Decimal.NatToString | src/lib/time.ts:2-4 | decimal digits without a leading zero; one digit exactly below 10, two digits from 10 to 99 |
| Decimal.NatToStringRoundTrip | src/lib/time.ts:2-4 | the digits read back as the number they were made from |
| Decimal.IntToString | src/game/config.ts:100-104 | a leading minus sign exactly for negative numbers, followed by the shortest digits of the magnitude, so there is never a leading zero |
| Decimal.IntToStringRoundTrip | src/game/config.ts:100-104 | the rendering of an integer parses back to that integer |
| Decimal.IntToStringInjective | src/game/config.ts:100-104 | two integers render the same exactly when they are equal |
| Strings.Split | src/game/config.ts:100-106 | the decoder for the join on the bar separator that builds a score key: at least one piece, and no piece contains the separator |
| Strings.Join | src/game/config.ts:106 | a join of at least one piece begins with the first piece |
| Strings.JoinCount | src/game/config.ts:106 | joining n ≥ 1 pieces that are free of the separator yields exactly n − 1 separators |
| Strings.SplitJoin | src/game/config.ts:100-106 | pieces free of the separator, joined and split again, give back the pieces |
| Strings.PadStart | src/lib/time.ts:3 | the result is at least the target length, ends with the input, and is padded only with the fill character |
| Strings.Trim | src/components/Settings.tsx:70 | the result is the input with a whitespace-only prefix and suffix removed, begins and ends with a non-whitespace character, and is empty exactly when the input is all whitespace |
| HighScores.ScoreKey | src/game/config.ts:99-107 | a key splits back, at its separators, into its five tagged fields |
| HighScores.ScoreKeySeparators | src/game/config.ts:99-107 | a key holds exactly four separators, one between each pair of adjacent fields |
| HighScores.LoadHighScore | src/game/config.ts:108-117 | 0 when the table is absent or unreadable, 0 for a key the table lacks, otherwise the stored best for that key |
| HighScores.TaggedRoundTrip | src/game/config.ts:100-104 | a tagged field such as `k4` reads back as its number and contains no separator |
| HighScores.ScoreKeyRoundTrip | src/game/config.ts:99-107 | a score key decodes to the grid size, pick count, ceiling, seconds and wrong-answer mode it was made from |
| HighScores.ScoreKeyIffSameFingerprint | src/game/config.ts:99-107 | two configurations share a key exactly when those five settings agree; the control mode plays no part |
| HighScores.UpdateHighScoreIfBest | src/game/config.ts:118-131 | the returned best is the larger of the new score and the stored one; it is what is then stored and read back; no other key changes value; the key set grows by exactly this key; config and presets are untouched |
| HighScores.UpdateLeavesOtherConfigs | src/game/config.ts:118-131 | recording a score never changes the high score of a configuration with a different fingerprint |
| HighScores.UpdateAllKeepsMax | src/game/config.ts:118-131 | after any run of updates the stored best is the maximum of the initial best and all recorded scores |
| HighScores.BestsAtLeastStored | src/game/config.ts:118-131 | no update in a run returns less than the best stored before the run |
| HighScores.BestsNonDecreasing | src/game/config.ts:118-131 | the bests returned by successive updates never decrease |
| HighScores.ResetClearsHighScores | src/game/config.ts:108-142 | after `resetAllData` (lines 134-142) removes the score table, `loadHighScore` (lines 108-117) reads 0 for every configuration |
| Presets.Take | src/game/config.ts:86 | the first n entries, or all of them when there are fewer |
| Presets.AddSavedConfig | src/game/config.ts:83-88 | the new entry comes first, the old entries follow in order, and the list is cut to four entries |
| Presets.RemoveId | src/game/config.ts:90 | no kept entry has the id, every kept entry was in the list, every entry with another id is kept, and as many copies of it are kept as the list held |
| Presets.RemoveIdKeepsOrder | src/game/config.ts:90 | the kept entries keep their original order |
| Presets.RemoveIdIdempotent | src/game/config.ts:90 | removing the same id twice is the same as removing it once |
| Presets.DeleteSavedConfig | src/game/config.ts:89-92 | the stored list becomes the list without that id; the other entries are untouched |
| Presets.DeleteSavedConfigSpec | src/game/config.ts:89-92 | an entry survives exactly when it was stored and has another id, with all its copies; order is kept, and a repeated delete changes nothing |
| Time.FormatMMSS | src/lib/time.ts:1-5 | one colon; before it, exactly the unpadded decimal rendering of the whole minutes; after it, exactly two digits with the value of the leftover seconds |
| Time.SecondsFieldValue | src/lib/time.ts:3 | the padded seconds field is two digits whose value is the number, for every number below 60 |
| Time.FormatMMSSRoundTrip | src/lib/time.ts:1-5 | the display parses back to the number of seconds |
| Time.FormatMMSSInjective | src/lib/time.ts:1-5 | two numbers of seconds display the same exactly when they are equal |
| Rounds.RandInt | src/game/generateRound.ts:6-8 | a value exactly when the next draw exists and lies in [min, max], and then it is that draw |
| Rounds.AddIfNew | src/game/generateRound.ts:11-12 | set insertion keeping first-insertion order: the members are the old ones plus the new value, and at most one entry is added |
| Rounds.PickFrom | src/game/generateRound.ts:10-14 | the loop stops with exactly three distinct indices in [0, 8], extending those it started with |
| Rounds.PickFromMembers | src/game/generateRound.ts:10-14 | the picked indices are the starting ones together with every index drawn, repeats included once |
| Rounds.Pick3DistinctIdx | src/game/generateRound.ts:10-14 | three distinct indices in [0, 8]; they are exactly the indices drawn before the loop stopped, listed in order of first appearance; the last draw used was a new index, so the loop stops at the draw that brings the third one |
| Strings.IndexOf | src/game/generateRound.ts:10-14 | the first occurrence of a value (a drawn index, or a separator for `Split`): it is there and not earlier |
| Rounds.FirstSeenOrderExtend | src/game/generateRound.ts:11-12 | adding the next draw when it is new keeps the indices in order of first appearance |
| Rounds.PickStep | src/game/generateRound.ts:11-12 | one loop pass keeps the indices equal to the set drawn so far and in first-appearance order; a draw not yet held is new in the draw sequence |
| Rounds.PickFromFirstSeen | src/game/generateRound.ts:10-14 | the loop ends with the indices in order of first appearance, and when it still had to pick, its last draw was a new index |
| Rounds.FillFrom | src/game/generateRound.ts:30-33 | solution cells and cells already passed are untouched; every other cell gets its own draw in [0, 9], in row-major order |
| Rounds.FillFromDrawCount | src/game/generateRound.ts:30-33 | the filler loop uses one draw per cell outside the solution |
| Rounds.FreeBetweenCount | src/game/generateRound.ts:30-33 | the cells outside three distinct solution cells in a range number the range's length less the solution cells within it |
| Rounds.FillerDrawsSix | src/game/generateRound.ts:30-33 | the filler loop draws six values |
| Rounds.FillFromSucceeds | src/game/generateRound.ts:30-33 | the filler loop completes whenever the draws it needs exist and lie in [0, 9] |
| Rounds.Seeded | src/game/generateRound.ts:18-28 | a 9-cell board holding the three solution values in the solution cells |
| Rounds.FillRound | src/game/generateRound.ts:18-35 | given three distinct cells, a valid round whose solution cells hold the next three draws and whose other cells hold the filler draws |
| Rounds.RoundFacts | src/game/generateRound.ts:24-35 | after the filler loop, every cell lies in [0, 9], the solution cells still hold the values whose sum is the target, and the round has a solution |
| Rounds.SolutionCellsKept | src/game/generateRound.ts:26-33 | the filler loop keeps the solution values, and the solution cells sum to the target |
| Rounds.GenerateRound | src/game/generateRound.ts:17-36 | nine cells in [0, 9]; three distinct solution cells in [0, 8] whose values sum to the target; a target in [0, 27]; the solution cells hold the three draws after the index draws, and the other cells hold their filler draws |
| Rounds.FillRoundSucceeds | src/game/generateRound.ts:21-33 | nine in-range draws after the index draws always complete a round |
| Rounds.FillRoundNeedsNine | src/game/generateRound.ts:21-33 | a completed round used nine draws after the index draws |
| Rounds.GenerateRoundSucceeds | src/game/generateRound.ts:17-36 | once three indices are picked, generation fails only for lack of in-range draws: nine suffice and fewer never do |
| Rounds.PickSucceeds | src/game/generateRound.ts:10-14 | when the first n draws are all cell indices and three of them differ, the loop succeeds, repeats included, and has used at most n draws |
| Rounds.PickSucceedsOnlyIf | src/game/generateRound.ts:10-14 | a successful pick used only cell indices and met three distinct ones; with `PickSucceeds`, it stops at the first draw for which that holds |
| Rounds.GenerateRoundSucceedsFrom | src/game/generateRound.ts:10-36 | index draws that hold three distinct cells, followed by nine in-range draws, always give a round |
| Rounds.PickFirstThree | src/game/generateRound.ts:10-14 | index draws 0, 1, 2 pick those cells with no rejection |
| Rounds.TargetFromDraws | src/game/generateRound.ts:21-24 | the target is the sum of the three draws taken right after the index draws |
| Rounds.FirstCellsRound | src/game/generateRound.ts:17-36 | index draws 0, 1, 2 followed by nine in-range draws give a round whose target is the sum of the next three draws |
| Rounds.EveryTargetReachable | src/game/generateRound.ts:21-24 | every value in [0, 27], including 0, is the target of some round |
| Settings.SameConfig | src/components/Settings.tsx:25-34 | field-by-field equality of the six settings holds exactly when the configurations are equal |
| Settings.SameConfigReflexiveSymmetric | src/components/Settings.tsx:25-34 | the duplicate check's equality is reflexive and symmetric |
| Settings.Update | src/components/Settings.tsx:37-45 | an edit changes only its own key; a new grid size keeps picksCount and targetMax when allowed, otherwise takes the first allowed value, and always yields an allowed configuration |
| Settings.UpdateGridSizeIdempotent | src/components/Settings.tsx:39-45 | setting the same grid size twice is the same as setting it once |
| Settings.DefaultSaveName | src/components/Settings.tsx:57 | the name is `設定` followed by the shortest decimal digits of the preset count plus one, with no leading zero |
| Settings.Mount | src/components/Settings.tsx:53-57 | the screen opens with the stored preset list, the dialog closed, and the current configuration |
| Settings.IsDuplicate | src/components/Settings.tsx:60 | true exactly when some shown preset holds the current configuration |
| Settings.IsSaveDisabled | src/components/Settings.tsx:61 | true exactly when the configuration is already saved or four presets are shown |
| Settings.UpdateSetting | src/components/Settings.tsx:37-48 | the screen shows the edited configuration, loading the store gives it back clamped, and presets and scores are untouched |
| Settings.OpenSave | src/components/Settings.tsx:60-67 | with a duplicate configuration or four presets nothing happens; otherwise the dialog opens with the default name for the stored count |
| Settings.ChosenName | src/components/Settings.tsx:70 | never empty: the trimmed typed name, or the default name when only whitespace was typed |
| Settings.DoSave | src/components/Settings.tsx:68-73 | a refused save changes nothing; otherwise the new preset is stored in front, the list is cut to four, the screen shows the stored list, and the dialog closes |
| Settings.FindById | src/components/Settings.tsx:75 | none exactly when no entry carries the id; otherwise the first entry that does |
| Settings.ApplyPreset | src/components/Settings.tsx:74-79 | an unknown id changes nothing; otherwise the first preset with that id becomes the current configuration and is stored |
| Settings.RemovePreset | src/components/Settings.tsx:80-83 | the store and the screen both show the list without that id; config and scores are untouched |
| Settings.MountEstablishes | src/components/Settings.tsx:53-61 | a well-formed stored list of allowed presets and an allowed configuration give a screen that agrees with the store |
| Settings.DoSavePreserves | src/components/Settings.tsx:60-73 | saving keeps at most four presets, each allowed and no two field-equal, and the screen in step with the store |
| Settings.RemoveIdPreservesNoTwoSame | src/game/config.ts:89-92 | deleting by id never creates two field-equal presets |
| Settings.RemovePresetPreserves | src/components/Settings.tsx:80-83 | removing a preset keeps the screen's invariant |
| Settings.Dispatch | src/components/Settings.tsx:104-278 | the dialog's input, cancel and save act only while it is open, and confirming saves (`doSave`); a preset card applies its preset only while the dialog is closed; the option buttons, the save button and the delete buttons act whether the dialog is open or not, each through its own handler (`update`, `openSave`, `removePreset`); a grid size without a button and a disabled pick-count or ceiling button change nothing; typing sets the name and cancel closes the dialog without touching the store |
| Settings.Route | src/components/Settings.tsx:104-278 | each control's `onClick` handler: the option buttons call `update` with their key and value (the pick-count and ceiling buttons only when enabled), the save button `openSave`, a card `applyPreset`, its delete button `removePreset`, and the dialog's input, cancel and save set the name, close the dialog and `doSave` |
| Settings.ClickKeepsAllowed | src/components/Settings.tsx:111-230 | with allowed presets, no action leaves the current configuration outside the combinations its grid size allows |
| Settings.DispatchPreserves | src/components/Settings.tsx:104-278 | every action the screen offers keeps the screen's invariant |
| Settings.RunPreserves | src/components/Settings.tsx:104-278 | whatever sequence of the screen's actions the user takes, the screen matches the store, holds at most four allowed presets, no two field-equal, and the current configuration stays allowed |

## Left out

- Rendering, layout, labels (`summarize`), the name field's 16-character limit (`maxLength`, enforced by the browser) and the React hook mechanics are left out: they are presentation, not logic.
- Settings.Dispatch: the open dialog is an overlay over the whole screen (Settings.tsx:257-258) with no focus trap. Pointer clicks behind it are blocked, but keyboard focus still reaches the buttons there. The model therefore lets those buttons act while the dialog is open, and it blocks the preset cards, which are `div`s with no tab stop. The Start button leaves the screen and is not an action here. The `useEffect` reload of the preset list is modelled as the list read at mount.
- The parent of the settings screen is assumed to adopt `onChange(next)` as the next `config` prop (Settings.tsx:46,77). App.tsx:4-26 does not mount `Settings`, and the component that does is not part of this model.
- The game session state machine (timer, selection, scoring, wrong-answer handling) is not part of this model.
- JSON encoding and decoding is not modelled. A stored entry is either a structured value or unparsable. Stored values of the wrong JSON type (a string where a number belongs, `null` as the score table) are not modelled.
- A missing `localStorage` and other storage exceptions are not modelled. Removal in `resetAllData` always succeeds.
- `String(n)` is modelled only for integers. Fractional, huge and non-finite numbers and JavaScript's exponent notation are left out.
- Rounds.RandInt: `Math.random()` and the floating-point `Math.floor` are replaced by the caller's draws. Uniformity of the draws is not modelled.
- Rounds.PickFrom: the source loop runs until three distinct indices are found. The model stops when the draws run out, because a finite sequence stands in for an endless random source.
- Time.FormatMMSS: only non-negative integer seconds are modelled. Negative and fractional inputs are left out.
- The UUID and clock calls that give a preset its id and time are parameters of `Presets.AddSavedConfig` and `Settings.DoSave`.
