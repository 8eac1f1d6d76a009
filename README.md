# Dice roller with snapshot backups — a Dafny model

The repository is a small React dice roller plus four Node scripts that keep snapshots of the project's sources.

The model covers two parts:

- **The dice** (`src/App.jsx`, `src/components/Dice.jsx`, `src/components/DiceGrid.jsx`):
  - a tray of 1 to 12 dice, each with an id and a face value;
  - a set of held dice;
  - a roll that keeps the held dice, and a "roll all" that clears them;
  - the three-by-three dot face drawn for a value;
  - the grid that lays the dice out in rows of four.
- **The backup scripts** (`scripts/backup.js`, `list-backups.js`, `clean-backups.js`, `restore.js`):
  - a snapshot is a `backup-<timestamp>` folder in `backups/`;
  - it holds copies of the configured project paths and a `backup-info.json` record;
  - the listing is newest first, with sizes;
  - pruning keeps the last 5 or 10, deletes everything, or keeps a comma-separated choice of numbers;
  - restore copies a chosen snapshot's recorded paths back over the project.

Modules:

| module | file | contents |
|---|---|---|
| `Wrappers` | `wrappers.dfy` | `Option` |
| `Dice` | `dice.dfy` | the die datatype, face draws, `Rerolled`, the hold toggle; the `Tray` class holding the React state (`numDice`, `dice`, `heldDice`, `isRolling`) and the roll in two steps (start, then complete after the animation) |
| `Dots` | `dots.dfy` | the dot patterns and which positions show a dot |
| `DiceGrid` | `dicegrid.dfy` | the row loop and the props handed to each die |
| `Text` | `text.dfy` | the JavaScript string operations the scripts use: `trim`, `split`, `toLowerCase`, ECMAScript `parseInt` (with NaN as `None`), and the character-by-character order that `Array.prototype.sort` uses |
| `Tree` | `tree.dfy` | a filesystem tree (`File(size, json)` / `Dir(entries)`), plus its operations: `readdirSync`, recursive size, recursive copy, `copyFileSync`, `unlinkSync`, `rmdirSync`, recursive remove |
| `Store` | `store.dfy` | the `Workspace` class (the project root and the `backups/` directory), the sort, the reverse, the directory filter, and the reading of a snapshot's `backup-info.json` |
| `Backup` | `backup.dfy` | `backup.js` |
| `Listing` | `listing.dfy` | `list-backups.js` |
| `Clean` | `clean.dfy` | `clean-backups.js` |
| `Restore` | `restore.dfy` | `restore.js` |

Inputs from outside (the clock, `Math.random`, the answers typed at the prompts, the `process.argv[2]` description) are parameters:

- A clock reading is an ISO-8601 string, plus the locale string for `date`. The backup script reads the clock three times, so each reading is a separate parameter.
- A `Math.random()` draw is a `real` in `[0, 1)`.
- A typed answer is a `string`.

The scripts' console output is left out (see "Left out" below).

Notes on what the code does, which the model follows:

- Folder names come from the clock to the second. Two backups started within the same second therefore use the same folder. The second copies into the first (copying merges into existing directories), and its record replaces the first one's. `Backup.SameSecondSameName` and `Backup.SameSecondMerges` state this.
- Options 1 and 2 of the prune script delete from the front of the ascending order. Option 4's numbers count positions in that same ascending order. The restore script and the listing use newest-first order instead, so the same number names different snapshots in the two scripts.
- A JavaScript `parseInt` ignores trailing junk and accepts a sign and hex. So in option 4, `"2abc"` keeps snapshot 2, and `"0x2"` also keeps snapshot 2.
- The number-of-dice buttons are disabled while a roll is under way. The roll's completion reuses the held set captured when the roll started.

## Model

| member | source | states |
|---|---|---|
| `Dice.Face` | src/App.jsx:19 | a draw `r` in `[0,1)` gives a face `v` in 1..6 with `v - 1 <= 6r < v` |
| `Dice.EveryFaceReachable` | src/App.jsx:19 | every face 1..6 is produced by some draw |
| `Dice.Fresh` | src/App.jsx:17-20 | one new die per draw, ids `0..n-1` in order, every value a face |
| `Dice.Rerolled` | src/App.jsx:32-38 | same length and ids; a die whose id is held is unchanged, every other die gets a face |
| `Dice.RerolledWellFormed` | src/App.jsx:32-38 | re-rolling a well-formed tray (ids `0..n-1`, values faces) gives a well-formed tray |
| `Dice.RerollEverything` | src/App.jsx:66-71 | re-rolling with nothing held is the same as dealing fresh dice |
| `Dice.KeepEverything` | src/App.jsx:33-35 | re-rolling with every die held changes nothing |
| `Dice.Toggled` | src/App.jsx:46-54 | the toggled id flips its membership; every other id keeps its own |
| `Dice.ToggleTwice` | src/App.jsx:46-54 | toggling the same die twice restores the held set |
| `Dice.TogglesCommute` | src/App.jsx:46-54 | toggling two dice gives the same set in either order |
| `Dice.Tray.HasHeld` | src/App.jsx:131 | true exactly when some die is held |
| `Dice.Tray.constructor` | src/App.jsx:9-23 | five fresh dice, nothing held, not rolling; the tray invariant holds |
| `Dice.Tray.SetNumDice` | src/App.jsx:16-23 | the same count changes nothing; a new count deals `n` fresh dice and clears the held set. The count is 1..12 (src/components/Controls.jsx:9). The tray stays valid |
| `Dice.Tray.ToggleHold` | src/App.jsx:43-55 | during a roll, nothing changes; otherwise the held set becomes `Toggled(old, id)` and nothing else changes |
| `Dice.Tray.StartRoll` | src/App.jsx:25-28 | during a roll, nothing changes; otherwise the roll starts and captures the held set |
| `Dice.Tray.StartRollAll` | src/App.jsx:57-62 | during a roll, nothing changes; otherwise the held set is cleared, so nothing is held, and a roll keeping nothing starts |
| `Dice.Tray.CompleteRoll` | src/App.jsx:31-40 | the dice become `Rerolled(old dice, captured set, draws)` and the roll ends; the tray invariant is kept |
| `Dots.DotPattern` | src/components/Dice.jsx:6-16 | a value 1..6 shows that many dots at valid positions, listed in ascending order. The centre dot is shown exactly for odd values. The pattern maps to itself under a half turn. Any other value shows no dot |
| `Dots.HalfTurn` | src/components/Dice.jsx:18-28 | position `k` is row `k/3`, column `k%3`, and position `8-k` is its half-turn image |
| `Dots.Lit` | src/components/Dice.jsx:90-100 | nine entries; entry `k` is lit exactly when `k` is in the value's pattern. What this render shows is stated by its partner `Dots.LitCount` |
| `Dots.LitCount` | src/components/Dice.jsx:90-100 | a die showing `v` in 1..6 lights exactly `v` dots, any other value none |
| `DiceGrid.Slice` | src/components/DiceGrid.jsx:9 | `slice(start, end)`, with the end clamped to the length. What the row loop built from it promises is stated by `DiceGrid.Rows` and `DiceGrid.LayoutUnique` |
| `DiceGrid.Rows` | src/components/DiceGrid.jsx:7-10 | the rows, laid end to end, are the dice. Every row has 1..4 dice and all but the last have 4. There are `⌈n/4⌉` rows |
| `DiceGrid.LayoutUnique` | src/components/DiceGrid.jsx:7-10 | those conditions determine the rows uniquely |
| `DiceGrid.ViewOf` | src/components/DiceGrid.jsx:25-27 | a die's props: its value; held exactly when its id is held; spinning exactly during a roll when not held. Its partner `DiceGrid.SpinningIsRerolled` ties the spin to the roll |
| `DiceGrid.SpinningIsRerolled` | src/components/DiceGrid.jsx:26-27 | a held die never spins; a die that does not spin keeps its value through the roll; nothing spins outside a roll |
| `Text.Trim` | scripts/clean-backups.js:98 | the result is a contiguous slice of the input that neither starts nor ends with JavaScript whitespace, and everything removed at either end is whitespace |
| `Text.Split` | scripts/clean-backups.js:98 | there is always at least one piece |
| `Text.JoinSplit` | scripts/clean-backups.js:98 | joining the pieces with the separator gives back the input |
| `Text.SplitPieces` | scripts/clean-backups.js:98 | no piece contains the separator |
| `Text.AsciiLower` | scripts/clean-backups.js:62 | same length; upper-case ASCII letters are lowered and everything else is kept |
| `Text.QuitSpellings` | scripts/clean-backups.js:62 | `Text.IsQuit` (the answer lowered equals `q`, also scripts/restore.js:107) holds exactly when the answer is `q` or `Q` |
| `Text.YesSpellings` | scripts/clean-backups.js:119 | `Text.IsYes` (the answer lowered equals `y` or `yes`, also scripts/restore.js:127) holds exactly when the answer is one of the ten case variants of `y` and `yes` |
| `Text.ParseIntDecimal` | scripts/restore.js:113 | `Text.ParseInt`, ECMAScript `parseInt` with no radix (also scripts/clean-backups.js:98), gives a decimal numeral's value |
| `Text.ParseIntNegated` | scripts/restore.js:113 | `Text.ParseInt` of `-` followed by a numeral gives its negation |
| `Text.ParseDigits` | scripts/restore.js:113 | `Text.ParseInt` of any non-empty digit string, leading zeros included, gives its decimal value |
| `Text.ParseIntNaN` | scripts/restore.js:113-115 | `Text.ParseInt` is NaN (`None`) on an input that is all whitespace, or whose first non-space character is neither a sign nor a digit |
| `Text.LexIrreflexive` | scripts/clean-backups.js:45 | the sort order is irreflexive |
| `Text.LexAsymmetric` | scripts/clean-backups.js:45 | the sort order is asymmetric |
| `Text.LexTransitive` | scripts/clean-backups.js:45 | the sort order is transitive |
| `Text.LexTotal` | scripts/clean-backups.js:45 | any two different strings are ordered one way or the other |
| `Tree.ReadDir` | scripts/list-backups.js:51 | the entry names, each once, in some order |
| `Tree.GetDirSize` | scripts/list-backups.js:49-61 | the recursive loop returns `Tree.Size(dir)`, the sum of all file sizes under the directory, whatever order `readdirSync` gives |
| `Tree.DirSize` | scripts/list-backups.js:49-61 | `Tree.Size`: an empty directory has size 0; a directory's size is any one entry's size plus the size of the rest, so it does not depend on entry order |
| `Tree.Overlay` | scripts/restore.js:20-37 | recursive copy into an existing destination: the result's names are the destination's plus the source's |
| `Tree.CopyDir` | scripts/restore.js:20-37 | the loop over entries creates a missing destination and produces `Overlay(dest, src)` |
| `Tree.OverlayFresh` | scripts/backup.js:31-48 | copying into a missing destination gives an exact copy |
| `Tree.OverlayCovers` | scripts/backup.js:31-48 | after a copy, everything in the source is present with the same content. A destination name that the source does not have is untouched |
| `Tree.CopyFile` | scripts/restore.js:40-46 | the file is at its name; every other entry is unchanged |
| `Tree.Unlink` | scripts/restore.js:162 | the file's name is gone and every other entry is unchanged |
| `Tree.Rmdir` | scripts/clean-backups.js:30 | an empty directory's name is gone and every other entry is unchanged |
| `Tree.RemoveDir` | scripts/clean-backups.js:19-32 | a missing path changes nothing; otherwise the directory and everything under it is removed and nothing else is touched |
| `Store.Workspace.constructor` | scripts/backup.js:21 | a workspace with the given project root and backups directory |
| `Store.Insert` | scripts/clean-backups.js:45 | inserting adds exactly one occurrence of the element |
| `Store.Sort` | scripts/clean-backups.js:45 | a permutation of the input, in order; strictly ascending when the input has no duplicates |
| `Store.AscendingUnique` | scripts/clean-backups.js:43-45 | two strictly ascending lists of the same names are equal, so the sorted list does not depend on readdir order |
| `Store.Reverse` | scripts/restore.js:76 | element `i` is element `n-1-i` of the input |
| `Store.ReverseDescending` | scripts/restore.js:73-76 | reversing the ascending list gives a strictly descending list of the same names |
| `Store.DirsOnly` | scripts/clean-backups.js:44 | the filter keeps exactly the names of directories and adds no duplicates |
| `Store.DirsOnlyInOrder` | scripts/clean-backups.js:44 | the kept names are a subsequence of the names read: the filter keeps them in order |
| `Store.Candidates` | scripts/clean-backups.js:43-45 | the directories of the store, each once, strictly ascending |
| `Store.ReadInfo` | scripts/restore.js:139-147 | a record exists exactly when `backup-info.json` is a file that parses as one, and it is that record |
| `Backup.BackupPathsDistinct` | scripts/backup.js:10-18 | the configured paths are distinct and do not include the record's name |
| `Backup.ReplaceSeparators` | scripts/backup.js:27 | every `:` and `.` becomes `-`; everything else is kept |
| `Backup.Timestamp` | scripts/backup.js:27 | the first 19 characters, with the separators replaced |
| `Backup.FolderName` | scripts/backup.js:27-28 | `backup-` followed by the timestamp; the name contains no `:` or `.` |
| `Backup.FolderNameShape` | scripts/backup.js:27-28 | for an ISO instant, the name is 26 characters long and spells out the date and time to the second, with `-` in place of `:` |
| `Backup.SameSecondSameName` | scripts/backup.js:27-28 | two clock readings within the same second give the same folder name |
| `Backup.NameOrderIsTimeOrder` | scripts/backup.js:27-28 | the sort order of folder names is the chronological order of their seconds, and names are equal exactly when the seconds are |
| `Backup.DigitsOrder` | scripts/backup.js:27 | on digit strings of equal length, the string order is the numeric order |
| `Backup.Description` | scripts/backup.js:84 | the argument when it is given and non-empty; `Manual backup` otherwise |
| `Backup.Present` | scripts/backup.js:85 | exactly the listed paths that exist in the project |
| `Backup.PresentInOrder` | scripts/backup.js:85 | the filter keeps the configured order |
| `Backup.RecordedFiles` | scripts/backup.js:85 | the recorded list is exactly the configured paths that exist |
| `Backup.RecordedInOrder` | scripts/backup.js:85 | the recorded list is a subsequence of the configured paths |
| `Backup.Captured` | scripts/backup.js:63-78 | after copying a set of paths, the snapshot's names are its earlier names plus those paths that exist |
| `Backup.CopyPath` | scripts/backup.js:64-77 | one step of the copy loop: a missing path is skipped, a directory is copied recursively, a file is copied |
| `Backup.CopyAll` | scripts/backup.js:63-78 | the loop over the configured paths copies every existing path into the snapshot folder |
| `Backup.InfoFor` | scripts/backup.js:81-86 | the record holds the write-time clock reading, the locale date, the description and the recorded list. `Backup.FreshSnapshot` and `Restore.BackupThenRestore` state what the record is used for |
| `Backup.OpenFolder` | scripts/backup.js:22-24 | the backups directory is created when absent, and the snapshot folder is created inside it |
| `Backup.WriteInfo` | scripts/backup.js:88-91 | the record is written last, into the snapshot folder |
| `Backup.CreateBackup` | scripts/backup.js:20-91 | the project is unchanged, and the store becomes `Backup.AfterBackup`: it gains the folder named for the start time, holding the copies and the record (`Backup.Snapshot`) |
| `Backup.FreshSnapshot` | scripts/backup.js:61-91 | a new snapshot (`Backup.Snapshot` of an empty folder) holds exactly the existing configured paths, each an exact copy, plus the record |
| `Backup.SameSecondMerges` | scripts/backup.js:61-78 | a second backup in the same second keeps every earlier entry. An entry the second one does not copy stays as it was. Every copied path covers the project's current content |
| `Listing.UnitFor` | scripts/list-backups.js:65-67 | MB exactly above 1 MiB, KB otherwise |
| `Listing.ShownInfo` | scripts/list-backups.js:34-46 | with no record, the defaults (`No description`, `Unknown date`, 0 files); otherwise its description and date, and a file count exactly when it has a file list |
| `Listing.ExitCode` | scripts/list-backups.js:11-24 | exit 0 exactly when there is something to list |
| `Listing.ListingDeterministic` | scripts/list-backups.js:16-19 | the listing is determined by the store, whatever order readdir returns |
| `Listing.SummariseAll` | scripts/list-backups.js:28-75 | one row per snapshot, in order, numbered from 1, with its record and size; the total is `Listing.Total`, the sum of the row sizes (scripts/list-backups.js:64) |
| `Listing.ListBackups` | scripts/list-backups.js:9-81 | no store, no snapshots, or the rows in newest-first order with the total and its unit |
| `Listing.NewestFirst` | scripts/list-backups.js:16-19 | the rows name every snapshot once, newest first, each with its own record and size |
| `Clean.SliceEnd` | scripts/clean-backups.js:72 | `slice(0, -n)` ends at `len - n`, clamped at 0 |
| `Clean.AllButLast` | scripts/clean-backups.js:72-75 | a prefix of the snapshots, `len - n` long and clamped at 0: all but the last `n`, in order |
| `Clean.KeepLastSurvivors` | scripts/clean-backups.js:72-75 | after deleting, the last `min(n, len)` snapshots remain, and they are the newest |
| `Clean.KeepSet` | scripts/clean-backups.js:98 | `i` is kept exactly when some comma-separated piece, once trimmed, parses to `i + 1` (`Clean.PieceValues` holds what each piece parses to) |
| `Clean.KeepOfMeaning` | scripts/clean-backups.js:98 | 0-based `i` is in the set exactly when `i + 1` was parsed |
| `Clean.KeepOneNumber` | scripts/clean-backups.js:97-98 | typing one number `k` keeps exactly position `k - 1` |
| `Clean.Unkept` | scripts/clean-backups.js:100 | the filter deletes only names from the list and never more names than the list has |
| `Clean.UnkeptExactly` | scripts/clean-backups.js:98-100 | a snapshot is deleted exactly when its position is not kept |
| `Clean.UnkeptSubsequence` | scripts/clean-backups.js:100 | the deletions keep the list's order |
| `Clean.NoKeptPositions` | scripts/clean-backups.js:98-100 | when no position is kept, everything is deleted |
| `Clean.PlanFor` | scripts/clean-backups.js:62-106 | `q`/`Q` quits; other input outside `1`–`4` is invalid; options 1–4 delete as described above. Every plan deletes a subsequence of the snapshots |
| `Clean.DeleteAll` | scripts/clean-backups.js:127-131 | the loop removes exactly the chosen snapshots and leaves the project alone |
| `Clean.RunClean` | scripts/clean-backups.js:34-137 | every outcome occurs exactly when its condition holds: no store, no snapshots, quit, invalid choice, nothing to delete, declined, deleted. Only a confirmed deletion changes the store, and it removes exactly the plan |
| `Clean.RemainingIsLeft` | scripts/clean-backups.js:134 | the reported remaining count is the number of snapshots left |
| `Restore.DefaultIsCaptured` | scripts/restore.js:137 | the default restore list is the backup script's path list |
| `Restore.Select` | scripts/restore.js:105-119 | `q`/`Q` quits; a choice is made exactly when `parseInt` gives 1..count; it gives the index one below the number |
| `Restore.Pick` | scripts/restore.js:113-119 | a parsed value within 1..count picks the index one below it; anything else is invalid |
| `Restore.SelectNumber` | scripts/restore.js:113-119 | typing the numeral `k` chooses `k - 1` when `k` is in range, and is invalid otherwise |
| `Restore.SelectNegative` | scripts/restore.js:113-119 | a negative numeral is invalid |
| `Restore.SelectNaN` | scripts/restore.js:113-119 | an input that is not a number quits when it is `q`/`Q` and is invalid otherwise |
| `Restore.FilesToRestore` | scripts/restore.js:137-148 | the record's file list when it has one; the default list otherwise |
| `Restore.MissingRecordFallsBack` | scripts/restore.js:139-148 | a snapshot whose record is missing or unreadable restores the default list |
| `Restore.RestoredProject` | scripts/restore.js:151-176 | the project's names plus those listed names the snapshot has |
| `Restore.RestoredPaths` | scripts/restore.js:151-176 | each listed path the snapshot has is replaced by the snapshot's copy; everything else is untouched |
| `Restore.RestoreIdempotent` | scripts/restore.js:151-176 | restoring the same snapshot twice is the same as restoring it once |
| `Restore.BackupThenRestore` | scripts/restore.js:151-176 | restoring a snapshot brings back every path it recorded, as it was at backup time, and leaves everything else as it is now |
| `Restore.RestoreRoundTrip` | scripts/restore.js:151-176 | restoring a fresh snapshot over the unchanged project leaves it unchanged |
| `Restore.RestoreOne` | scripts/restore.js:155-172 | one step of the loop removes the existing entry and copies the snapshot's entry in its place |
| `Restore.RestoreFiles` | scripts/restore.js:151-176 | the loop makes the project `RestoredProject(old, snapshot, list)` and leaves the store alone |
| `Restore.Decide` | scripts/restore.js:78-131 | every outcome occurs exactly when its condition holds: no snapshots, quit, invalid selection, declined, restored. A restore names the newest-first snapshot that was chosen |
| `Restore.RunRestore` | scripts/restore.js:64-182 | the store is never changed. Only a confirmed restore changes the project, and it becomes `RestoredProject` of the chosen snapshot's file list |

## Left out

- Console output is not modelled. This covers the emoji messages, the numbered option listings in `clean-backups.js` (lines 81-95) and `restore.js` (lines 84-103), and the deletion list. The listing's rows are modelled as data (`Listing.Row`).
- Number formatting is not modelled: `toFixed(1)` and the size strings. `Listing.UnitFor` chooses the unit, and the size stays an exact byte count.
- `readline`, promises and `process.exit` are not modelled. Answers are parameters, and exit codes are `Listing.ExitCode`.
- `JSON.parse` and `JSON.stringify` are abstracted:
  - a file carries `json: Option<Info>`, the record it parses as, if any;
  - the record written has an abstract byte size, `infoBytes`.
  - A record that parses but lacks `description` or `date` would be shown as `undefined`, which is not modelled: `Info` always has both.
  - A `files` value that is not an array is not modelled.
- A JavaScript empty array is truthy. So a record with `files: []` restores nothing, and the model matches this, since `Some([])` restores the empty list. `Listing.ShownInfo`, however, shows 0 for a missing record as the source's default object does.
- `toLocaleString` is not modelled; the date is an opaque parameter. The three clock readings are independent parameters.
- Filesystem failures are not modelled: permissions, a full disk, a path vanishing mid-operation, symlinks. A crash from a type clash (a file where a directory is expected) is not modelled either; it becomes a precondition (`Tree.Compatible`, `Backup.CanCreate`, `Tree.RemoveDir`). `Tree.Compatible` also rules out one case that does not crash: copying an empty source directory onto an existing file name, where `copyDir` finds the name present and its loop does nothing.
- Recorded paths are single names under the project root, as `backup.js` writes them. Nested names or `..` in a hand-edited record are not modelled.
- Files are compared by size and record only, not by content bytes.
- The 800 ms `setTimeout` is not modelled. A roll is two steps, `StartRoll`/`StartRollAll` and then `CompleteRoll`. No other event can arrive between them except those the model allows.
- Dice.Tray.CompleteRoll: takes one draw per die, including held dice, whose draws are ignored. The source calls `Math.random` only for dice that are not held.
- Dice.Tray.SetNumDice: promises the tray is synchronised only when not called during a roll, because the buttons that call it are disabled then (src/components/Controls.jsx:33), and the model does not reproduce that guard.
- The animations, Tailwind classes, the dark-mode toggle, `tailwind.config.js` and `src/components/Controls.jsx` beyond its 1..12 choices are not modelled.
- Dot positions are modelled as (row, column) pairs rather than CSS class strings.
- `Math.random` is modelled only as a value in `[0, 1)`; its distribution is not modelled.
- Text.ParseIntDecimal: numbers are exact. The loss of precision `parseInt` has beyond 2^53 is not modelled.
- `toLowerCase` is modelled as ASCII lowering. Full Unicode case mapping is not modelled; the scripts only compare its result with `q`, `y` and `yes`.
- `Text.LexLess` compares characters by code point. JavaScript's sort compares UTF-16 code units, which differs only for characters outside the Basic Multilingual Plane; that difference is not modelled.
