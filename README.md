# Lucky draw: a verified model of the draw-and-commit core

This project models the core of an Electron lucky-draw application. An operator configures
a draw in the settings screen: event name, prize counts, number of digits, and coupon range.
The operator then loads a coupon inventory, checks it, and opens the draw screen. There the
numbers are revealed one press at a time, and finally the draw is committed to the prize and
coupon tables.

The model follows the program's own structure, one Dafny module per part:

- `Wrappers` (`wrappers.dfy`): `Option` and a `Distinct` predicate on sequences.
- `Text` (`text.dfy`): the JavaScript conversions the program relies on: `String(n)`,
  `Number(s)` on coupon strings, `padStart(w, "0")` and `split`.
- `Dates` (`dates.dfy`): `formatDateTime`/`formatDate`/`formatTime`, `parseYYYYMMDD`,
  `parseDDMMYYYY` and `filterDates`. A `Date` is its integer fields.
- `Store` (`store.dfy`): the persistence worker's `Controller` class. Its four tables
  (requirements, coupons, prizes, users) are sequence fields, and each method is the one SQL
  statement it runs.
- `Inventory` (`inventory.dfy`): the per-entry filter of `load-coupon-inventory`, the
  sufficiency comparison of `is-navigation-allowed`, and the row normalisation of
  `load-from-excel`.
- `Draw` (`draw.dfy`): `generateFinalNumberJSON`, the rejection-sampling draw. `Math.random`
  is replaced by the sequence of indices it produced.
- `MainProcess` (`session.dfy`): the main process's module-level state (`inventoryCouponNumbers`,
  `problematicNumbers`, the logged-in user) as a `Session` class. Its IPC handlers are methods,
  and the commit path is specified by functions over the tables.
- `Game` (`game.dfy`): the draw screen. This covers the boxes per line for a screen width,
  the line layout, and a `DrawScreen` class whose `Press` is one press of the prize button.
- `Settings` (`settings.dfy`): the settings form's validation schema as a predicate, and the
  gate in front of the draw screen.

Operator answers to confirmation dialogs are boolean inputs. The clock is a parameter
(`DateTime` values, or one per inserted prize row). An IPC handler that throws returns
`Threw` in a `Reply`.

Two facts about the program that the model makes explicit:

- The settings schema does not require the range to hold as many values as there are prizes
  (`Settings.ValidFormMayLackRoom`).
- Nothing in the main process calls `insertRequirements`. `updateRequirements` on an empty
  table adds no row (`Store.Controller.UpdateRequirements`).

## Model

| member | source | states |
|---|---|---|
| Text.PadStartShape | src/main/index.js:136-158 | padStart never shortens, reaches the width, keeps the string as its suffix and adds only '0' characters in front |
| Text.PadStartIdempotent | src/main/index.js:584-595 | padding an already padded number again gives the same string, so update-coupons looks up exactly what the draw returned |
| Text.JsNumberOfIntToString | src/main/index.js:374-404 | Number(String(i)) reads back i for every integer, including negatives |
| Text.JsNumberOfPaddedNat | src/main/index.js:374-404 | a zero-padded numeral still reads as the same number |
| Text.PaddedNatInjective | src/main/Controller.js:126-132 | two different counts never give the same padded numeral |
| Text.NatToStringLengthMonotone | src/renderer/src/components/Settings.jsx:36-44 | a larger non-negative number never has a shorter numeral |
| Text.SplitAtFirst | src/main/index.js:238-257 | split at the first separator gives the part before it, then the split of the rest |
| Dates.FormatDateTimeJoinsDateAndTime | src/main/Controller.js:202-225 | formatDateTime is formatDate and formatTime joined by one blank |
| Dates.FormatDateLayout | src/main/Controller.js:202-211 | for a two-digit day and month and a four-digit year, the date part is DD-MM-YYYY: ten characters with dashes at positions 2 and 5 |
| Dates.FormatTimeLayout | src/main/Controller.js:202-211 | for two-digit fields, the time part is HH:MM:SS: eight characters with colons at positions 2 and 5 |
| Dates.FormatDateTimeLayout | src/main/Controller.js:202-211 | for two-digit fields and a four-digit year, the stamp is 19 characters in the form DD-MM-YYYY HH:MM:SS, the separators are at their fixed positions, each field reads back as its value, and the month is shown 1-based |
| Dates.Pad2Shape | src/main/Controller.js:203-208 | String(n).padStart(2, "0") of n < 100 is two digits that read back as n |
| Dates.ParseYYYYMMDD | src/main/index.js:248-252 | null exactly for the empty string |
| Dates.ParseDDMMYYYY | src/main/index.js:253-257 | null exactly for the empty string |
| Dates.KeepWithinMembers | src/main/index.js:242-246 | the filter keeps exactly the log rows whose run_dt date lies between the bounds, and never adds rows |
| Dates.KeepWithinMultiplicity | src/main/index.js:242-246 | the filter keeps repeats: a row within the bounds is kept as often as the log holds it, any other row never |
| Dates.KeepWithinAppend | src/main/index.js:242-246 | the filter keeps log order: two logs one after the other filter to the first's kept rows, then the second's |
| Dates.KeepWithinCons | src/main/index.js:242-246 | a row followed by more rows filters to that row if it is within the bounds, then the filtered rest |
| Dates.KeepWithinSingle | src/main/index.js:242-246 | a single row is kept exactly when its run_dt date lies between the bounds |
| Dates.FilterDates | src/main/index.js:238-247 | with both bounds empty the result is null; with both given it is the log filtered to the rows dated within them, in log order and with repeats, so it holds exactly those rows |
| Dates.StampDatePart | src/main/index.js:242-256 | the part of a stamp before the blank is its date part, and splitting that at the dashes gives the padded day, the padded 1-based month and the year |
| Dates.StampReadsBack | src/main/index.js:242-256 | a prize row's run_dt, read back the way filterDates reads it, gives the year, the 1-based month and the day it was stamped with |
| Dates.SameDayIsKept | src/main/index.js:238-257 | a filter whose bounds are both the day of a stamp keeps that stamp's row |
| Dates.NoBoundsGiveNull | src/main/index.js:241 | two empty bounds give null whatever the logs |
| Store.FreshCoupons | src/main/Controller.js:302-313 | the rows insertCoupons writes: each number in order, each with a null prize |
| Store.StampRows | src/main/Controller.js:190-195 | rank p on exactly the rows numbered n, every other row as it was |
| Store.RowsFor | src/main/Controller.js:355-374 | the prize rows of one event, and only those |
| Store.WithoutEvent | src/main/Controller.js:369-374 | the prize rows of every other event, and no row added |
| Store.Controller.constructor | src/main/Controller.js:9-16 | the tables hold what the database file holds |
| Store.Controller.InsertRequirements | src/main/Controller.js:94-118 | one more requirements row, appended |
| Store.Controller.InsertUser | src/main/Controller.js:121-137 | the ID is "IIPL-" and the row count plus one padded to four digits; the insert fails without change exactly when that ID is already taken; a table built only by insertUser never clashes and stays numbered 1..n |
| Store.Controller.UpdateRequirements | src/main/Controller.js:163-188 | every requirements row is overwritten with the given values, and no row is added |
| Store.Controller.UpdateCoupons | src/main/Controller.js:190-201 | the coupon table becomes StampRows of the old table |
| Store.Controller.InsertFinalNumbers | src/main/Controller.js:226-238 | exactly one row is appended, carrying the event, label, number, user and the formatted time |
| Store.Controller.GetRequirements | src/main/Controller.js:252-262 | the first requirements row, or none exactly when the table is empty |
| Store.Controller.GetCoupons | src/main/Controller.js:264-274 | the coupon numbers in table order |
| Store.Controller.CheckPrizeNumbersAlongCoupons | src/main/Controller.js:276-289 | true exactly when no coupon row carries a prize rank |
| Store.Controller.ClearCoupons | src/main/Controller.js:291-300 | the coupon table is empty |
| Store.Controller.InsertCoupons | src/main/Controller.js:302-318 | the coupon table is exactly the given numbers, in order, with null prizes; earlier rows are gone |
| Store.Controller.GetLastRecordedEventNames | src/main/Controller.js:355-368 | each event name in the prize table appears exactly once, and no other name appears |
| Store.Controller.ClearPrizesForEventName | src/main/Controller.js:369-374 | the prize table loses exactly the event's rows, and the others keep their order |
| Store.UserIdInjective | src/main/Controller.js:126-132 | different counts give different user IDs |
| Store.WithoutEventRowsFor | src/main/Controller.js:369-374 | after the delete the event has no rows, and every other event has exactly the rows it had |
| Store.RowsForAppend | src/main/Controller.js:226-233 | appending rows appends the event's share of them to the event's rows |
| Store.WithoutAbsentEvent | src/main/Controller.js:369-374 | deleting an event with no rows changes nothing |
| Store.StampAbsentNumber | src/main/Controller.js:190-195 | stamping a number no row holds changes nothing |
| Inventory.InvalidCoupons | src/main/index.js:382-393 | an entry is reported exactly when it is NaN, below min_range, above max_range, or longer than total_digits; never more entries than the inventory holds |
| Inventory.InvalidCouponsMultiplicity | src/main/index.js:382-393 | the filter keeps multiplicity: a problematic value is reported as often as the inventory holds it, any other value never |
| Inventory.InvalidCouponsAppend | src/main/index.js:382-393 | the filter keeps inventory order: filtering two inventories one after the other gives the first's entries, then the second's |
| Inventory.InvalidCouponsSingle | src/main/index.js:382-393 | a single entry is reported exactly when it is problematic |
| Inventory.NoInvalidCouponsIffAllValid | src/main/index.js:382-404 | the filter finds nothing exactly when every entry passes |
| Inventory.PaddedEntryValidity | src/main/index.js:382-393 | a padded numeral passes the filter exactly when its value is in range and its unpadded numeral fits in total_digits |
| Inventory.OutOfRangeIsFlagged | src/main/index.js:386-390 | 25 against a maximum of 20 is flagged |
| Inventory.LoadedNumbersAsWritten | src/main/index.js:649-654 | the loader as written: a number is loaded exactly when it is the unpadded value of some non-null cell; never more numbers than rows |
| Inventory.LoadedNumbers | src/main/index.js:637-655 | the intended loader: a number is loaded exactly when it is some non-null first-column cell padded to total_digits; never more numbers than rows |
| Inventory.LoadedNumbersAppend | src/main/index.js:649-654 | both loaders read the sheet in order: two parts of a sheet load as the first part's numbers, then the second's |
| Inventory.LoadedNumbersSingle | src/main/index.js:649-654 | a null cell loads nothing and any other cell exactly one number, padded by the intended loader and unpadded as written |
| Inventory.LoadedNumbersPadAsWritten | src/main/index.js:649-654 | the two loaders give equally many numbers, and each number of the intended one is the as-written number at the same position, padded |
| Inventory.AsWrittenAgreesIffNothingToPad | src/main/index.js:652 | the loader as written agrees with the intended one exactly when no non-null cell is shorter than total_digits |
| Inventory.LoadedNumbersAreWide | src/main/index.js:649-654 | every number the intended loader yields is at least total_digits long |
| Inventory.ExcelPaddingLost | src/main/index.js:652 | the cell 7 with four digits is kept as "7" by the code as written, where "0007" was intended |
| Draw.Select | src/main/index.js:123-166 | an empty inventory makes the draw throw exactly when a prize is requested; a finished draw has exactly the requested counts, no number twice, no consolation equal to a main, every number the padded form of an inventory entry, and at least as many distinct padded values in the inventory as prizes |
| Draw.DistinctWithin | src/main/index.js:135-161 | a duplicate-free list drawn from a set is no longer than the set |
| Draw.DrawFitsDistinctValues | src/main/index.js:135-161 | a finished draw needs as many distinct padded inventory values as it has prizes |
| Draw.DrawnNumbersAreWide | src/main/index.js:136-158 | every drawn number is at least total_digits long, and exactly that long when its raw entry is no longer |
| Draw.DrawnNumbersArePadded | src/main/index.js:136-158 | padding a drawn number again gives the same string |
| Draw.DuplicatesDefeatSufficiency | src/main/index.js:469-472 | the inventory ["5", "5"] passes the sufficiency check for two prizes, but it holds one distinct value |
| MainProcess.CouponNumbers | src/main/index.js:376-382 | the Coupon_Numbers column in table order |
| MainProcess.ApplyStamps | src/main/index.js:584-599 | running updateCoupons calls never adds, drops or renumbers a coupon row |
| MainProcess.Session.constructor | src/main/index.js:16-22 | the inventory and problematic lists start empty; the user is whoever logged in |
| MainProcess.Session.LoadCouponInventory | src/main/index.js:330-417 | without requirements it fails and nothing changes. With prize ranks present it fails unless confirmed; on confirmation the coupon table is cleared. Otherwise the coupon numbers become the inventory before the filter runs, the problematic list is the filter's result, and the load succeeds exactly when the inventory is non-empty and nothing is flagged |
| MainProcess.Session.IsNavigationAllowed | src/main/index.js:443-508 | an empty coupon table refuses. With no prize ranks present, the answer is whether the prizes fit the cached inventory's length (no requirements row throws). With ranks present, the answer is the operator's, and a yes clears the coupon table without any sufficiency check |
| MainProcess.Session.CouponCount | src/main/index.js:713-715 | 0 whenever problematic numbers are recorded, otherwise the inventory length |
| MainProcess.Session.GenerateFinalNumbers | src/main/index.js:123-133 | throws exactly when there is no requirements row; otherwise the outcome is Draw.Select's, with its guarantees |
| MainProcess.Session.UpdatePrizes | src/main/index.js:531-575 | without requirements nothing changes. With a logged-in user the table becomes CommitPrizes: the event's old rows are deleted if the event is recorded, then Main-Prize rows and Consolation-Prize rows are appended in order. Without a user only the delete happens, and the handler fails unless there is nothing to insert |
| MainProcess.Session.InsertDraw | src/main/index.js:544-563 | the prize table gains exactly the draw's rows, in order |
| MainProcess.Session.UpdateCoupons | src/main/index.js:576-610 | without requirements nothing changes (the handler fails unless there is nothing to stamp); otherwise every stamp is applied in order |
| MainProcess.Session.StampDraw | src/main/index.js:583-599 | the coupon table is the old one with every stamp applied in order |
| MainProcess.Session.LoadFromExcel | src/main/index.js:612-679 | a missing file or a sheet with at most the header changes nothing. With requirements, the coupon table becomes exactly the padded cells when there is at least one, and otherwise nothing changes. Without requirements, reading the width throws when a cell exists |
| MainProcess.SupersededIsWithoutEvent | src/main/index.js:539-543 | deleting only when the event is recorded is the same as always deleting its rows |
| MainProcess.PrizeRowsOfEvent | src/main/index.js:544-563 | every row a commit appends carries the current event name |
| MainProcess.CommitReplacesEventRows | src/main/index.js:539-564 | after a commit the event's rows are exactly this draw's rows in order (Main-Prize-1..n, then Consolation-Prize-1..m); every other event's rows are untouched |
| MainProcess.SecondCommitSupersedesFirst | src/main/index.js:539-564 | committing the same event twice leaves only the second draw's rows for it |
| MainProcess.PrizeLabelsDistinct | src/main/index.js:544-563 | row i of a commit is Main-Prize-(i+1) with main number i, and the row after the mains at offset j is Consolation-Prize-(j+1) with consolation number j; no label repeats |
| MainProcess.PrizeRowsShape | src/main/index.js:544-563 | one commit has a row per drawn number: row i is Main-Prize-(i+1) with main number i, and the row after the mains at offset j is Consolation-Prize-(j+1) with consolation number j |
| MainProcess.LabelsDistinct | src/main/index.js:544-563 | rows labelled Main-Prize-1..m and then Consolation-Prize-1.. never repeat a label |
| MainProcess.MainIsNotConsolation | src/main/index.js:544-563 | a Main-Prize label never equals a Consolation-Prize label |
| MainProcess.LabelNumbersDiffer | src/main/index.js:550-562 | different indexes give different labels |
| MainProcess.ApplyStampsStep | src/main/index.js:584-599 | one more updateCoupons call is one more StampRows |
| MainProcess.ApplyStampsAt | src/main/index.js:584-599 | with pairwise different numbers, a row ends with the rank of the one stamp naming it, or unchanged when none does |
| MainProcess.CouponStampsShape | src/main/index.js:584-599 | main number i is stamped with rank i+1, and every consolation number with main_prize_count+1 |
| MainProcess.MainStampAt | src/main/index.js:584-589 | the i-th updateCoupons call stamps main number i, padded, with rank i+1 |
| MainProcess.ConsolationStampAt | src/main/index.js:590-598 | the call after the mains at offset j stamps consolation number j, padded, with rank main_prize_count+1 |
| MainProcess.PaddedStamps | src/main/index.js:584-599 | for already padded numbers, the stamps name the drawn numbers themselves |
| MainProcess.StampKeys | src/main/index.js:584-599 | the stamped numbers, in order, are the mains followed by the consolations |
| MainProcess.StampKeysDiffer | src/main/index.js:584-599 | when the drawn numbers are distinct, no coupon number is stamped twice, and the stamped numbers in order are the mains followed by the consolations |
| MainProcess.RanksFromStamps | src/main/index.js:584-599 | for any stamp list laid out as update-coupons lays it out, a coupon holding main number i has rank i+1, one holding a consolation number has rank main_prize_count+1, and every other row is unchanged |
| MainProcess.DistinctDrawNumbers | src/main/index.js:135-161 | a distinct draw has no number twice across both lists |
| MainProcess.StampedRanks | src/main/index.js:584-599 | after update-coupons, a coupon holding main number i has rank i+1, one holding a consolation number has rank main_prize_count+1, and every other row is unchanged |
| MainProcess.MainRowsStep | src/main/index.js:544-552 | one more main insert appends one Main-Prize row |
| MainProcess.ConsolationRowsStep | src/main/index.js:553-563 | one more consolation insert appends one Consolation-Prize row |
| Game.FirstFit | src/renderer/src/components/GameWindow.jsx:27-37 | the entry of the first threshold the width does not exceed, with every earlier threshold exceeded; none exactly when the width exceeds them all |
| Game.NumberOfBoxes | src/renderer/src/components/GameWindow.jsx:20-42 | 6 up to 840, 8 up to 1024, and 10 beyond (1900 and the fallback for wider screens) |
| Game.JsRem | src/renderer/src/components/GameWindow.jsx:189 | JavaScript's %: the remainder has the dividend's sign, is smaller in size than the divisor, and differs from the dividend by a multiple of the divisor |
| Game.BoxDistribution | src/renderer/src/components/GameWindow.jsx:186-206 | the first line starts at 0 and has count consolation_prize_count % boxes when that is positive; every other line has count 10 and starts below the total; each line starts where the previous one ended; the lines reach the total |
| Game.LinesOrdered | src/renderer/src/components/GameWindow.jsx:191-204 | earlier lines end no later than later lines start |
| Game.LinesTile | src/renderer/src/components/GameWindow.jsx:191-204 | contiguous lines hold every slot below their end exactly once |
| Game.LayoutTilesSlots | src/renderer/src/components/GameWindow.jsx:186-206 | every slot index below the number of prizes falls in exactly one line |
| Game.DrawScreen.constructor | src/renderer/src/components/GameWindow.jsx:207-225 | empty slots, both flags false, no main revealed, the label main_prize_count+1, and the layout for the screen width |
| Game.DrawScreen.Press | src/renderer/src/components/GameWindow.jsx:134-175 | first press: the slots are reset and every consolation slot is filled (with no consolation prizes the phase never completes). Later presses fill main slot totalMain-k-1 with its main number; the label drops by 1. The press filling slot 0 commits prizes, then coupons, once, built from the requirements as they were. Presses after that change nothing. Only the prize and coupon tables can change; requirements and users never do. When complete, the slots are the mains followed by the consolations |
| Game.DrawScreen.RevealConsolations | src/renderer/src/components/GameWindow.jsx:140-156 | slot i for i from the top down to totalMain gets consolation number i-totalMain, the main slots stay empty, and the label becomes totalMain |
| Game.DrawScreen.RevealMain | src/renderer/src/components/GameWindow.jsx:157-173 | the highest empty main slot gets its number; the counter rises by 1 and the label drops by 1; the commit happens exactly on the last main slot and changes only the prize and coupon tables |
| Game.DrawScreen.Commit | src/renderer/src/components/GameWindow.jsx:168-169 | the prize table becomes what update-prizes leaves for this draw, and then the coupon table what update-coupons leaves; nothing else in the database changes |
| Game.RevealNextMain | src/renderer/src/components/GameWindow.jsx:157-173 | a main press reveals the highest blank main slot, keeps the slots above it shown and the ones below blank, and leaves the consolation slots alone |
| Settings.Errors | src/renderer/src/components/Settings.jsx:13-73 | a field reports an error exactly when its rule fails |
| Settings.ToRequirements | src/renderer/src/components/Settings.jsx:13-73 | a valid form is saved unchanged: the event name, both prize counts (each at least 1), total_digits, min_range and max_range are the form's values, with min_range below max_range |
| Settings.FormValidIffNoErrors | src/renderer/src/components/Settings.jsx:13-73 | the form is accepted exactly when no field reports an error: non-empty event name, counts at least 1, total_digits at least 3 and at least the length of both range numerals, min_range below max_range |
| Settings.RangeFieldsAgree | src/renderer/src/components/Settings.jsx:46-72 | the From and To fields are valid or invalid together |
| Settings.ValidFormBoundsNumerals | src/renderer/src/components/Settings.jsx:36-44 | every value between accepted bounds is written in at most total_digits characters |
| Settings.InRangeNumeralsAreNotProblematic | src/renderer/src/components/Settings.jsx:36-72 | the numeral of any value in an accepted range passes the inventory filter |
| Settings.ValidFormMayLackRoom | src/renderer/src/components/Settings.jsx:13-73 | the schema accepts ten prizes over a range of two values |
| Settings.DrawScreenGate | src/renderer/src/components/Settings.jsx:126-135 | navigation happens exactly when the last inventory load succeeded and the navigation check returned true; the integrity alert is raised exactly when the load did not succeed |

## Left out

- Electron windows, message boxes, `shell`, `fs` and exceljs workbook reading are not modelled. Dialog answers are booleans. A workbook is the first-column cell of each non-empty row, and its first element is taken to be sheet row 1, the header the loader skips by row number.
- MainProcess.Session.LoadFromExcel: a blank sheet row 1 is not modelled. The program then skips nothing, since it skips by row number, and loads the first non-empty row as a coupon; the model always skips the first non-empty row.
- MainProcess.Session.LoadFromExcel: with no requirements row, `getRequirements` still reports success with undefined data (src/main/Controller.js:257). The code as written then loads every non-null cell unpadded and succeeds. The model follows the intended code, which reads the width from that undefined data, throws, and leaves the coupon table unchanged. See "## Findings".
- The preload bridge, routing, login, registration and report screens are not modelled, and neither are bcrypt hashing and comparison. The logged-in user is a `Session` input.
- `getDrawRunLog` does not exist in `Controller`, so `get-draw-run-log` and `get-filtered-logs` always fail. `filterDates` is modelled on its own, over rows carrying a `run_dt`.
- The activity log methods are not modelled; they insert into a column the table lacks.
- Animation and timing are not modelled (`startRoll`, `randomNumber`, the roll interval, the completion dialog).
- Store.Controller: storage never fails in the model, except the users primary key. A failed statement in the program returns `{success: false}`, which most handlers ignore.
- Store.Controller.CheckPrizeNumbersAlongCoupons: the `<> ''` clause is not modelled. A prize cell is null or an integer, because only those are ever written.
- Coupon numbers are strings throughout. SQLite's integer affinity, which may turn a padded string back into a number on insert, is not modelled.
- Text.JsNumber: only plain numerals, with or without a minus sign, read as numbers. Whitespace, decimals, exponents and hexadecimal read as NaN.
- Text.JsNumber, Text.IntToString, Settings.JsText: numbers are unbounded integers. JavaScript numbers are doubles: `Number(s)` rounds numerals beyond 2^53, and `String(n)` switches to exponent notation from 1e21. The range comparisons of the inventory filter (src/main/index.js:386-390) and the schema's length tests on min_range and max_range (src/renderer/src/components/Settings.jsx:36-44) differ from the model for such values.
- Dates.FilterDates: the case with exactly one bound empty compares a Date with null through epoch milliseconds and is not modelled.
- Dates.ParseYYYYMMDD: `Date` normalisation is not modelled (month 13, day 0, two-digit years). A parsed date is kept as its three numbers, and non-numeric parts give an invalid date.
- Draw.Select: Math.random is replaced by the finite sequence of indices it produced. When the sequence runs out first the outcome is PicksExhausted, so the model does not show the endless loop a duplicate-heavy inventory causes.
- Game.DrawScreen.Press: presses while a commit is still awaited are not modelled. The program reads stale counters then and can commit twice.
- Game.DrawScreen.constructor: the screen is modelled only for a draw whose list lengths equal the stored counts. A failed draw or changed requirements leave the screen reading undefined entries.
- Form fields hold integers or blanks. Fractional or non-numeric entries are not modelled.
- Settings.DrawScreenGate: the integrity flag is the result of the last `load-coupon-inventory`, which `handleLoadInventory` stores. The coupon count it also fetches only feeds the display.

## Findings

| source | as written | input that shows it | evidently intended | confidence | as-written member | corrected member |
|---|---|---|---|---|---|---|
| src/main/index.js:652 | the width is read as `requirements.total_digits`, but `requirements` is the worker's `{success, data}` reply, so the width is undefined and padStart adds nothing. This holds also when no requirements row exists (`data` undefined, src/main/Controller.js:257): the sheet still loads, unpadded, and the handler succeeds | total_digits 4 and the cell 7 loads "7"; with no requirements row the cell 7 also loads "7" | the commented-out code reads `requirements.data.total_digits` and yields "0007", and fails without a requirements row | high; not executed | Inventory.LoadedNumbersAsWritten, Inventory.ExcelPaddingLost | Inventory.LoadedNumbers, MainProcess.Session.LoadFromExcel |
