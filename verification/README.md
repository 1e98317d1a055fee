# Window-film budget screen: a Dafny model

This project models the core logic of a React application that window-film installers
use to price jobs. A client's job is a list of *budget options* ("Opção 1", "Opção 2", ...).
Each option holds *measurements*: the width, height and quantity of a window, the film,
whether the row is billed, and a per-row discount. The model covers five areas:

- **Totals** (`Totals`). These are the area, subtotal, item discounts, price after item
  discounts, general discount and final total of the active option. Numbers are typed
  as decimal text with a comma or a point.
- **The numeric keypad** (`Numpad`). It is a state machine over the keypad state
  (`isOpen`, `measurementId`, `field`, `currentValue`, `shouldClearOnNextInput`). Each
  handler is one pure step from (keypad state, rows) to (keypad state, rows). It
  covers the commit coercion, the width → height → quantity walk and the
  auto-advance on a value like `1.25`.
- **List edits** (`MeasurementList`, `Budgets`). These are the by-id row updates, adding,
  duplicating and deleting rows, copying an option, deleting an option with its
  active-tab adjustment, and swipe navigation.
- **Form helpers** (`UserSettings`, `MobileFooter`, `ClientBar`). These are the phone
  mask, the validity-days field, working days, employees, the general-discount input
  validator and the one-line address.
- **JavaScript built-ins** (`JsText`). The code above relies on `parseInt`,
  `parseFloat`, `String(n)`, `replace` with a one-character pattern, `trim` and `join`.
  Each is written out as a specified function. `None` stands for `NaN`.

Identifiers, which the application takes from the clock, are passed in as parameters.
A fresh one is required not to occur in the list already.
Money and lengths are `real`. Quantities and identifiers are `int`.

## Model

| member | source | states |
|---|---|---|
| JsText.OrElse | App.tsx:537-539 | `x \|\| d` on a parsed number: NaN and 0 give the default, any other value is kept |
| JsText.ReplaceFirst | App.tsx:537-538 | `s.replace(c, d)` changes only the first occurrence of `c`, or nothing when `c` is absent |
| JsText.ReplaceFirstRoundTrip | App.tsx:926 | turning the first `a` into `b` and back restores text that had no `b`, which is why a comma value loaded as a point and committed back is unchanged |
| JsText.NatToString | App.tsx:342 | `String(n)`: a non-empty digit string with no leading zero whose decimal value is `n` |
| JsText.Trim | components/views/UserSettingsView.tsx:137 | `trim()` yields the inner slice with no whitespace at either end, and is empty exactly for all-whitespace text |
| JsText.ParseInt | components/views/UserSettingsView.tsx:60 | `parseInt(s, 10)` is a number exactly when the text after blanks and sign starts with a digit; a digit string reads as its value |
| JsText.ParseIntOfIntToString | App.tsx:539 | `parseInt(String(q), 10) == q` for every integer, so the totals read the stored quantity back exactly |
| JsText.ParseFloat | App.tsx:537-538 | `parseFloat` is a number exactly when digits are present; with no minus sign it is not negative |
| JsText.ParseDecimal | App.tsx:537-538 | `parseFloat(x.replace(',', '.')) \|\| 0`: the text with its first comma read as a point is parsed; no number or 0 gives 0, any other number is kept, and a non-zero result is always the parsed number |
| JsText.ParseFloatOfDigits | App.tsx:537-538 | `parseFloat` of a plain digit string is the value of those digits |
| JsText.ParseFloatOfDecimal | App.tsx:537-538 | `parseFloat("a.b")` is the integer part a plus the fraction b divided by ten to the number of its digits |
| JsText.ParseFloatUnsigned | App.tsx:537-538 | unsigned text with leading digits reads as those digits plus the fraction after the point |
| JsText.ParseDecimalOfDigits | App.tsx:537-538 | a width, height or discount holding only digits is read as their value |
| JsText.LeadingDigitsStop | App.tsx:537-538 | the integer part read by `parseFloat` ends exactly at the first non-digit |
| JsText.SingleDigit | App.tsx:537-538 | one digit before the point counts its value; after the point it counts a tenth of it |
| JsText.DecimalFraction | App.tsx:537-538 | the fraction digits read as a value in [0, 1) |
| JsText.Join | components/ClientBar.tsx:21 | `join(sep)`: none gives "", one part gives that part, otherwise the first part, the separator and the join of the rest; non-empty parts give non-empty text |
| JsText.JoinSnoc | components/ClientBar.tsx:21 | joining one more part appends the separator and that part, so the parts appear in order with one separator between neighbours |
| MeasurementList.IndexOfId | App.tsx:1051 | `findIndex` by id: the first row with the id, or the length (for -1) exactly when none has it |
| MeasurementList.FindById | App.tsx:1042 | `find` by id: found exactly when the id occurs, and then it is the first row carrying the id; with unique ids it is that row |
| MeasurementList.UpdateById | App.tsx:380-382 | the `map(m => m.id === id ? f(m) : m)` shape: same length, rows with another id unchanged, matching rows replaced by `f(m)` |
| MeasurementList.UpdateByIdKeepsIds | App.tsx:380-382 | an update that keeps each row's id keeps the id set and its uniqueness |
| MeasurementList.SelectFilm | App.tsx:1121-1127 | choosing a film changes only the film of the edited row; no edited row means no change |
| MeasurementList.SaveDiscount | App.tsx:1283-1289 | saving a discount changes only the edited row's discount and kind; no edited row means no change |
| MeasurementList.ApplyFilmToAll | App.tsx:1138-1144 | every row gets the pending film and nothing else changes; no pending film (absent or empty) means no change |
| MeasurementList.ApplyFilmToAllIdempotent | App.tsx:1138-1144 | applying the same film to all rows twice is the same as once |
| MeasurementList.RemoveById | App.tsx:1688 | deleting by id keeps exactly the rows with another id, and the id is gone afterwards |
| MeasurementList.RemoveByIdOfUnique | App.tsx:1688 | with unique ids, deletion removes exactly the row at the id's index and keeps the order of the rest |
| MeasurementList.NotPresentRemovesNothing | App.tsx:1688 | deleting an id that is not in the list changes nothing |
| MeasurementList.RemoveByIdAt | App.tsx:1688 | when only row k carries the id, deletion removes exactly row k and keeps the others in order |
| MeasurementList.RemoveByIdAppend | App.tsx:1688 | the filter works row by row: deleting from a concatenation deletes from each part |
| MeasurementList.RemoveByIdKeepsUnique | App.tsx:1688 | deletion keeps ids unique |
| MeasurementList.InsertAfter | App.tsx:1699-1701 | `splice(index + 1, 0, copy)`: the prefix up to the index, then the copy, then the rest |
| MeasurementList.InsertAfterKeepsUnique | App.tsx:1699-1701 | inserting a row with a fresh id adds exactly that id and keeps ids unique |
| MeasurementList.DuplicateInEditor | App.tsx:1691-1703 | the editor's duplicate puts a copy with the fresh id and no "new" mark right after the row; a missing row means no change |
| MeasurementList.ClearNewFlags | App.tsx:331-332 | every row loses its "new" mark and nothing else changes |
| MeasurementList.EmptyMeasurement | App.tsx:315-326 | a new row is empty, one unit, billed, has no discount, and carries the first film's name or "Nenhuma" |
| MeasurementList.AddMeasurement | App.tsx:328-335 | adding puts the new empty row first and keeps every other row, without its "new" mark, after it |
| MeasurementList.AddMeasurementInvariants | App.tsx:328-335 | after adding, only the first row is marked new, the ids grow by the fresh id, and uniqueness is kept |
| Totals.Max0 | App.tsx:552 | `Math.max(0, x)` is not negative and is `x` when `x` is not negative |
| Totals.FilmIndex | App.tsx:541 | the index of the first film with the name, or the catalogue's length when none has it |
| Totals.FindFilm | App.tsx:541 | `films.find` by name: the first catalogue film with that name, absent exactly when no film has it |
| Totals.PriceFromArea | App.tsx:541-552 | the base price is the area times the film's price per square metre (zero with no film); the discount is that percentage of the base or the flat amount, only when positive; the final price is `max(0, base - discount)` |
| Totals.PriceItem | App.tsx:536-552 | an item's area comes from the parsed width, height and quantity, and its price is the area priced with the row's film (first match by name) and its own discount; the final price is never negative; an unknown film prices at zero |
| Totals.PriceItemPricing | App.tsx:541-550 | a row's base price is its area times its film's price per square metre; a positive percentage discount is that percentage of the base; a positive flat discount is the amount itself |
| Totals.PriceItemBase | App.tsx:541-542 | a row's base price is its area times its film's price per square metre |
| Totals.PriceItemPercentage | App.tsx:544-546 | a positive percentage discount is that percentage of the row's base price |
| Totals.AddItem | App.tsx:535-559 | an active row adds its area, base price, discount and final price to the four sums; an inactive row leaves them as they are |
| Totals.AddItemIsPlus | App.tsx:535-559 | one step of the fold adds the row's contribution (zero for an inactive row) to the running sums |
| Totals.Reduce | App.tsx:535-560 | the left fold keeps the price after item discounts non-negative |
| Totals.ReduceIsSum | App.tsx:535-560 | the fold from any start adds the rows' contributions, summed independently of the fold, to that start |
| Totals.ReduceSnoc | App.tsx:535-560 | folding a list with one more row at the end is one more step on the fold of the list |
| Totals.TotalsAreRowSums | App.tsx:532-560 | an option's area, subtotal, item discounts and price after item discounts are the sums of its rows' contributions |
| Totals.ActiveRows | App.tsx:536 | the billed rows are exactly the active ones |
| Totals.ReduceActiveRowsOnly | App.tsx:535-560 | folding all rows gives the same sums as folding only the active rows |
| Totals.ReduceIgnoresInactiveContents | App.tsx:535-560 | two lists with the same active rows, in order, give the same sums whatever their inactive rows hold |
| Totals.GeneralDiscountAmount | App.tsx:562-569 | no general discount unless the parsed value is positive; then that percentage of the price after item discounts, or the flat amount; never negative on a non-negative price |
| Totals.Finish | App.tsx:562-578 | the four sums pass through; the general discount is computed from the parsed value, kind and price after item discounts; the final total is `max(0, price - general)` |
| Totals.ComputeTotals | App.tsx:532-579 | no active option gives zeros; otherwise the four sums are the fold over the option's rows, the general discount is computed from its parsed discount text and kind, and the final total is `max(0, price - general)`, between 0 and the price after item discounts |
| Totals.GeneralDiscountRule | App.tsx:562-572 | `final = max(0, price - general)`; a non-positive value gives no general discount; otherwise a percentage of the price or the flat amount, and a flat amount at least the price makes the total 0 |
| Totals.TotalsOnlySeeActiveRows | App.tsx:532-579 | the totals of an option equal those of the same option with only its active rows |
| Totals.ParseDecimalWithComma | App.tsx:537 | "1,5" is read as 1.5 |
| Totals.ParseOneAndAHalf | App.tsx:537 | `parseFloat("1.5")` is 1.5 |
| Totals.WorkedExampleItem | App.tsx:536-552 | a 2 × 1,5 row of two windows with a 100/m² film and 10 % off prices as 6 m², 600, 60 off, 540 |
| Totals.WorkedExampleBudget | App.tsx:532-579 | that row with a flat general discount of 50 totals 490 |
| Numpad.NextField | App.tsx:948-953 | the field after width is height, then quantity, one step along the walk each time; after quantity there is none |
| Numpad.QuantityOnCommit | App.tsx:374-375 | `parseInt(buf) \|\| 1`: a committed quantity is never zero and is 1 when the buffer is not a number |
| Numpad.DimensionOnCommit | App.tsx:376-377 | an empty buffer or a lone point commits as "0"; any other buffer commits with its first point turned into a comma at the same position, and a buffer with no point is kept |
| Numpad.DimensionOnSwitch | App.tsx:899-900 | a lone comma commits as "0" on a switch; otherwise the switch coercion is the commit coercion |
| Numpad.Commit | App.tsx:380-382 | a commit writes the coerced buffer (dimension or quantity coercion) into the target field only, and a committed quantity is never zero |
| Numpad.CommitOnSwitch | App.tsx:894-903 | the commit made on a move to another target writes the switch coercion of the buffer (a lone comma gives "0") into the target field only; apart from a lone comma on a width or height it is the ordinary commit |
| Numpad.CommitToList | App.tsx:380-382 | committing changes only the rows with the target id, and only their target field; ids and their uniqueness are kept |
| Numpad.QuantityReopen | App.tsx:922-927 | a committed quantity, shown as `String(q)` and committed again, stays q |
| Numpad.CommitReopenCommit | App.tsx:922-927 | committing, reopening the field and committing again leaves the row as the first commit made it |
| Numpad.CommittedDimensionKeepsValue | App.tsx:376-377 | the stored text of a committed width or height is read by the totals as `parseFloat(buf) \|\| 0` |
| Numpad.CommitAndAdvance | App.tsx:943-966 | after committing, the keypad opens on the next field of the same row, in replace mode, holding with a point the value that field held before the commit (empty when the row is gone); after quantity it closes |
| Numpad.ReopenReadsStoredValue | App.tsx:955-959 | the committed list finds the target row as the committed first row with the id, and a commit leaves the next field's text as it was |
| Numpad.Close | App.tsx:366-386 | closing commits the buffer when there is a target and always ends fully closed |
| Numpad.Done | App.tsx:932-966 | done keeps the keypad well formed, does nothing without a target, and otherwise is the commit-and-advance of the buffer: width → height → quantity → closed |
| Numpad.Input | App.tsx:969-1016 | input keeps the keypad well formed; a width or height reading like "1.25" after the key is committed and advanced; any other key only updates the buffer and leaves replace mode |
| Numpad.Keyed | App.tsx:971-982 | the buffer after a key: a separator on the quantity leaves it alone; on width or height it gives "0." in replace mode, and otherwise adds a point only when none is there; any other key is the whole buffer in replace mode and is appended otherwise |
| Numpad.InputRules | App.tsx:971-982 | comma and point are the same key; on the quantity a separator is ignored; a separator never adds a second point; in replace mode a digit is the whole buffer and a separator gives "0."; replace mode stays on only after an advance |
| Numpad.SeparatorKeepsOnePoint | App.tsx:971-982 | a separator key leaves the buffer with at most one point exactly when it had at most one |
| Numpad.DigitAddsNoPoint | App.tsx:971-982 | a digit key never adds a point to the buffer |
| Numpad.InputReplaceFlag | App.tsx:984-1016 | replace mode is on after an input only when the keypad advanced to another field |
| Numpad.TwoDecimalsCommit | App.tsx:984-988 | on a buffer passing `TwoDecimals` (`^\d\.\d{2}$`), the general commit coercion equals `replace('.', ',')` |
| Numpad.TwoDecimalsExamples | App.tsx:985 | `TwoDecimals`, the test `^\d\.\d{2}$`, accepts "1.25" and refuses a comma, one or three decimals, and two digits before the point |
| Numpad.AutoAdvance | App.tsx:984-1008 | a two-decimal width or height is written with a comma to the target row only, changing no other field of it; the keypad reopens in replace mode on the next field, holding that field's stored value with a point; it never closes |
| Numpad.QuantityInputKeepsRows | App.tsx:984-985 | input on the quantity never touches the rows |
| Numpad.Delete | App.tsx:1019-1024 | delete drops the last buffer character (none on an empty buffer), leaves replace mode, and changes nothing else |
| Numpad.Clear | App.tsx:1063-1077 | clear empties width and height and sets one unit on the target rows only, restarts the buffer ("1" on the quantity) in replace mode, and stays open; no target means no change |
| Numpad.KeepNewOnly | App.tsx:1055-1057 | every row but the one with the kept id loses its "new" mark |
| Numpad.InsertCopy | App.tsx:1045-1057 | the copy with the fresh id sits right after its source; only it is marked new; ids grow by the fresh id and stay unique |
| Numpad.Duplicate | App.tsx:1027-1061 | duplicate commits and inserts the copy after the row and closes; no target or a missing row means no change |
| Numpad.AddGroup | App.tsx:1079-1104 | add-group commits the buffer into the target rows, puts a new empty row first (the only one marked new) followed by the committed rows in order without their mark, and closes |
| Numpad.Open | App.tsx:891-930 | tapping a field opens on it; the same target only leaves replace mode; a new target loads its value with a point in replace mode; a pending edit on another target is committed with the switch coercion |
| Numpad.DoneWalksTheFields | App.tsx:932-966 | three presses of done from the width end fully closed |
| Numpad.CloseThenReopen | App.tsx:366-386 | after closing, reopening the same field loads a buffer that commits back to the same row |
| Budgets.DefaultBudget | App.tsx:213-218 | a default option has no rows and is titled "Opção 1"; its totals are zero |
| Budgets.DefaultBudgetHasNoTotals | App.tsx:213-218 | a default option totals to zero whatever the film catalogue |
| Budgets.ActiveBudget | App.tsx:143 | the active option exists exactly when the index is in range |
| Budgets.OptionName | App.tsx:342 | a tab title is "Opção " followed by the number |
| Budgets.OptionNamesDistinct | App.tsx:342 | different numbers give different tab titles |
| Budgets.CopyRows | App.tsx:343-347 | copied rows are the source rows with new ids and no "new" mark |
| Budgets.CreateNewBudgetOption | App.tsx:337-355 | the copy is appended under the next title, takes the source's discount and rows, becomes the active tab, and the earlier options are unchanged |
| Budgets.CopyKeepsTotals | App.tsx:337-355 | the new option is priced exactly like the option it copies |
| Budgets.RequestDelete | App.tsx:1324-1329 | deleting the only option is refused; otherwise the option waits for confirmation |
| Budgets.WithoutIndex | App.tsx:1334 | `filter` by index drops exactly that position and shifts the rest down |
| Budgets.ConfirmDelete | App.tsx:1332-1341 | confirming removes the pending option and keeps the active index in range |
| Budgets.ConfirmDeleteKeepsView | App.tsx:1335-1337 | deleting another option keeps the same option in view; deleting the shown one shows the one before it, or the new first |
| Budgets.Swipe | App.tsx:1310-1322 | a swipe of more than 50 px moves one tab within bounds; a shorter one does nothing |
| Budgets.SwipeBackAndForth | App.tsx:1317-1321 | a swipe one way undoes a swipe the other way whenever the first moved |
| Budgets.SetActiveRows | App.tsx:286-298 | writing rows changes only the active option's rows |
| Budgets.SetGeneralDiscount | App.tsx:300-312 | writing the general discount changes only the active option's discount |
| Budgets.SetActiveRowsReadBack | App.tsx:286-298 | rows written to the active option read back unchanged, and writing the old rows back restores the list |
| UserSettings.DigitsOf | components/views/UserSettingsView.tsx:16 | `replace(/\D/g, "")` keeps only digits and keeps digit text as it is |
| UserSettings.PhoneMask | components/views/UserSettingsView.tsx:13-35 | the mask's digits are the first min(11, n) digits of the input; it is at most 15 long; no digits give ""; its shape follows the digit count |
| UserSettings.FormatDigits | components/views/UserSettingsView.tsx:22-34 | the layout by digit count: eleven digits as "(xx) xxxxx-xxxx", seven to ten as "(xx) xxxx-x…", three to six as "(xx) x…", one or two as "(x…", none as "" |
| UserSettings.FormatDigitsDigits | components/views/UserSettingsView.tsx:22-33 | every layout keeps exactly the digits it was given |
| UserSettings.PhoneMaskIdempotent | components/views/UserSettingsView.tsx:13-35 | masking a masked number changes nothing |
| UserSettings.ValidityDays | components/views/UserSettingsView.tsx:59-61 | the field is absent when the input is not a number or is below 1, and otherwise is that number |
| UserSettings.ValidityDaysRoundTrip | components/views/UserSettingsView.tsx:59-61 | a validity of at least one day, shown as text, reads back as itself |
| UserSettings.SortDays | components/views/UserSettingsView.tsx:112 | the sort yields an ascending rearrangement of the days |
| UserSettings.RemoveDay | components/views/UserSettingsView.tsx:111 | filtering removes every occurrence of the day and keeps the count of every other day |
| UserSettings.WorkingDayChange | components/views/UserSettingsView.tsx:106-121 | the days come out sorted; ticking adds the day once, unticking removes it entirely; the times are kept, or default to 08:00-18:00 |
| UserSettings.WorkingDaysAsSet | components/views/UserSettingsView.tsx:106-121 | as a set, ticking a day adds it and unticking removes it |
| UserSettings.AddEmployee | components/views/UserSettingsView.tsx:136-147 | a name that trims to nothing changes nothing; otherwise the trimmed name is appended last with the fresh id and the box is emptied |
| UserSettings.RemoveEmployee | components/views/UserSettingsView.tsx:149-154 | removal keeps exactly the employees with another id |
| UserSettings.WithoutAppend | components/views/UserSettingsView.tsx:152 | removal works piece by piece, so the kept employees stay in order |
| UserSettings.AddThenRemove | components/views/UserSettingsView.tsx:136-153 | removing the employee just added restores the list |
| MobileFooter.ValidDiscountFormatMeaning | components/MobileFooter.tsx:45 | `ValidDiscountFormat`, the pattern `^[0-9]*[.,]?[0-9]*$`, accepts exactly text of digits, points and commas with at most one point or comma |
| MobileFooter.DiscountValueChange | components/MobileFooter.tsx:43-49 | a change is emitted exactly for accepted text, and it keeps the kind |
| MobileFooter.DiscountTypeChange | components/MobileFooter.tsx:51-53 | a kind change keeps the value |
| MobileFooter.DiscountValueExamples | components/MobileFooter.tsx:45-48 | "" (clearing), "12,5" and "," are accepted; "1.2.3" and "-5" emit nothing |
| MobileFooter.AcceptedFirstChar | components/MobileFooter.tsx:45 | accepted non-empty text starts with a digit, a point or a comma |
| MobileFooter.SplitAt | components/MobileFooter.tsx:45 | after the leading digits, the separators counted are the one at the break (if any) plus those after it |
| MobileFooter.AcceptedDiscountNotNegative | components/MobileFooter.tsx:45 | an accepted value is read by the totals as a number that is not negative |
| MobileFooter.ControlsCommute | components/MobileFooter.tsx:43-53 | the value box and the kind switch can be used in either order |
| ClientBar.KeepFilled | components/ClientBar.tsx:21 | `filter(Boolean)` yields only non-empty text, and yields nothing exactly when every part is absent or empty |
| ClientBar.KeepFilledMembers | components/ClientBar.tsx:21 | `filter(Boolean)` keeps exactly the present, non-empty parts |
| ClientBar.KeepFilledCons | components/ClientBar.tsx:21 | a filled first part is kept in front, an absent or empty one is dropped |
| ClientBar.KeepFilledAppend | components/ClientBar.tsx:14-21 | filtering works piece by piece, so the parts keep the order street, number, district, city, state |
| ClientBar.FormatAddress | components/ClientBar.tsx:13-22 | the address is the filled parts, in the order street, number, district, city, state, joined by ", "; it is "" exactly when no part is filled, and a single filled part is shown alone |
| ClientBar.FormatAddressExamples | components/ClientBar.tsx:13-22 | a lone city reads as the city; street and city read as "street, city" |
| ClientBar.ShowsMapLink | components/ClientBar.tsx:71-96 | the map link shows exactly when a client is selected and has a filled address part |

## Left out

- Persistence, the auto-save timer and the loading effects are left out. They are browser-storage I/O.
- The AI import, PDF generation and the history views are left out. They depend on network services and third-party libraries.
- Touch plumbing, scrolling and fullscreen are left out. They are DOM effects. `Budgets.Swipe` takes the measured horizontal distance as a parameter.
- Currency formatting with `Intl.NumberFormat` and all rendering are left out.
- Numbers are exact reals, not IEEE doubles: there is no rounding, no `Infinity`, and no `NaN` beyond the `|| 0` defaults (the parsers return `None` for `NaN`).
- JsText.ParseFloat: exponents ("1e3") and "Infinity" are not read.
- Identifiers: the application draws these from `Date.now()`, and a copied option's rows get `Date.now() + Math.random()`, which is fractional. Here they are integers supplied by the caller. `Budgets.CopyRows` takes any id-assigning function and does not assume the ids are distinct.
- Numpad.Input: a key is one character. The keypad sends only digits and the comma, but any character is accepted and appended as the source does.
- Numpad.Open: the source writes a field named `null` when the keypad is open with a row but no field. This cannot happen from well-formed states, so the model writes nothing in that case.
- Numpad.Open: the caller passes the field's current text, which is the source's `String(value)`.
- Types.Measurement: a row's discount kind is one of two values. The source treats a missing kind as "no discount", and this is not modelled.
- Working hours: the start/end time inputs (`handleWorkingTimeChange`) are not part of the named handlers and are left out.
- The `isDirty` flag that every edit sets is left out. It only triggers saving.
- React batching and stale closures are not modelled: each handler is one sequential step over the state it reads.
