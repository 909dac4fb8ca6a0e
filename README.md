# Time converter: zone registry, time tables and share link

A Dafny model of the logic in `src/Components/TimezoneConverter.jsx`, a React widget for comparing the wall-clock time in several time zones at once. The model has three parts.

- **Zone registry** (`TimezoneConverter.ZoneRegistry`). This class holds the component's state:
  - `timezones`: a map from zone key to the canonical zone name.
  - `selectedTimes`: the zone key to `HH:mm` object, modelled as an ordered list of (key, time) entries. No zone key is integer-like, so JavaScript keeps these entries in insertion order (module `OrderedObject`).
  - The selected day and the reverse-order flag.

  The handlers are methods of the class:
  - adding a zone under its sanitised key (`ZoneKeys`);
  - removing a zone;
  - retiming every zone when one zone is set, with the zone conversion as a parameter (`Converter`);
  - toggling the reverse flag;
  - the drag-and-drop reorder. Its display order and `arrayMove` live in module `Ordering`.

  The class invariant is that both maps hold the same keys and each key appears only once.
- **Time tables** (`TimeTables`, built on the clock text of `Clock`):
  - the 96 quarter-hour choices of the time dropdown;
  - the 25 hourly marks of the time slider;
  - the filter that keeps every third mark (nine marks, 0 to 1440), pairs the first eight with the eight slider labels and leaves the ninth, 1440, with `undefined`.
- **Share link** (`ShareLink`): the link text built from the "Include Time" and "Include Date" boxes and the two typed literals.

The zone registry's handlers are methods on a class. The two generators are methods with loops, proved against the functions `OptionAt` and `i * 60`. The `forEach` of `handleTimeChange` is the loop of the method `Retime`. The rest is functions and lemmas.

Three behaviours of the code that the model keeps:
- Re-adding a zone that is already present overwrites its time in place. It is not a no-op.
- No handler validates its input. A minute value outside 0..1439 wraps around the day, so the slider maximum 1440 shows as "00:00".
- The drag reorder receives only keys of displayed zones, because the sortable list is built from them. A drop outside every zone (`over` is null) makes the code throw before any state changes, so the model keeps the state unchanged.

## Model

| member | source | states |
|---|---|---|
| Clock.FormatHHmm | src/Components/TimezoneConverter.jsx:95 | five characters with a colon in the middle; `FormatHHmmRoundTrip` and `FormatHHmmInjective` state that it reads back as the time of day and tells times of day apart |
| Clock.ParseClock | src/Components/TimezoneConverter.jsx:169 | a reading, when there is one, is a number of minutes that is not negative; `ParseClockOf`, `FormatHHmmRoundTrip` and `OptionMinutes` state what it reads from each text the component produces |
| Clock.TwelveHourClock | src/Components/TimezoneConverter.jsx:60 | the text ends in the half-day marker, `AM` before noon and `PM` from noon on; `OptionLabelsAtEnds` spot-checks whole labels |
| TimeTables.OptionValue | src/Components/TimezoneConverter.jsx:61 | the minute part is the last two characters, after a colon; `OptionValueShape` and `OptionMinutes` state its digits and its reading as i * 15 minutes |
| TimeTables.OptionAt | src/Components/TimezoneConverter.jsx:58-61 | the choice of round i; `GenerateTimeOptions` proves that the loop pushes exactly these, and `OptionMinutes` proves that their values read as i * 15 |
| TimeTables.SliderLabels | src/Components/TimezoneConverter.jsx:244-248 | one entry per kept mark, each a multiple of 180 among the marks, carrying a label exactly when its position is below the eight labels; `SliderLabelRow` gives the whole row for the slider's marks |
| OrderedObject.Put | src/Components/TimezoneConverter.jsx:111-112 | never shorter than the object and at most one entry longer; `PutShape`, `PutSpec` and `PutTwice` state the in-place or appending update |
| OrderedObject.Delete | src/Components/TimezoneConverter.jsx:118-120 | never longer than the object, and the object itself when the key is absent; `DeleteSplices`, `DeleteSpec` and `DeleteUndoesPut` state the exact effect |
| Ordering.Reversed | src/Components/TimezoneConverter.jsx:148 | the same length, with the k-th element the k-th from the end; `ReversedTwice` and `ReversedPermutes` are its partners |
| Ordering.Displayed | src/Components/TimezoneConverter.jsx:145-149 | the same number of entries as stored; these are the stored entries, reversed when the flag is set, and `ToggleReverses` states that toggling reverses what is shown |
| TimezoneConverter.ZoneRegistry.TimezoneEntries | src/Components/TimezoneConverter.jsx:145-149 | one card per stored entry: in the stored order when the flag is clear, back to front when it is set; `ReverseTimezones` states that a toggle reverses it |
| TimezoneConverter.InitialTimes | src/Components/TimezoneConverter.jsx:18-21 | the keys `Asia/Kolkata` and `UTC` in that order, each looking up its own current time; `InitialKeysAgree` ties it to `InitialTimezones` |
| TimezoneConverter.InitialTimezones | src/Components/TimezoneConverter.jsx:24-27 | exactly the keys `Asia/Kolkata` and `UTC`, each mapping to itself; `InitialKeysAgree` and `SeededKolkataAddedTwice` state its consequences |
| ZoneKeys.DisplayName | src/Components/TimezoneConverter.jsx:196 | the shown name has the key's length and no `-`; `DisplayNameRecoversLabel` states when it recovers the added label |
| Clock.FormatHHmmRoundTrip | src/Components/TimezoneConverter.jsx:94-95 | the `HH:mm` text of m minutes, read back as a duration, is m mod 1440 |
| Clock.FormatHHmmInjective | src/Components/TimezoneConverter.jsx:95 | two `HH:mm` texts are equal exactly when their times of day are equal |
| Clock.WholeDayIsMidnight | src/Components/TimezoneConverter.jsx:94-95 | the slider maximum, 1440 minutes, shows as "00:00" and reads back as 0 |
| Clock.FormatHHmmOfDay | src/Components/TimezoneConverter.jsx:94-95 | minutes a whole number of days apart format to the same `HH:mm` |
| Clock.ParseClockOf | src/Components/TimezoneConverter.jsx:169 | reading digit groups around a colon as a duration gives hours * 60 + minutes |
| Clock.Pad2Digits | src/Components/TimezoneConverter.jsx:95 | the zero-padded form of n < 100 is exactly two digits denoting n |
| Clock.DecimalDigits | src/Components/TimezoneConverter.jsx:61 | the unpadded form of n < 100 has one digit below ten and two from ten on, and denotes n |
| TimeTables.OptionValueShape | src/Components/TimezoneConverter.jsx:58-61 | value i is the unpadded hour i div 4 (0..23), a colon and (i mod 4) * 15 in two digits |
| TimeTables.OptionMinutes | src/Components/TimezoneConverter.jsx:57-61 | value i, read as a duration, is i * 15 minutes |
| TimeTables.OptionLabelsAtEnds | src/Components/TimezoneConverter.jsx:60 | a spot check of the 12-hour labels: choices 0, 48 and 95 are labelled "12:00 AM", "12:00 PM" and "11:45 PM" |
| TimeTables.GenerateTimeOptions | src/Components/TimezoneConverter.jsx:55-64 | exactly 96 choices; choice i is `OptionAt(i)` and reads as i * 15 minutes; the values are pairwise distinct |
| TimeTables.GenerateSliderMarks | src/Components/TimezoneConverter.jsx:30-41 | exactly 25 marks, mark i is i * 60, from 0 to 1440, strictly increasing |
| TimeTables.KeepMultiples | src/Components/TimezoneConverter.jsx:245 | a value is kept exactly when it is one of the marks and a multiple of the divisor |
| TimeTables.KeepMultiplesConcat | src/Components/TimezoneConverter.jsx:245 | the filter keeps order: filtering a concatenation concatenates the filtered parts |
| TimeTables.HourlyMultiplesOf180 | src/Components/TimezoneConverter.jsx:244-245 | of n hourly marks, the multiples of 180 are the first ceil(n / 3) three-hourly marks, in order |
| TimeTables.SliderLabelRow | src/Components/TimezoneConverter.jsx:244-248 | nine marks pass the filter; the first eight carry the eight labels and the ninth (1440) carries `undefined` |
| TimeTables.LabelsNameTheirMarks | src/Components/TimezoneConverter.jsx:188 | the k-th hand-written label names the hour of mark k * 180 |
| OrderedObject.IndexOf | src/Components/TimezoneConverter.jsx:137 | the first index holding the key, or -1 exactly when the key is absent |
| OrderedObject.Lookup | src/Components/TimezoneConverter.jsx:145 | the model's reading of `o[k]` on the entries that `Object.entries` lists: `undefined` exactly when the key is absent, otherwise a value paired with the key among the entries |
| OrderedObject.PutShape | src/Components/TimezoneConverter.jsx:112 | writing a present key replaces its entry in place; writing a new key appends it |
| OrderedObject.PutSpec | src/Components/TimezoneConverter.jsx:95 | after a write the keys are still unique, the key holds the new value, other keys keep theirs, and the key list grows only by a new key at the end |
| OrderedObject.PutKeys | src/Components/TimezoneConverter.jsx:112 | a write keeps keys unique and changes the key list only by appending a new key |
| OrderedObject.PutSelf | src/Components/TimezoneConverter.jsx:112 | after a write the key reads back as the written value |
| OrderedObject.PutOther | src/Components/TimezoneConverter.jsx:100 | a write leaves every other key's value unchanged |
| OrderedObject.PutTwice | src/Components/TimezoneConverter.jsx:112 | writing a key twice equals writing it once with the second value, so no duplicate entry appears |
| OrderedObject.DeleteSplices | src/Components/TimezoneConverter.jsx:119-120 | deleting a present key removes exactly its one entry and keeps the order of the rest |
| OrderedObject.DeleteSpec | src/Components/TimezoneConverter.jsx:119-120 | after a delete the keys are unique, the key is gone, and every other key keeps its value |
| OrderedObject.DeleteUndoesPut | src/Components/TimezoneConverter.jsx:108-123 | removing a zone that was just added restores the entries as they were |
| OrderedObject.LookupIffEntry | src/Components/TimezoneConverter.jsx:141 | in an object, `o[k] === v` exactly when (k, v) is one of its entries |
| Ordering.ReversedTwice | src/Components/TimezoneConverter.jsx:147-148 | reversing twice restores the original order |
| Ordering.ReversedPermutes | src/Components/TimezoneConverter.jsx:148 | reversal only reorders the entries |
| Ordering.ReversedEntries | src/Components/TimezoneConverter.jsx:145-149 | reversed entries have the reversed key list, the same keys, and unique keys when the original has |
| Ordering.Move | src/Components/TimezoneConverter.jsx:140 | `arrayMove` keeps the length, puts the moved element at the target index and takes each other element from its shifted place |
| Ordering.MovePermutes | src/Components/TimezoneConverter.jsx:140 | a move only reorders |
| Ordering.MoveInPlace | src/Components/TimezoneConverter.jsx:136 | moving an element onto its own place changes nothing |
| Ordering.MoveBack | src/Components/TimezoneConverter.jsx:140 | moving the element back undoes the move |
| Ordering.MoveKeepsKeysUnique | src/Components/TimezoneConverter.jsx:140-141 | a move keeps keys unique |
| Ordering.PermutedObject | src/Components/TimezoneConverter.jsx:141 | rebuilding the object from reordered entries keeps every key and its value |
| Ordering.ToggleReverses | src/Components/TimezoneConverter.jsx:130-132 | toggling the flag reverses the displayed list; toggling twice gives it back |
| Ordering.Drop | src/Components/TimezoneConverter.jsx:135-143 | a drop on the dragged zone itself, or outside every zone, leaves the entries unchanged; the number of entries is kept |
| Ordering.DropMovesActive | src/Components/TimezoneConverter.jsx:136-141 | a real drop stores the displayed list with the dragged zone moved to the target's displayed index |
| Ordering.DropKeepsObject | src/Components/TimezoneConverter.jsx:140-141 | a drop is a permutation: the same entries, unique keys, every key with the same time |
| Ordering.DropUnderReverse | src/Components/TimezoneConverter.jsx:141-149 | with the reverse flag set, the dragged zone is shown at the mirror image of the target's index |
| Ordering.StoredThenShown | src/Components/TimezoneConverter.jsx:148 | shown reversed, the entry stored at j stands at n - 1 - j |
| ZoneKeys.Sanitise | src/Components/TimezoneConverter.jsx:110 | the key has the label's length and contains no `/` |
| ZoneKeys.DisplayNameRecoversLabel | src/Components/TimezoneConverter.jsx:196 | a card shows the label it was added with exactly when the label contains no `-` |
| ZoneKeys.SanitiseCollides | src/Components/TimezoneConverter.jsx:110 | two labels that differ only in `/` against `-` get the same key |
| ShareLink.ShareLink | src/Components/TimezoneConverter.jsx:372 | the link starts with the fixed prefix and its length is the prefix, the included literals and `&date=` |
| ShareLink.ShareLinkReadsBack | src/Components/TimezoneConverter.jsx:372 | each field is the typed literal when its box is ticked and empty otherwise, whenever the time literal has no `&` |
| ShareLink.ExcludedFieldIgnored | src/Components/TimezoneConverter.jsx:372 | an unticked field's literal does not affect the link |
| ShareLink.DateOnlyLink | src/Components/TimezoneConverter.jsx:372 | with only the date ticked the link is `https://time-converter/?time=&date=2024-05-01` |
| ShareLink.UnescapedTimeMisreads | src/Components/TimezoneConverter.jsx:372 | nothing is escaped: a time literal holding `&date=` makes the link read as a different time and date |
| TimezoneConverter.StartOfDayPlus | src/Components/TimezoneConverter.jsx:94 | the local date-time is within a day, and as total minutes it is the day's midnight plus the value |
| TimezoneConverter.InitialKeysAgree | src/Components/TimezoneConverter.jsx:18-27 | the two seeded maps hold the same keys |
| TimezoneConverter.AddKeepsKeysAgree | src/Components/TimezoneConverter.jsx:108-113 | adding a zone to both maps keeps their key sets equal |
| TimezoneConverter.RemoveKeepsKeysAgree | src/Components/TimezoneConverter.jsx:116-123 | removing a zone from both maps keeps their key sets equal |
| TimezoneConverter.KolkataSanitised | src/Components/TimezoneConverter.jsx:110 | the dropdown's Asia/Kolkata is stored under `Asia-Kolkata` |
| TimezoneConverter.SlashKeyShownAsIs | src/Components/TimezoneConverter.jsx:196 | the seeded key `Asia/Kolkata` is shown as `Asia/Kolkata` |
| TimezoneConverter.KolkataCardsAlike | src/Components/TimezoneConverter.jsx:196 | the cards of `Asia-Kolkata` and `Asia/Kolkata` show the same name |
| TimezoneConverter.SeededKolkataAddedTwice | src/Components/TimezoneConverter.jsx:18-27 | choosing Asia/Kolkata on the initial state adds a third entry `Asia-Kolkata` for the same zone |
| TimezoneConverter.ConvertOne | src/Components/TimezoneConverter.jsx:98-102 | writing one more zone's converted time adds it to the converted zones and leaves the keys and the changed zone alone |
| TimezoneConverter.Retime | src/Components/TimezoneConverter.jsx:95-102 | the key list is unchanged; the changed zone gets the `HH:mm` of the local date-time; every other zone of `timezones` gets that date-time converted into it |
| TimezoneConverter.ZoneRegistry.constructor | src/Components/TimezoneConverter.jsx:68-71 | the initial state: the two seeded zones in both maps, today's date, natural order; the invariant holds |
| TimezoneConverter.ZoneRegistry.HandleDateChange | src/Components/TimezoneConverter.jsx:88-90 | only the selected date changes |
| TimezoneConverter.ZoneRegistry.HandleTimeChange | src/Components/TimezoneConverter.jsx:93-105 | no key is added or removed; the zone gets `value` as `HH:mm`, wrapping at a day; every other zone gets the converted time; the invariant is kept |
| TimezoneConverter.ZoneRegistry.AddNewTimezone | src/Components/TimezoneConverter.jsx:108-113 | `timezones[key]` is the label; the key holds the current time; every other entry of both maps is unchanged; a present key keeps its place, and a new key goes last |
| TimezoneConverter.ZoneRegistry.RemoveTimezone | src/Components/TimezoneConverter.jsx:116-123 | the key is absent from both maps; every other entry is unchanged; nothing changes when it was absent; the invariant is kept |
| TimezoneConverter.ZoneRegistry.ReverseTimezones | src/Components/TimezoneConverter.jsx:130-132 | the flag flips and the displayed entries become the reverse of what they were |
| TimezoneConverter.ZoneRegistry.OnDragEnd | src/Components/TimezoneConverter.jsx:135-143 | the stored entries become the drop of the displayed ones; every key keeps its time; the invariant is kept |

## Left out

- Time-zone conversion, the zone abbreviation and offset, and the `ddd D, MMMM` date text all come from the time-zone library. The conversion is a parameter of type `Converter`. The rest is not modelled.
- Daylight-saving effects are not modelled. A local day is taken to have exactly 1440 minutes.
- The current time of each zone is a parameter: the seeded times and the time of a newly added zone.
- The mouse and touch tracking and the collision detection of the drag-and-drop library are not modelled. `arrayMove` is modelled by its documented behaviour: take the element out at the old index and insert it at the new one.
- The stored dark-mode preference (`isDark` and its local storage) and the calendar button that opens a window are not modelled, because both are I/O.
- Rendering, styling, the date picker and the select widgets are not modelled, nor the per-card local state that resyncs a card's slider with its time. The sharing toggle and the two checkboxes are plain setters and are not modelled either.
- TimeTables.OptionAt: the label uses a plain 12-hour clock text (`h:mm A`) on a day of 1440 minutes rather than the library's formatter.
- Clock.ParseClock: it reads only the `H:MM` and `HH:mm` texts this component produces, not every input that `moment.duration` accepts.
- TimezoneConverter.Retime: it visits the zones of `timezones` in no fixed order, because a map has none. Every zone is written once, so the result does not depend on the order.
- Ordering.Drop: a drop with a null `over` leaves the state unchanged. The code throws before setting anything, and the model does not capture the exception.
- ShareLink.ShareLinkReadsBack: it holds only for a time literal without `&`. The link is not escaped, and `ShareLink.UnescapedTimeMisreads` shows that it does not read back in general.
