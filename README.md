# Flashcards remoteStorage module — a verified model

The flashcards module is a remoteStorage data module: it registers a `flashcard` record
type with the private client it is handed and exports `store`, `remove`, `get`,
`listGroups` and `getAllByGroup`. Its own logic is small: `_formattedDate` turns the UTC
fields of the current date into a filename timestamp `YYYYMMDD-HHMMSS`, `store` fills
defaults into the record (`@id`, `group`, `@type`, the counters and the three dates) and
writes it at `group/@id`, and the other operations compose the same kind of path and hand
it to the client.

The model, in five modules:

- `Wrappers` (wrappers.dfy): `Option`, standing for a field that may be missing.
- `Decimal` (decimal.dfy): `String(n)` for integers, and the value of a digit string, so
  that numerals can be read back.
- `DateFormat` (dateformat.dfy): `pad` and `_formattedDate` as functions over a `UtcDate`
  (year, zero-based month, day, hours, minutes, seconds), a parser for the timestamp as
  their partner, and JavaScript's string `<`, under which timestamps sort as dates.
- `Cards` (cards.dfy): the flashcard record, JavaScript truthiness, and the assignments
  `store` makes, as the function `Normalize`.
- `Flashcards` (flashcards.dfy): path composition, the client's store as a map from path
  to record, and the class `FlashcardStore`, whose field `documents` is that map and whose
  methods are the module's exported operations.

Where the code and the module's own documentation disagree, the model follows the code:

- The doc comment of `_formattedDate` (src/index.js:160) gives `'131106-1523'` as an
  example; the code (src/index.js:171-178) writes a four-digit year and the seconds, as in
  `20131106-152300`.
- The schema declares `createdAt`, `reviewedAt` and `updatedAt` as `date-time`
  (src/index.js:39-50), but `store` assigns them the compact timestamp (src/index.js:80-91).
- `updatedAt` is overwritten on every `store`, the first included (src/index.js:88), and
  `reviewedAt` is filled on first store even though no review has happened (src/index.js:87).
- The identifier field is `@id`, and `@type` is forced to `"flashcard"` (src/index.js:82-84).

JavaScript's `||` is modelled as truthiness: a missing field, an empty string and the
number 0 are all replaced. For `familiarity || 0` and `reviewedCount || 0` this means a
present 0 stays 0, so the only change is that a missing counter becomes 0.

## Model

| member | source | states |
|---|---|---|
| `Decimal.NatToString` | src/index.js:167 | `String(n)` of a non-negative integer is a non-empty digit string whose first digit is `0` exactly when n is 0 (no leading zeros) |
| `Decimal.ValueOfNatToString` | src/index.js:167 | reading the numeral back gives n: the numeral determines the number |
| `Decimal.TwoDigits` | src/index.js:167-168 | numbers 10..99 are written with two digits, tens then units, so `pad` leaves them alone |
| `Decimal.FourDigits` | src/index.js:171 | a year 1000..9999 is written with its four digits |
| `DateFormat.PadKeepsSuffix` | src/index.js:166-170 | `pad` grows its argument only when it has one character, and then by a single leading `0`; the argument is always a suffix of the result, and a numeral keeps its value |
| `DateFormat.PadTwoDigits` | src/index.js:166-170 | every value 0..99 comes out of `pad(String(n))` as exactly two digits whose value is n |
| `DateFormat.PadFourDigits` | src/index.js:171 | a four-digit year passes through `pad` unchanged |
| `DateFormat.FormattedDateLayout` | src/index.js:171-178 | for a valid date with a four-digit year, the timestamp is year ++ month ++ day ++ `-` ++ hours ++ minutes ++ seconds, each field two digits and the year four |
| `DateFormat.FormattedDateShape` | src/index.js:171-178 | the timestamp has 15 characters, `-` at index 8 and digits elsewhere; its slices hold the year, the one-based month, day, hours, minutes and seconds |
| `DateFormat.MonthIsOneBased` | src/index.js:172 | the month characters are the zero-based UTC month plus one: month 0 gives `01`, month 11 gives `12` |
| `DateFormat.ParseFormattedDateRoundTrip` | src/index.js:165-178 | parsing the timestamp of a valid date gives that date back |
| `DateFormat.FormattedDateOfParse` | src/index.js:165-178 | a string that parses to a valid date is that date's timestamp: timestamps and dates correspond one to one |
| `DateFormat.FormattedDateInjective` | src/index.js:165-178 | different dates give different timestamps, so generated ids differ whenever the seconds differ |
| `DateFormat.FormattedDateOrder` | src/index.js:156-178 | one timestamp is less than another under JavaScript string comparison exactly when its date is earlier: the filename timestamps sort chronologically |
| `DateFormat.FormattedDateNotEmpty` | src/index.js:178 | the timestamp is never empty, so as an `@id` or date it is truthy |
| `DateFormat.FormattedDateHasNoSlash` | src/index.js:171-178 | the timestamp never contains `/`, so a generated `@id` adds no path segment |
| `Cards.NormalizeFillsIdentity` | src/index.js:82-92 | `store` keeps a truthy `@id`, `group`, `reviewedAt` and `createdAt`; a falsy one becomes the date, and the group `"default"` |
| `Cards.NormalizeStamps` | src/index.js:84-88 | after `store`, `@type` is `"flashcard"` and `updatedAt` is the current date, whatever the input held |
| `Cards.NormalizeCounters` | src/index.js:85-86 | a missing `familiarity` or `reviewedCount` becomes 0; any present value, 0 included, is kept |
| `Cards.NormalizeKeepsText` | src/index.js:79-92 | `frontText`, `backText` and `hint` are never changed |
| `Cards.NormalizeIsNormalized` | src/index.js:80-92 | with a non-empty date every stored record has truthy `@id`, `group`, `reviewedAt` and `createdAt`, `@type` "flashcard", and both counters and `updatedAt` present |
| `Cards.NormalizeNormalized` | src/index.js:82-92 | normalising a normalised record changes only `updatedAt` |
| `Cards.NormalizeIdempotent` | src/index.js:82-92 | normalising twice with the same date is normalising once |
| `Cards.NormalizeRestamp` | src/index.js:82-92 | normalising a stored record with a later date changes only `updatedAt`; `createdAt` is preserved |
| `Cards.NormalizeRequiredFields` | src/index.js:52 | the stored record has every field the schema requires exactly when the input has a `frontText`, the one required field `store` does not fill |
| `Flashcards.ItemsIn` | src/index.js:152 | the client's `getAll(folder)` as modelled: exactly the documents directly inside the folder, keyed by their names relative to it |
| `Flashcards.StoragePathOfNormalized` | src/index.js:94 | `store` writes at `group/@id` of the normalised card: the caller's group and id when truthy, otherwise `"default"` and the date |
| `Flashcards.StoreThenGet` | src/index.js:94-95 | reading at the stored card's group and id gives the normalised card |
| `Flashcards.StoreKeepsOthers` | src/index.js:94 | `store` leaves every other path as it was |
| `Flashcards.RemoveThenGet` | src/index.js:110-111 | after `remove(g, id)`, `get(g, id)` finds nothing, and other paths are untouched |
| `Flashcards.GroupFolderDefault` | src/index.js:150-152 | `getAllByGroup` with a falsy group reads under `default/`, otherwise under `group/` |
| `Flashcards.PathInjective` | src/index.js:94 | for groups without `/`, the path determines group and id |
| `Flashcards.PathCollision` | src/index.js:94 | with a `/` inside a group two different (group, id) pairs share a path; nothing in the module prevents it |
| `Flashcards.FirstSegmentOfPath` | src/index.js:137 | the first segment of `group/id` is the group when the group holds no `/` |
| `Flashcards.StoreThenListGroups` | src/index.js:136-138 | after `store`, no group listed before is lost, and the card's group is among the listed groups when it holds no `/` (the listing sees only the first segment of a path) |
| `Flashcards.StoreThenGetAllByGroup` | src/index.js:150-153 | after `store`, `getAllByGroup` of the card's group holds the normalised card under its id, for an `@id` without `/` (a generated one never has one; `getAll` sees only direct children) |
| `Flashcards.GetAllByGroupIgnoresOtherGroups` | src/index.js:150-153 | a record written into another group does not change what `getAllByGroup` reports for this one |
| `Flashcards.SameSecondCollision` | src/index.js:80-82 | two cards without `@id` stored in the same group within one second get the same path: the second write replaces the first |
| `Flashcards.StoreTwice` | src/index.js:79-96 | storing the stored record again writes to the same path, keeps `createdAt` and every other field, sets `updatedAt` to the later date, and that later timestamp sorts after the earlier one |
| `Flashcards.FlashcardStore.constructor` | src/index.js:10 | the module works on the client it is handed |
| `Flashcards.FlashcardStore.Store` | src/index.js:79-96 | the client's map gains the normalised card at its path, nothing else changes, and `store` returns what `get` reads back: the normalised card |
| `Flashcards.FlashcardStore.Remove` | src/index.js:110-112 | the document at `group/id` is gone and nothing else changes; removing a missing one is no error |
| `Flashcards.FlashcardStore.Get` | src/index.js:124-126 | returns the record at `group/id`, or none when the client has no document there |
| `Flashcards.FlashcardStore.ListGroups` | src/index.js:136-138 | returns exactly the first path segments of the client's documents |
| `Flashcards.FlashcardStore.GetAllByGroup` | src/index.js:150-153 | returns exactly the documents directly under `(group or "default")/`, keyed by id |
| `Flashcards.SpanishScenario` | src/index.js:79-126 | a card with only a front text stored in `spanish` is listed by `getAllByGroup` under the date as key, with `@id` the date, group `spanish`, its front text and `createdAt` the date; after `remove`, `get` finds nothing |

## Left out

- Schema registration with `privateClient.declareType` (src/index.js:12-53): the client owns it and nothing in this module enforces it; only its list of required fields is used, in `Cards.NormalizeRequiredFields`.
- The forwarded event hook `on` (src/index.js:61) and the unused `publicClient`: event plumbing of the client.
- Promises: every operation is a synchronous update or read of the client's map; failures of the client's write, read or delete (network, permissions, quota) are not modelled, and the module does nothing with them but pass them on. Neither is a rejection by the client's schema check: `Flashcards.FlashcardStore.Store` writes and returns a card without `frontText`, which lacks a field the schema requires (`Cards.NormalizeRequiredFields` states exactly when that happens).
- The client's sync, caching, conflict resolution and transport.
- The wall clock: `new Date()` (src/index.js:80) is the `now` parameter of `Store`.
- JavaScript number edge cases: `familiarity` and `reviewedCount` are integers, so NaN and fractions are not modelled, and a string field holding a non-string value is not modelled.
- Fields of a card beyond the eleven the schema names: `store` passes them through; the model's record has no place for them.
- The caller's object: `store` assigns into the object it is given; the model returns the normalised value instead, so the caller's reference being changed in place is not captured.
- `Flashcards.FlashcardStore.Get` and `Flashcards.FlashcardStore.Remove`: group and id are strings; a caller passing `undefined` (which JavaScript would write as `"undefined/…"`) is not modelled.
- `Flashcards.FlashcardStore.ListGroups`: returns a set of names; the client's `getListing` returns folder names with a trailing `/` in its own order, which the model does not capture.
- `Flashcards.FlashcardStore.GetAllByGroup`: the client's `getAll` is modelled as the documents directly inside the folder; its entries for sub-folders and its cache age argument are not modelled.
- `DateFormat.FormattedDateShape`, `DateFormat.FormattedDateOrder` and the other layout lemmas hold for years 1000 to 9999; `FormattedDate` itself is defined for every year (a negative year is written with its `-`), but other widths are not proved about.
