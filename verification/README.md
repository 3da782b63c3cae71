# Timeless: the era and playlist core in Dafny

Timeless is a shared playlist board. Each person chooses a five-year
birth-year range and adds songs. Each song is labelled with the Japanese era
(Showa, Heisei, Reiwa) in which that person turned 17. The board shows the
songs in columns, one per birth year.

This project models the pure logic behind that in `main.js`:

- the era computations `getEraName` and `calculateEra`;
- the loop that builds the birth-year choices in `generateBirthYearGroups`,
  including the label of each choice (`calculateEra` with its bracketed
  Gregorian year removed by `replace(/（.+?）/, '')`);
- the record `addTrackToBoard` stores: its guards, its text fields, its
  birth year and its era label;
- the grouping of tracks by birth year in `renderPlaylist`, the ordering of
  the groups (years ascending, the unknown group "不明" last) and the era
  header above each group.

Modules:

| file | module | contents |
|---|---|---|
| options.dfy | `Options` | `Option`, `Result` |
| decimal.dfy | `Decimal` | JavaScript's decimal rendering of safe integers (below 2^53) and its parser |
| era.dfy | `Era` | eras, the era date of a birth year, `calculateEra`, `getEraName`, reading a label back |
| parenthetical.dfy | `Parenthetical` | the first lazy match of `（.+?）` and its removal |
| buckets.dfy | `BirthYearGroups` | the birth-year choices and their labels |
| tracks.dfy | `Tracks` | the record `addTrackToBoard` stores |
| playlist.dfy | `Playlist` | grouping, ordering and headers of the playlist |

The current year, which the source reads from the clock, is a parameter of
`GenerateBirthYearGroups`. The board id and the selected birth year, which
the source reads from the page, are parameters of `NewTrack`.

A birth year is `Option<int>`. `None` stands for the values that JavaScript
treats as absent or as `NaN`.

## Model

| member | source | states |
|---|---|---|
| Era.EraDateOf | main.js:51-70 | the year described is the birth year plus 17; it has an era exactly when that year is 1926 or later; the era is the latest one begun by then; the era-relative year is at least 1, denotes the same Gregorian year, and is at most 63 in Showa and at most 30 in Heisei |
| Era.CalculateEra | main.js:51-70 | the label parses back to the era date of the birth year, so it carries the era, the era-relative year and the Gregorian year of turning 17 |
| Era.GetEraName | main.js:36-48 | for a number, names the era of that birth year's era date; for `NaN` (every comparison false), falls through to "大正 TAISHO" |
| Era.EraBoundaries | main.js:54-69 | both directions of each era boundary: Reiwa from 2019, Heisei from 1989 up to 2018, Showa from 1926 up to 1988, anything earlier before Showa |
| Era.EraNameAgrees | main.js:36-70 | `getEraName` names the era of the label `calculateEra` returns for the same birth year |
| Era.EraMonotone | main.js:54-69 | a later birth year never gets an earlier era |
| Era.EraNumberStep | main.js:53-64 | one more birth year raises the era-relative year by one, or else starts the next era at year 1 |
| Era.CalculateEraInjective | main.js:51-70 | different birth years get different labels |
| Era.ParseRender | main.js:56-69 | reading a rendered label back gives the era date it was rendered from |
| Decimal.ParseShow | main.js:57-68 | the decimal text of an integer in a template string reads back as that integer |
| Parenthetical.RemoveFirst | main.js:100 | with no match the text is unchanged; otherwise the leftmost `（`, up to the nearest `）` that encloses at least one character and no line break, is removed |
| Parenthetical.RemoveTrailing | main.js:100 | a bracketed tail after a bracket-free prefix is removed, leaving the prefix |
| BirthYearGroups.ReplaceDropsYear | main.js:97-100 | inside an era, the label loses its bracketed Gregorian year and keeps the era name and the era-relative year; before Showa the label is unchanged |
| BirthYearGroups.GenerateBirthYearGroups | main.js:88-104 | one choice per step of five, from the current year down to 1950; none when the current year is before 1950; the i-th upper bound is the current year minus 5i and at least 1950; the last is below 1955; each choice spans upper-4..upper; neighbouring choices meet with no gap and no overlap |
| BirthYearGroups.BucketCountClosedForm | main.js:88 | from 1950 on, the number of choices is (currentYear - 1950) / 5 + 1 |
| BirthYearGroups.OfferedLabelIsShort | main.js:96-102 | every offered choice shows a named era (Showa or later) with its era-relative year and no bracketed absolute year |
| BirthYearGroups.OptionTextOfOffered | main.js:102 | an offered choice reads as its range `lower年-upper年 (17歳は` followed by the short era label of its middle year and `)`, and contains no opening bracket |
| BirthYearGroups.ShortLabelNoBracket | main.js:100 | a label with its bracketed year removed contains no bracket |
| BirthYearGroups.OfferedEraVersusStored | main.js:96-98 | the era in a choice's label (that of `upper - 2`) differs from the era that choosing it stores at main.js:296 (that of `upper`) exactly when `upper + 17` is 1989, 1990, 2019 or 2020 |
| Tracks.NewTrack | main.js:284-308 | no board gives the board error, and no selection with a board gives the birth-year error; otherwise a track whose birth year is the selection, whose era label parses to that year's era date, and whose text fields default to "" |
| Playlist.KeyOf | main.js:332 | a missing or zero birth year goes to the unknown group; any other birth year is its own key |
| Playlist.CompareIsKeyOrder | main.js:340-346 | on two different keys the comparator is negative exactly when the first key comes earlier in the column order (years ascending, unknown last) |
| Playlist.AddTrack | main.js:333-336 | the track is appended to the group of its key, which is created at the end when missing; other groups are unchanged |
| Playlist.Collect | main.js:330-337 | distinct keys, one group per key that occurs, each holding exactly the tracks with that key in input order |
| Playlist.Insert | main.js:340-346 | inserting a group into sorted groups keeps them sorted and keeps every group |
| Playlist.SortGroups | main.js:340-346 | the groups are rearranged, not changed, into strictly ascending key order |
| Playlist.GroupTracks | main.js:329-346 | the columns are in key order and hold exactly the tracks of their key in input order; every track's key has a column; no column is empty |
| Playlist.Header | main.js:356 | the header of a year column names that year's era; the unknown column (`parseInt` gives `NaN`) shows "大正 TAISHO" |
| Playlist.HeaderMatchesStoredEra | main.js:356 | for a track added by this client, the header above its column names the era of the label stored at main.js:296 |
| Playlist.TrackInOwnGroup | main.js:331-336 | each track sits in the group of its own key and in no other; a track with a missing or zero birth year sits in the unknown group |
| Playlist.GroupingExactlyOnce | main.js:330-337 | the groups together hold the input tracks with their multiplicities, so their sizes add up to the number of tracks |
| Playlist.GroupKeepsOrder | main.js:331-336 | two tracks of one group appear in it in the order they arrived |
| Playlist.FilterKeepsOrder | main.js:336 | filtering by key keeps the input order |
| Playlist.UnknownGroupLast | main.js:340-346 | the unknown column, when there is one, is the last column, and the year columns ascend strictly |
| Playlist.GroupingEmpty | main.js:324-337 | there are no columns exactly when there are no tracks |
| Playlist.GroupingUnique | main.js:329-346 | any two groupings of the same tracks are equal, so the result does not depend on the sort algorithm |
| Playlist.GroupTracksIdempotent | main.js:329-346 | grouping the tracks of a grouping, read column by column, gives the same grouping |
| Playlist.ExampleColumnOrder | main.js:329-346 | tracks born in 1990, in 1985 and unknown give the columns 1985, 1990, unknown |

## Left out

- The DOM: the select box, its placeholder option, the playlist grid, the
  cards, the audio preview and the alerts. The model returns the data these
  display.
- The Firebase Realtime Database, the iTunes search request and their
  errors, and `firebase.js`: these are I/O.
- The clock. `new Date().getFullYear()` is the `currentYear` parameter, and
  `serverTimestamp()` is not modelled.
- Tracks.NewTrack: the stored record has no `createdAt` field, and the
  push's own failure is not modelled. The selection is an `Option<int>`
  holding the chosen choice's value; the empty selection is `None`.
  `parseInt` of a non-numeric value cannot arise, because the select box
  offers only numeric values.
- Playlist.KeyOf: birth years are integers or absent. Data stored by other
  clients with a string or `NaN` birth year is not modelled. So the
  collision of the number `1990` and the string `"1990"` on one object key
  is not modelled.
- Era.GetEraName: numbers are unbounded integers, not IEEE doubles. Float
  birth years and precision loss on huge values are not modelled.
- Era.CalculateEra / Decimal.Show: these match the source only for safe
  integers (magnitude below 2^53) whose text is below 10^21. Above 2^53,
  `birthYear + 17` rounds in JavaScript; from 10^21 on, `${n}` prints
  exponent form (`1e+21`), while the model prints plain digits. The program's
  own calls never reach these values: every number it prints lies between
  1 and the current year plus 17. The same bound applies to
  Era.EraDateOf.
- Playlist.SortGroups: the engine's sort algorithm is not modelled. An
  insertion sort with the source comparator stands in for it. Group keys
  are distinct and the comparator is a strict total order on distinct keys,
  so every correct sort gives the same result (`Playlist.GroupingUnique`).
- Tracks.Track: the record the store delivers to the playlist also carries
  `id` (the database key, main.js:152-155) and `createdAt`. Neither is
  modelled, because the grouping and the headers do not read them.
- JavaScript's order of object keys is not modelled. The groups are collected
  in order of first appearance, and only the sorted order is observable.
- BirthYearGroups.OptionText: the choice's label is computed from the
  choice when needed, not stored in it. The `<option>` element and its
  `value` attribute are the choice's `upper` bound.
- Parenthetical.RemoveFirst: the regular expression is modelled for the one
  pattern used, `（.+?）` without flags. General regular expressions are not
  modelled.
