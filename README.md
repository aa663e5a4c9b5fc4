# A Dafny model of the log2s3 aggregator

The aggregator of `log2s3` (package `pkg/aggregator`) reads access-log lines
one at a time. It derives a time-window key for each line from the line's
`time:` field, groups the lines into one epoch per key, and uploads every
epoch when the input ends. This project models that core and proves
properties of the model:

- **The key derivation (`parseEpoch`).** This part is pure, so it is modelled
  as functions over strings and integers:
  - `TsvField` finds the value that the regular expression
    `(?:^|[ \t])time\:([^\t]+)` captures. It uses a direct scan that
    characterises the leftmost match.
  - `AccessTime` parses and prints the layout `02/Jan/2006:15:04:05 -0700`.
  - `Civil` converts between proleptic Gregorian calendar dates and day or
    second counts.
  - `EpochKey` covers four things:
    - it aligns an instant to the start of its window of `step` minutes,
      using Go's truncating `%`;
    - it renders the window start in the layout `20060102150405`;
    - it parses such a key back;
    - it composes all of these into `ParseEpoch`.
  - `Scenarios` works three concrete lines through to their keys.
- **The pipeline (`NewAggregator`, `Run`, `Close`).** This part changes
  state, so it is modelled as classes with methods:
  - `Pipeline.LineReader` is the buffered reader, a fixed sequence of read
    results;
  - `Pipeline.EpochManager` is the map from key to epoch, with a record of the
    order in which keys were created;
  - `Pipeline.Uploader` receives the epochs;
  - `Pipeline.Aggregator` holds the constructor, `Run` (split into the read
    loop `ReadAll`, the per-line step `Accept` and the upload loop
    `UploadAll`), and `Close`.
- **The reference functions (`Routing`).** Each method is proved against
  functions here:
  - `Route` and `RouteAll` describe what the read loop does to the manager,
    one read result at a time.
  - `Grouped`, `Select` and `FirstSeen` state the intended grouping
    independently of the loop: one epoch per key, holding exactly that key's
    lines in read order.
  - `Outcome` connects the two.

The key function inside the pipeline is a field `keyOf`. The aggregator's
invariant `Valid()` ties it to `EpochKey.ParseEpoch`. The failures of the
collaborators are parameters:
- creating an epoch fails exactly for the keys in `unwritable`;
- uploading fails exactly for the keys in `rejects`;
- a read fails where the reader's result sequence holds a `Fault`.

## Model

| member | source | states |
|---|---|---|
| `TsvField.TimeFieldStart` | pkg/aggregator/aggregator.go:11 | the capture start it returns is the leftmost position where `time:` begins at the line start or after a blank; None exactly when there is no such position |
| `TsvField.TimeValueSpec` | pkg/aggregator/aggregator.go:84-88 | the extracted value is empty iff the pattern does not match; otherwise it is the maximal tab-free run after the leftmost `time:`, is non-empty and contains no tab |
| `AccessTime.ParseAccessTime` | pkg/aggregator/aggregator.go:94 | every accepted text yields a well-formed stamp: a year of four digits, a real calendar date, hour < 24, minute and second < 60, offset hours <= 24 and offset minutes <= 60 |
| `AccessTime.Unix` | pkg/aggregator/aggregator.go:98 | `t.Unix()`: the instant plus the stamp's offset is its wall-clock reading counted as seconds from 1970-01-01 00:00:00 UTC, so midnight of 1 January 1970 written at offset o is the instant -o |
| `AccessTime.ParseFormatted` | pkg/aggregator/aggregator.go:94 | parsing the printed form of any well-formed stamp gives back that stamp |
| `AccessTime.ParsedIsFormatted` | pkg/aggregator/aggregator.go:94-97 | every text the parser accepts is exactly the printed form of its result, so trailing text, a wrong month name or a missing field gives the error path |
| `AccessTime.FormatHasNoTab` | pkg/aggregator/aggregator.go:11 | a printed timestamp contains no tab, so the tsv capture can hold it whole |
| `Civil.CivilFromDays` | pkg/aggregator/aggregator.go:98-99 | the date it returns is valid and has the given day number |
| `Civil.CivilDaysRoundTrip` | pkg/aggregator/aggregator.go:94 | a valid date converted to its day number and back is unchanged |
| `Civil.DaysFromCivilNext` | pkg/aggregator/aggregator.go:94 | the day after a valid date has the next day number, so day numbers count calendar days without gaps or repeats |
| `Civil.CivilFromSeconds` | pkg/aggregator/aggregator.go:98-99 | the date-time it returns is valid and has the given second count |
| `Civil.CivilSecondsRoundTrip` | pkg/aggregator/aggregator.go:98-99 | a valid date-time converted to seconds and back is unchanged |
| `EpochKey.GoRem` | pkg/aggregator/aggregator.go:98 | the remainder of Go's `%` is smaller than the divisor in magnitude and takes the dividend's sign |
| `EpochKey.GoDivision` | pkg/aggregator/aggregator.go:98 | truncated quotient and remainder recompose the dividend |
| `EpochKey.Align` | pkg/aggregator/aggregator.go:98 | `t - t%(step*60)` is less than one window width from t, on the same side of 1970 as t and no further from 1970 |
| `EpochKey.AlignIsWindowStart` | pkg/aggregator/aggregator.go:98 | for an instant at or after 1970, the aligned value is a multiple of the window width, lies in the same window, and the instant is at most one width after it |
| `EpochKey.AlignBefore1970` | pkg/aggregator/aggregator.go:98 | for an instant before 1970, the aligned value is a multiple of the width at or after the instant and not after zero (rounding toward zero) |
| `EpochKey.AlignSameWindow` | pkg/aggregator/aggregator.go:98 | two instants at or after 1970 align to the same start iff they lie in the same window |
| `EpochKey.AlignIdempotent` | pkg/aggregator/aggregator.go:98 | aligning an aligned instant changes nothing |
| `EpochKey.KeyRoundTrip` | pkg/aggregator/aggregator.go:99 | a key rendered in the layout `20060102150405` parses back to the date-time it was made from |
| `EpochKey.KeyIsFourteenDigits` | pkg/aggregator/aggregator.go:99 | for years 0 to 9999 the key is exactly fourteen decimal digits |
| `EpochKey.WindowKey` | pkg/aggregator/aggregator.go:98-99 | the key of a window start is non-empty and parses back to a valid date-time which, read in the rendering zone, is that window start |
| `EpochKey.WindowKeyInjective` | pkg/aggregator/aggregator.go:98-99 | two window starts have the same key iff they are equal |
| `EpochKey.ParseEpoch` | pkg/aggregator/aggregator.go:79-100 | the key is non-empty iff the format is `tsv`, the pattern matches and the captured value parses, so `ssv`, an unknown format, no match or a parse error all give the empty key; a non-empty key parses back to the line's Unix instant aligned to the step, read in the rendering zone |
| `EpochKey.SameKeyIffSameAligned` | pkg/aggregator/aggregator.go:94-99 | two timestamped lines share a key iff their instants align to the same start, so equal instants written with different offsets share a key |
| `EpochKey.SameKeyIffSameWindow` | pkg/aggregator/aggregator.go:94-99 | two timestamped lines at or after 1970 share a key iff their instants fall in the same window of the step |
| `EpochKey.KeyedValueIsLayoutText` | pkg/aggregator/aggregator.go:81-97 | a line with a non-empty key is in `tsv` format and its captured value is the printed form of a well-formed stamp |
| `EpochKey.LeadingFieldKey` | pkg/aggregator/aggregator.go:79-100 | a line that starts with `time:` and a printed timestamp, followed by nothing or a tab, gets the window key of that timestamp's instant |
| `Scenarios.KeyOfUtcLine` | pkg/aggregator/aggregator.go:79-100 | `time:10/Oct/2023:13:55:36 +0000` with a 5-minute step, rendered in UTC, has the key `20231010135500` |
| `Scenarios.KeyOneSecondEarlier` | pkg/aggregator/aggregator.go:79-100 | one second before 13:55 falls in the window keyed `20231010135000` |
| `Scenarios.KeyWithEastOffset` | pkg/aggregator/aggregator.go:79-100 | the same instant written as `15:55:36 +0200` has the same key `20231010135500` as the UTC line |
| `Routing.NewEpoch` | pkg/aggregator/aggregator.go:56-59 | creating the epoch fails, with the key as the error, exactly when the key is unwritable; a new epoch carries its key and no lines |
| `Routing.Append` | pkg/aggregator/aggregator.go:64 | writing a line to an epoch adds it at the end and keeps the key |
| `Routing.Route` | pkg/aggregator/aggregator.go:44-64 | one iteration reads one result; EOF drains the loop and a read error aborts it with that error; a line keeps the loop reading unless its key is new and cannot be created, which aborts with that key's creation error and leaves the manager unchanged; epochs and created keys are never removed, at most one key is created, and only the epoch of the line's key changes |
| `Routing.RouteAll` | pkg/aggregator/aggregator.go:43-65 | a loop that has ended reads nothing more; at most one result is read per element, all of them while the loop goes on reading; earlier epochs and created keys are kept |
| `Routing.Select` | pkg/aggregator/aggregator.go:64 | the lines selected for a key come from the input and all have that key |
| `Routing.SelectComplete` | pkg/aggregator/aggregator.go:50-64 | every input line with the key is among the lines selected for it |
| `Routing.GroupedSkip` | pkg/aggregator/aggregator.go:50-53 | a line with the empty key leaves the grouping unchanged |
| `Routing.GroupedAdd` | pkg/aggregator/aggregator.go:54-64 | a line with a key extends that key's epoch by the line, creating the epoch if it is new, and leaves every other epoch unchanged |
| `Routing.FirstSeenKeys` | pkg/aggregator/aggregator.go:55-60 | the creation order lists each key exactly once, and holds exactly the keys that occur |
| `Routing.Outcome` | pkg/aggregator/aggregator.go:43-65 | when the first result that ends the loop is at position n, the loop leaves one epoch per key of the lines before n, holding that key's lines in read order, in order of first appearance; n+1 results are read; the ending is Drained at EOF and Aborted with the read error or the epoch-creation error otherwise |
| `Routing.Stops` | pkg/aggregator/aggregator.go:43-49 | the reader's results end in EOF, so the loop has a first stopping position |
| `Routing.RouteAllConsistent` | pkg/aggregator/aggregator.go:55-63 | the loop keeps the manager consistent: keys created once each, the map's keys are exactly the created keys, and each epoch is stored under its own key |
| `Pipeline.LineReader.Pending` | pkg/aggregator/aggregator.go:44 | the results still to be read, ending in EOF for ever after the input |
| `Pipeline.LineReader.Readln` | pkg/aggregator/aggregator.go:44 | returns the next result (EOF past the end) and advances by one |
| `Pipeline.LineReader.Close` | pkg/aggregator/aggregator.go:75 | closing the reader counts one close and leaves its position unchanged |
| `Pipeline.EpochManager.HasEpoch` | pkg/aggregator/aggregator.go:55 | for a consistent manager, a key has an epoch iff an epoch was created for it, and that epoch carries the key |
| `Pipeline.EpochManager.PutEpoch` | pkg/aggregator/aggregator.go:60 | stores the epoch under its key and records the key as created |
| `Pipeline.EpochManager.Write` | pkg/aggregator/aggregator.go:64 | appends the line to the key's epoch and changes nothing else |
| `Pipeline.EpochManager.Close` | pkg/aggregator/aggregator.go:76 | closing the manager counts one close and leaves its epochs and created keys unchanged |
| `Pipeline.Uploader.Upload` | pkg/aggregator/aggregator.go:67 | every call is logged as an attempt; a rejected key gives its error and uploads nothing; any other epoch is appended to the uploads |
| `Pipeline.Picks` | pkg/aggregator/aggregator.go:66-67 | the epochs named by a key sequence, in that order |
| `Pipeline.UploadRejected` | pkg/aggregator/aggregator.go:67-68 | the first rejected epoch ends the uploads with its error: the attempts are the epochs already sent followed by that one, and nothing after it |
| `Pipeline.UploadFinished` | pkg/aggregator/aggregator.go:66-71 | when every epoch has been sent, each was attempted and sent once and no error is returned |
| `Pipeline.Aggregator.constructor` | pkg/aggregator/aggregator.go:24-38 | a new aggregator keeps its reader and settings, with a fresh empty manager and uploader, and satisfies the invariant |
| `Pipeline.Aggregator.Close` | pkg/aggregator/aggregator.go:74-77 | closes the reader and the manager once each and changes nothing else |
| `Pipeline.Aggregator.Accept` | pkg/aggregator/aggregator.go:50-64 | one line: an empty key changes nothing; a known key gets the line; a new key gets a new epoch holding the line, or creation fails and its error is returned with the manager unchanged |
| `Pipeline.Aggregator.ReadAll` | pkg/aggregator/aggregator.go:43-65 | the read loop leaves the manager exactly as the reference routing of the reader's results does; it returns the read or creation error when the loop aborts, and nothing at EOF |
| `Pipeline.Aggregator.UploadAll` | pkg/aggregator/aggregator.go:66-71 | uploads distinct epochs of the manager in some order; no error iff no epoch is rejected; with no error every epoch is attempted and uploaded once; with an error the attempts are the uploaded epochs followed by the one rejected epoch whose error is returned, so the first failure stops the remaining uploads |
| `Pipeline.Aggregator.Run` | pkg/aggregator/aggregator.go:40-72 | the manager ends as the reference routing; on a read or creation error that error is returned and no upload is attempted; at EOF the uploads follow `UploadAll`'s contract, so nil is returned iff EOF was reached and every upload succeeded; the reader and the manager are closed exactly once on every path |

## Left out

- The process's local time zone is replaced by a fixed offset in seconds, `zone`. Go's `time.Unix(...).Format` renders in the local zone. In a zone whose clocks fall back for daylight saving, the wall-clock hour before the change repeats after it, so two different windows can render the same key. `EpochKey.WindowKeyInjective` and `EpochKey.SameKeyIffSameWindow` therefore hold only for a zone with a fixed offset, which is what the model has. Scenarios use UTC.
- `AccessTime.ParseAccessTime` is the strict reading of the layout, so it is weaker than Go's `time.Parse` in four ways:
  - month names are matched in the exact case given, where Go ignores case;
  - the hour must have two digits, where Go also accepts one;
  - a fractional second after the seconds field is rejected, where Go accepts one even though the layout has none;
  - exactly one space must stand before the offset, where Go accepts a run of spaces for the layout's one space.

  Lines that only such leniencies would accept get the empty key here.
- The offset bounds of Go's numeric-zone parsing (hours up to 24, minutes up to 60) are kept. Go's other error texts are not modelled, only the fact that an error occurs.
- The regular expression engine is not modelled. The single pattern at line 11 is replaced by a scan, and `TsvField.TimeValueSpec` proves that the scan finds the smallest capture start and that the value is the maximal tab-free run from there. That the smallest capture start belongs to the pattern's leftmost match is argued in the comment at the head of `tsv_field.dfy`, not proved.
- A step of zero or less is excluded by the type `Step` (`0 < step`). In Go a zero step divides by zero and panics, and a negative step behaves like its absolute value.
- Go's `int64(step)*60` and Unix seconds are 64-bit. The model uses unbounded integers, so it does not model overflow for steps above 2^63/60 minutes. Years outside 0 to 9999 cannot come out of the parser.
- The internals of `Epoch`, `Compressor`, `Uploader` and `EpochManager` are not part of this model, because their files are not part of it:
  - an epoch is a value with its key, key format, output and lines;
  - file writes, compression and the upload transport are left out;
  - creating an epoch fails exactly for keys in `unwritable`;
  - an upload fails exactly for keys in `rejects`.
- Whatever `epoch.Write` returns is discarded at line 64; the model's write cannot fail.
- The `Compressor` made in `NewAggregator` is never used by `Run`, so it is not modelled.
- The buffered reader is a fixed sequence of read results: a line, EOF or a fault. Whether `Readln` strips the newline is not part of this model, so lines are opaque strings.
- `Pipeline.Aggregator.UploadAll` promises no upload order. The type of `a.mngr.epochs` ranged over at line 66 is not part of this model; the lookups by key at lines 55 and 62 suggest a map, and Go leaves the iteration order of a map unspecified. Its contract says which epochs are attempted and sent, that they are distinct, and that nothing is attempted after the first rejection, but not the order.
- The source hands `*Epoch` pointers between the manager and the loop. Here epochs are values held in the manager's map, and a write goes through `EpochManager.Write`, so pointer aliasing is not modelled.
- `Close` is modelled only as a counter on the reader and the manager, because what closing does is inside those types.
- Go's `defer` is modelled by calling `Close` on each return path of `Run`.
- A panic in `Run` is not modelled.
- Keys are rendered in the process's zone (`zone` here), not necessarily in UTC.
