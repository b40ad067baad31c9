# Clock offset reconciler — a Dafny model

The page shows the local time and keeps checking how far the local clock has
drifted from an authority clock on the network (`main.js`). This project
models the logic of that check:

- `formatOffset`: renders a millisecond delta as a compact signed string
  (`+0s`, `+1.500s`, `+01:05`, `+1:01:01`). It splits the magnitude into
  hours, minutes, seconds and milliseconds, drops the leading zero groups,
  pads the lower groups, and adds the unit `s` only when no `:` appears.
  The model follows the source's steps (`offset.dfy`, with `pad` and decimal
  rendering in `decimal.dfy`). Hours are not padded (main.js:125). Minutes
  are always padded (main.js:126), so 65000 ms renders as `+01:05`.
- A reader for those strings (`offset_readback.dfy`). It is the inverse of
  `formatOffset`: reading a rendered offset back gives the original delta,
  so no two deltas render the same.
- The fallback loop of `fetchAuthorityTime` (`fallback.dfy`). Endpoints are
  tried in order, and the first one that gives a valid date wins. An
  endpoint that throws or gives an invalid date hands over to the next one.
  If none succeeds, the answer is `null`. Each endpoint is represented by
  its outcome (threw, invalid date, or a valid instant in milliseconds).
- The reconciliation step of `updateOffsetStatus` (`status.dfy`):
  - "Sync: unavailable" with class `warn` when there is no authority time;
  - otherwise the delta (local minus authority) sorted into three bands:
    in sync (`ok`, under 2 s), slightly ahead or behind (`warn`, under a
    minute), or "Your clock is ahead/behind" (`bad`);
  - in every band, the exact formatted offset in parentheses.

Modules: `Options` (the Option type), `Decimal`, `Offset`,
`OffsetReadback`, `Fallback` and `OffsetStatus`.

## Model

| member | source | states |
|---|---|---|
| Decimal.Pad | main.js:15 | `pad(n)` gives decimal digits reading back as n; exactly two characters below 100; the plain decimal rendering from 10 up |
| Decimal.NatToString | main.js:125-132 | `String(n)` for a non-negative integer is at least one decimal digit, with a leading `0` only for zero itself |
| Decimal.ParseNatToString | main.js:125-132 | `String(n)` for a non-negative integer is a digit string that reads back as n |
| Decimal.ZeroPaddedValue | main.js:126-132 | `padStart(width,'0')` of `String(n)` is all digits, keeps the value n, and has exactly `width` characters when n has at most that many digits |
| Decimal.PadStart | main.js:126-132 | left padding reaches the requested width (or keeps the string when already wide enough) and ends with the original string |
| Offset.Abs | main.js:115 | `Math.abs` is the delta or its negation, never negative |
| Offset.Decompose | main.js:116-121 | minutes and seconds are below 60 and milliseconds below 1000 |
| Offset.DecomposeTotal | main.js:116-121 | the decomposition adds back up to the magnitude (hours·3600000 + minutes·60000 + seconds·1000 + ms) |
| Offset.DecomposeUnique | main.js:116-121 | every in-range decomposition with that total is the one computed, so hours/minutes/seconds/ms are determined by the magnitude |
| Offset.SegmentsOmitLeadingZeros | main.js:124-134 | the `parts` array omits leading zero groups: no part for a zero duration, three parts exactly when there are hours, two exactly when there are minutes but no hours, one when only seconds or milliseconds remain |
| OffsetReadback.SplitJoin | main.js:137 | joining separator-free parts with `:` (the `parts.join(':')` modelled by `Offset.Join`) loses nothing: splitting the result at `:` gives the parts back |
| Offset.FormatOffset | main.js:112-141 | the result has at least two characters and starts with `+` exactly when the delta is non-negative, `-` otherwise |
| Offset.FormatZero | main.js:136-140 | a zero delta renders as `+0s` |
| Offset.FormatUnderMinute | main.js:128-139 | below a minute (and not zero): the sign, the unpadded whole seconds (under 60), `.` and three-digit milliseconds when milliseconds remain, then `s` |
| Offset.FormatFromMinute | main.js:125-134 | from a minute up: the sign, then unpadded hours (only when non-zero), two-digit minutes, two-digit seconds and the milliseconds suffix joined by `:`, ending in a digit |
| Offset.ColonExactlyFromMinute | main.js:125-139 | the output contains `:` exactly when the magnitude is at least a minute, and ends with `s` exactly when it is below a minute |
| Offset.SignOnlyDiffers | main.js:114-115 | a delta and its negation render identically after the sign character |
| Offset.FormatSecondsExample | main.js:128-139 | a delta of ±1500 ms renders as the sign followed by `1.500s` |
| Offset.FormatMinutesExample | main.js:125-134 | a delta of ±65000 ms renders as the sign followed by `01:05` |
| Offset.FormatHoursExample | main.js:125-134 | a delta of ±3661000 ms renders as the sign followed by `1:01:01` |
| OffsetReadback.ParseFormatOffset | main.js:112-141 | reading the rendered offset back gives the original delta |
| OffsetReadback.FormatOffsetInjective | main.js:112-141 | two deltas with the same rendering are equal |
| Fallback.FetchAuthorityTime | main.js:101-109 | the loop returns the instant of the first valid endpoint, where every endpoint before it failed and none after it is called; when all fail it returns null after calling every endpoint |
| Fallback.FirstValidIsWinner | main.js:101-109 | the contract of `Fallback.FirstValid`, the value the loop returns: null exactly when no endpoint is valid, and otherwise the instant of the first valid endpoint |
| Fallback.FailureHandsOver | main.js:102-107 | any run of endpoints that throw or give invalid dates, however long, leaves the result to the endpoints after it |
| Fallback.LaterOutcomesIgnored | main.js:104 | once an endpoint wins, changing or adding endpoints after it does not change the result |
| Fallback.FallbackExamples | main.js:101-109 | all endpoints throwing gives null; a throwing or invalid first endpoint hands over to the next valid one |
| OffsetStatus.Classify | main.js:156-165 | given the formatted offset, the class is `ok` exactly under 2000 ms of absolute delta, `warn` exactly in [2000, 60000) and `bad` exactly from 60000 ms |
| OffsetStatus.AvailableStatus | main.js:153-165 | the class is `ok` exactly when the absolute delta is under 2000 ms, `warn` exactly when it is in [2000, 60000), and `bad` exactly from 60000 ms |
| OffsetStatus.DirectionFollowsSign | main.js:160-163 | outside the in-sync band, the text says the clock is ahead exactly when the delta is positive |
| OffsetStatus.AvailableIsNotUnavailable | main.js:147-165 | no measured delta yields the same status (text and class) as the unavailable case |
| OffsetStatus.StatusIdentifiesDelta | main.js:154-165 | two deltas that give the same status are equal, so the label always carries the exact offset |
| OffsetStatus.UnavailableOnlyWhenAllFail | main.js:146-151 | after the fallback loop, the status is the unavailable one exactly when every endpoint threw or gave an invalid date |
| OffsetStatus.WinnerDecidesStatus | main.js:146-165 | after the fallback loop, the status is the classification of local time minus the winning endpoint's instant |
| OffsetStatus.UpdateOffsetStatus | main.js:143-166 | after fetching, the status is the unavailable one exactly when every endpoint failed; otherwise it is the classified delta between the local time and the winning endpoint's instant |

## Left out

- DOM updates, the theme toggle, the local clock and time zone display (`Intl`), and the five-minute timer are not modelled. The local time is a parameter of `UpdateOffsetStatus`.
- The transient "Sync: checking…" text shown while the fetch runs is not modelled. The model only covers the state after the fetch completes.
- Network requests, JSON payloads and `Date` parsing of the endpoint URLs are not modelled. Each endpoint is reduced to its outcome: it threw, it gave an invalid date, or it gave a valid instant in milliseconds. Asynchronous awaiting is sequential here.
- Offset.FormatOffset: JavaScript numbers are modelled as unbounded integers. The exponent notation `String(n)` uses for very large numbers and fractional-millisecond deltas are not captured.
- The unavailable case (main.js:147-151) has the same `warn` class as the slightly-off band, so only the text tells those two apart; `OffsetStatus.AvailableIsNotUnavailable` proves that no measured delta gives the unavailable status.
- Time-outs are not modelled. The endpoint requests have none, so an endpoint whose request never settles stalls the loop at main.js:101-109 and the status stays "checking". The model assumes every endpoint's outcome arrives.
