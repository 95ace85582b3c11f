# rust-leds: body reader and sunset logic

rust-leds is firmware for an ESP32 board. `main` calls `logic` once, and `logic` does four things:

1. It joins Wi-Fi.
2. It fetches the day's sunset time from a web API over HTTPS.
3. It synchronises the clock over SNTP.
4. It compares the current time with the sunset.

The comparison has three branches. The first switches the LED strip on. The other two do nothing: they hold only the comments "Sleep for a long time" and "Sleep for a short time". The model's `LongSleep` and `ShortSleep` are labels for which of those two empty branches is taken, not actions. When `logic` returns an error, `main` panics with it (src/main.rs:24-26).

This project models the two parts of that firmware that hold logic, and proves properties of them.

- **The chunked UTF-8 body reader of `get`** (`utf8.dfy`, `http_client.dfy`).
  - After the status check, the response is read into a fixed 256-byte buffer at a moving offset.
  - The filled part is decoded as UTF-8. When it decodes, it is appended to the accumulated text and the offset goes back to 0.
  - Otherwise the undecoded rest is moved to the front of the buffer with `copy_within`. That rest becomes the new offset.
  - UTF-8 well-formedness is the `UTF8-octets` rule of the ABNF in section 4 of RFC 3629 (`Utf8.Utf8Octets`). It is proved equal to the character-by-character scan that `core::str::from_utf8` performs. The error's `valid_up_to` is proved to be the length of the longest well-formed prefix.
  - The HTTP response is a `Response` object whose remaining body is a sequence of chunks. Its `Read` writes into the array `buf[from..]` and never delivers more than fits.
  - `Get`, `ReadBody` and `Absorb` are the imperative loop over that array. Their contracts are stated against the value model `Drain`.
- **Sunset parsing and the decision in `logic`** (`sunset.dfy`).
  - `parse_sunset_time` splits on `':'` and `' '`, keeps the tokens that parse as `u32`, and adds 12 when the text ends with `"PM"`. It then checks the range as `NaiveTime::from_hms_opt` does and resolves the result in the local time zone.
  - The text it is given is `Value::to_string` of the JSON field, with the JSON quotes kept.
  - The decision compares instants in seconds, with an offset of 3600 s.

The model follows the code:

- The code has no sunrise handling and no raise/lower actions.
- The LED branch cannot be reached.
- 12 AM and 12 PM are converted as the code does (see Findings).

Next to the code's own behaviour, the model gives a corrected reader (`DrainFixed`) and a corrected sunset path (`ParseTimeOfDayFixed`, `SunsetText`, `LogicFixed`), each with the intended property proved. `Get` and `Logic` stay as the code is written.

Panics are not exceptions here. An out-of-bounds `values[i]`, or a `u32` overflow of `values[0] + 12` in a build with overflow checks, is the `Panic` outcome. The order is the order in which Rust evaluates the operands. Whether overflow checks are on is the parameter `checked`. Without them the sum wraps.

## Model

| member | source | states |
|---|---|---|
| Utf8.ValidUpTo | src/http_client.rs:68 | the scanned length never exceeds the input; `LongestWellFormedPrefix` proves it is the longest well-formed prefix |
| Utf8.FromUtf8 | src/http_client.rs:62-68 | `from_utf8`: an error's `valid_up_to` is always short of the input; `FromUtf8Meaning` states the full meaning |
| Utf8.LeadLengthIsChar | src/http_client.rs:62 | the length `from_utf8` reads at the front is exactly that of the RFC 3629 `UTF8-char` the bytes start with; no other prefix length is a character; a byte in 80..C1 or F5..FF starts none |
| Utf8.Utf8OctetsIffWellFormed | src/http_client.rs:62 | the scan accepts a byte sequence exactly when it is RFC 3629 `UTF8-octets` |
| Utf8.WellFormedIffScanned | src/http_client.rs:62-63 | a sequence is well-formed exactly when the greedy scan consumes all of it |
| Utf8.ValidPrefixWellFormed | src/http_client.rs:68-70 | the prefix up to `valid_up_to` is well-formed |
| Utf8.WellFormedPrefixBound | src/http_client.rs:68 | no well-formed prefix is longer than `valid_up_to` |
| Utf8.LongestWellFormedPrefix | src/http_client.rs:68 | `valid_up_to` is the length of the longest well-formed prefix |
| Utf8.FromUtf8Meaning | src/http_client.rs:62-68 | `from_utf8` is Ok exactly on well-formed input; on error, `valid_up_to` is below the length, its prefix is well-formed and every longer prefix is not |
| Utf8.WellFormedConcat | src/http_client.rs:64 | appending well-formed text to well-formed text keeps it well-formed |
| Utf8.PrefixOfWellFormed | src/http_client.rs:67-73 | on a prefix of well-formed text the scan stops on a character boundary of the whole, leaving at most 3 bytes that start no complete character |
| Utf8.CarryOver | src/http_client.rs:67-73 | what a failed decode leaves over, followed by the rest of well-formed text, is again well-formed and at most 3 bytes |
| HttpClient.NextRead | src/http_client.rs:55 | one `Read::read` into a slice with room for `cap` bytes delivers at most `cap` bytes |
| HttpClient.NextReadShrinks | src/http_client.rs:55 | a read that delivers bytes leaves less in the stream |
| HttpClient.NextReadConcat | src/http_client.rs:55 | the delivered bytes followed by what is left are the body, in order |
| HttpClient.NextReadAppend | src/http_client.rs:55 | a read never looks past the chunk it reads from |
| HttpClient.Drain | src/http_client.rs:54-81 | the value model of the read loop (`pending` is `buf[..offset]`, `total` is `total_str`); its meaning is stated by `DrainWellFormed`, `DrainExtends`, `DrainAllDecoded`, `DrainDropsPending`, `DrainStopsAt` and `DrainStuck`, and `ReadBody` is proved equal to it |
| HttpClient.GetSpec | src/http_client.rs:43-84 | the result is an error exactly when the status is outside 200..=299, with that status as its code |
| HttpClient.DrainWellFormed | src/http_client.rs:53-66 | the accumulated text is always well-formed UTF-8 |
| HttpClient.DrainExtends | src/http_client.rs:63-64 | accumulated text is never taken back |
| HttpClient.DrainAllDecoded | src/http_client.rs:54-66 | when every chunk decodes on its own, the result is all chunks concatenated in order |
| HttpClient.DrainDropsPending | src/http_client.rs:54-79 | end of body, a 0-byte read and a read error all return the text so far: pending bytes are dropped and the error is reported as Ok |
| HttpClient.DrainStopsAt | src/http_client.rs:54-79 | nothing after a failing or 0-byte read is ever read |
| HttpClient.DrainStuck | src/http_client.rs:57-74 | once the carried bytes start with a byte that starts no character, nothing more is appended and the rest of the body is lost |
| HttpClient.CopyWithin | src/http_client.rs:72 | `buf.copy_within(src.., 0)`: the front of the buffer becomes the old `buf[src..]` and the tail is unchanged |
| HttpClient.Response.constructor | src/http_client.rs:52 | the reader starts with the whole body to deliver |
| HttpClient.Response.Read | src/http_client.rs:55 | a read writes its bytes at `buf[from..from+size]`, leaves `buf[..from]` alone and `size <= len - from`; a failed read changes nothing in the buffer |
| HttpClient.DrainAfterRead | src/http_client.rs:61-74 | one turn of the loop takes the value model one read further |
| HttpClient.Get | src/http_client.rs:43-84 | the result is `GetSpec` of the status and the body; an Ok text is well-formed; on a bad status the body is not read |
| HttpClient.ReadBody | src/http_client.rs:50-81 | the loop over `buf`, `offset` and `total_str` returns `Drain` of the body |
| HttpClient.Absorb | src/http_client.rs:61-74 | a decoding window is appended and the offset reset; otherwise the text is unchanged, `offset = size_plus_offset - valid_up_to` and `buf[..offset]` is the old `buf[valid_up_to..size_plus_offset]` |
| HttpClient.DrainFixed | src/http_client.rs:54-81 | the corrected loop, which appends `buf[..valid_up_to]` on a failed decode, never takes back accumulated text; `DrainFixedReassembles` proves that it reads back every well-formed body |
| HttpClient.NextReadKeepsData | src/http_client.rs:55 | reading from non-empty data succeeds and leaves non-empty data |
| HttpClient.DrainFixedReassembles | src/http_client.rs:67-74 | with the valid prefix appended, any split of a well-formed body into chunks reads back the whole body |
| HttpClient.SplitBodyAsWritten | src/http_client.rs:67-74 | on "Aé" split inside "é", the loop as written returns only "é" |
| HttpClient.SplitBodyFixed | src/http_client.rs:67-74 | on the same body, the corrected loop returns "Aé" |
| HttpClient.SplitCharacterLosesPrefix | src/http_client.rs:67-74 | a well-formed body exists on which the loop as written loses text and the corrected loop does not |
| SunsetLogic.Split | src/main.rs:33 | `split(&[':', ' '])` always gives at least one piece |
| SunsetLogic.SplitNoSeparator | src/main.rs:33 | a string without separators is one piece |
| SunsetLogic.SplitAtSeparator | src/main.rs:33 | splitting `a + [sep] + b` gives the pieces of `a` and then those of `b` |
| SunsetLogic.SplitFour | src/main.rs:33 | four separator-free pieces joined by three separators split back into those pieces |
| SunsetLogic.ParseU32 | src/main.rs:34 | a parsed `u32` is at most u32::MAX |
| SunsetLogic.ParseU32RoundTrip | src/main.rs:34 | every number up to u32::MAX parses back from its decimal numeral |
| SunsetLogic.ParseU32RejectsStart | src/main.rs:34 | a token starting with neither a digit nor '+' does not parse |
| SunsetLogic.ParseTwoDigits | src/main.rs:34 | a zero-padded two-digit field parses as its value |
| SunsetLogic.NumericValues | src/main.rs:32-35 | `flat_map(parse).collect()` keeps at most as many values as tokens, each a `u32` |
| SunsetLogic.NumericValuesConcat | src/main.rs:32-35 | the values of two token lists together are the values of each in turn |
| SunsetLogic.NumericValuesSingle | src/main.rs:34 | a single token contributes its value when it parses and nothing otherwise |
| SunsetLogic.FromHmsOpt | src/main.rs:40-41 | a time exists exactly when hour < 24, minute < 60 and second < 60 |
| SunsetLogic.AddU32 | src/main.rs:40 | `values[0] + after_noon` on u32: exact when it fits; otherwise it panics with overflow checks on, and without them it is the sum minus 2^32 |
| SunsetLogic.ParseTimeOfDay | src/main.rs:32-41 | with three or more values the result is the time (`values[0]` + 12 exactly when the text ends with "PM", wrapped when overflow checks are off; `values[1]`; `values[2]`) when it is in range and `CouldNotParse` when the hour is >= 24 or the minute or second >= 60; an overflowing hour with checks on panics; fewer than three values panics |
| SunsetLogic.Resolve | src/main.rs:42-47 | a resolved sunset exists exactly when the parse gave a time and the zone gives a single instant for it on today's date; it panics exactly when the parse did; `LocalResolution` gives every case |
| SunsetLogic.ParseSunsetTime | src/main.rs:30-48 | `parse_sunset_time` succeeds only when the time of day parses, panics exactly when that parse panics, and passes its `CouldNotParse` through |
| SunsetLogic.LocalResolution | src/main.rs:42-47 | on today's local date, Single gives that instant, Ambiguous and None are errors, and parse failures pass through |
| SunsetLogic.FixedOffsetIsToday | src/main.rs:42-44 | in a zone without daylight saving, the time resolves to that time of day on `now`'s local day |
| SunsetLogic.VendorValues | src/main.rs:32-36 | the numbers of a vendor string "H:MM:SS AM/PM" are exactly [H, MM, SS], and it ends with "PM" exactly for PM |
| SunsetLogic.VendorRoundTrip | src/main.rs:32-41 | as written, a vendor time reads as hour H for AM and H + 12 for PM, so 12 AM is noon and 12 PM is an error |
| SunsetLogic.Hour24 | src/main.rs:36-40 | the corrected 24-hour hour is below 24 and is >= 12 exactly after noon |
| SunsetLogic.Hour12 | src/main.rs:36-40 | the 12-hour reading of an hour is between 1 and 12 |
| SunsetLogic.Hour24Bijection | src/main.rs:36-40 | Hour24 and Hour12 are inverse: the corrected conversion is a bijection onto 0..23 |
| SunsetLogic.ParseTimeOfDayFixed | src/main.rs:32-41 | the corrected parse gives only times in range |
| SunsetLogic.VendorRoundTripFixed | src/main.rs:32-41 | with the corrected conversion, every vendor time reads as the time it names |
| SunsetLogic.EscapeChar | src/main.rs:58 | serde_json escapes quote, backslash and control characters and keeps every other character |
| SunsetLogic.Display | src/main.rs:58 | `Value::to_string` of a string starts and ends with a quote; Null is written `null` |
| SunsetLogic.EscapePlain | src/main.rs:58 | text with nothing to escape is written unchanged |
| SunsetLogic.DisplayQuotes | src/main.rs:58 | `to_string` of a string value with nothing to escape is exactly that text between quotes |
| SunsetLogic.ShownVendorTime | src/main.rs:58 | the shown vendor field is the vendor string between quotes |
| SunsetLogic.ShownVendorValues | src/main.rs:32-58 | in the shown field only minutes and seconds are numbers |
| SunsetLogic.QuotedVendorTimePanics | src/main.rs:32-58 | for every vendor time, the quoted text never ends with "PM" and parsing it panics on `values[2]` |
| SunsetLogic.MissingFieldPanics | src/main.rs:40-58 | a missing field shows as `null` and parsing it panics |
| SunsetLogic.SunsetText | src/main.rs:58 | the corrected field reading gives a string field's text and an error for anything else |
| SunsetLogic.RawVendorTimeParses | src/main.rs:32-58 | read as text, the vendor field parses, with the corrected conversion, as the time it names |
| SunsetLogic.Decide | src/main.rs:83-91 | the LED branch is never taken; long sleep exactly when now > sunset + 3600 s, short sleep otherwise |
| SunsetLogic.LedConditionUnsatisfiable | src/main.rs:84 | no time is both before sunset - offset and after sunset + offset, for any offset >= 0 |
| SunsetLogic.Logic | src/main.rs:82-91 | a decision reached is never the LED branch |
| SunsetLogic.LogicPanicsOnVendorField | src/main.rs:58-82 | on every vendor answer, `logic` as written panics before the decision |
| SunsetLogic.LogicFixed | src/main.rs:82-91 | the corrected path never panics and never takes the LED branch |
| SunsetLogic.LogicFixedOnVendorField | src/main.rs:82-91 | with the corrections, in a zone without daylight saving, every vendor answer is decided against the sunset it names on today's date |

## Left out

- TLS, certificates and request submission (src/http_client.rs:12-38) are foreign calls. The response is modelled by its status and a finite sequence of chunks. A chunk is data, the end of the body (an empty chunk) or a failing read.
- The `print!` of the valid prefix (src/http_client.rs:69-71) has no observable effect on the result, so it is left out.
- Wi-Fi, GPIO, the LED driver, runtime bootstrap, logging and the SNTP busy-wait in `main`/`logic`, and the sequencing of those effects, are I/O. `logic` is modelled from the parse on (src/main.rs:82-91). The current time and the time zone are parameters.
- serde_json's parser is a foreign library. The field is given as a value, either a string or Null for a missing key. `Display` covers those two kinds. Numbers, booleans, arrays and objects are left out, and so is the `?` on a JSON syntax error.
- chrono's time-zone database is external data. It is the oracle `tz`, which answers Single, Ambiguous or None.
- chrono's panic when `sunset ± 60 min` leaves its representable range is left out, because instants are unbounded integers.
- SunsetLogic.Decide: `DateTime<Local>` is compared by its UTC instant in whole seconds. `now` comes from `SystemTime::now()` and has a sub-second part, which the model drops. At the boundary this changes the branch: when `now` is sunset + 3600 s plus a fraction of a second, the source's `now > sunset + offet_mins` holds and the long-sleep branch runs, but the truncated `now` gives `ShortSleep`. Leap seconds, which chrono keeps in the nanosecond field, are not modelled either.
- HttpClient.GetSpec: the status is any integer. The HTTP client's own range of status codes is not modelled.
- Sunrise windows, raise/lower actions and a `MissingField` error do not exist in the code and are not modelled.

## Findings

| source | as written | input that shows it | evidently intended | confidence | as-written member | corrected member |
|---|---|---|---|---|---|---|
| src/http_client.rs:67-74 | on a failed decode only the valid prefix is printed, then the bytes after it are moved to the front; the prefix is never appended to `total_str` | body "Aé" delivered as [0x41, 0xC3] then [0xA9] returns "é" | append `buf[..valid_up_to]` to `total_str` before moving the rest, so any chunking of a well-formed body reads back the whole body | high, not executed | HttpClient.SplitBodyAsWritten | HttpClient.DrainFixedReassembles |
| src/main.rs:58 | `value["results"]["sunset"].to_string()` keeps the JSON quotes, so the hour token is `"5` and the text ends with `M"` | field "5:22:11 PM" shown as "\"5:22:11 PM\"" gives values [22, 11] and panics on `values[2]` | read the string itself (`as_str()`), so the vendor text reaches the parser | high, not executed | SunsetLogic.QuotedVendorTimePanics | SunsetLogic.RawVendorTimeParses |
| src/main.rs:36-40 | 12 is added to every PM hour and nothing is done for AM | "12:05:00 PM" gives hour 24, which is rejected; "12:05:00 AM" gives 12:05, which is noon | hour modulo 12, plus 12 after noon | high, not executed | SunsetLogic.VendorRoundTrip | SunsetLogic.VendorRoundTripFixed |
