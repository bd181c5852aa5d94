# meCoffee telemetry decoder and coordinator store

This project models the Home Assistant meCoffee integration's data update coordinator
(`MeCoffeeDataUpdateCoordinator`). A meCoffee espresso-machine controller sends one-line
text frames over Bluetooth. The device's format names the tokens as follows:

    tmp <uptime> <setpoint> <temperature in 1/100 °C> <aux> OK
    pid <power raw> <i> <d> <active> OK
    sht <uptime> <duration in ms> OK

The handler checks none of these names, nor the trailing `OK`. It looks only at the tag, the
number of tokens, and the one token it reads: index 3 for `tmp`, 1 for `pid` and 2 for `sht`.

The coordinator's Bluetooth handler works in these steps:

1. It decodes the bytes as UTF-8, strips the text and splits it on whitespace.
2. It dispatches on the first token.
3. It reads one fixed-position token with `float` and converts it.
4. It overwrites at most one of its three nullable fields: temperature, heater power or shot duration.
5. It notifies listeners.

A frame with no tokens returns early. A `ValueError` or `UnicodeDecodeError` is caught before any field is written.

The modules:

- `Wrappers`: the `Option` type, used for Python's `None`-or-value fields.
- `Text`: Python's `str.isspace`, `str.strip()` and `str.split()`, and a canonical `Join` (tokens separated by single spaces) used to build frames in lemmas.
- `Numbers`: `float(token)` restricted to signed decimal literals, with exact real values. `ShowInt` is the decimal form of an integer.
- `Protocol`:
  - the tags, the per-tag minimum token counts, field positions and unit conversions;
  - `DecodeTokens`, the dispatch on a token list;
  - `DecodeFrame`, the whole pipeline from decoded text to an `Outcome`.
- `Coordinator`:
  - the three fields as a `Telemetry` value;
  - `Step`, the effect of one frame's outcome, and `Replay`, the effect of a history of frames;
  - the class `Store`. Only its methods `HandleFrame` and `Dispatch`, which model the handler, assign the fields in place. The three getters and `Snapshot`, the dict that `_async_update_data` returns, are read-only functions.

An `Outcome` is one of three cases:

- `EmptyFrame`: the early return on a blank frame.
- `Failed(DecodeError | ParseError)`: a caught exception.
- `Handled(update)`: the dispatch completed. It notifies listeners, and `update` is `None` for a short frame or an unknown tag.

A `Store` keeps a ghost history of outcomes. Its invariant `Valid` says that the fields are `Replay(history)` and that the notification counter is the number of handled frames.

Two definitions carry no contract of their own. `Protocol.Read` is `float` of a token followed by the unit conversion, with a `ValueError` as `Failed(ParseError)`. `Coordinator.Notifies` says whether the handler reaches `async_set_updated_data` (coordinator.py:78). What they mean is stated by the lemmas `DecodeTokensByTag`, `FrameEffect`, `UnknownTagEffect` and `SilentFrames`, and by `Store.Dispatch` and `Store.HandleFrame`.

Two consequences of the code are worth stating:

- `pid 30000 1500 200 1 OK` sets the power to 30000 / 655.36, because the handler reads `parts[1]` (coordinator.py:74). See `SamplePower` and `PowerFrame`.
- A short frame or an unknown tag falls through the `if`/`elif` chain to `async_set_updated_data` (coordinator.py:78). Listeners are therefore notified although no field changes (`FrameEffect`, `UnknownTagEffect`). Only a caught exception or the early return on a blank frame skips the notification.

`Protocol.IntFrame`, `Protocol.IntFrameWords`, `Protocol.ShowIntIsWord` and `Protocol.FixedWords` are helpers that build frames from integer fields for the lemmas. They model no line of the handler and have no row below.

## Model

| member | source | states |
|---|---|---|
| Text.StripStart | custom_components/mecoffee/coordinator.py:64 | `lstrip` never lengthens the text. It is empty exactly when the text is all whitespace, and otherwise starts with a non-space and keeps the last character |
| Text.StripEnd | custom_components/mecoffee/coordinator.py:64 | `rstrip` never lengthens the text. It is empty exactly when the text is all whitespace, and otherwise ends with a non-space and keeps the first character |
| Text.Strip | custom_components/mecoffee/coordinator.py:64 | `strip()` never lengthens the text. It is empty exactly when the text is all whitespace, and otherwise neither starts nor ends with whitespace |
| Text.StripStartDrops | custom_components/mecoffee/coordinator.py:64 | `lstrip` removes exactly a prefix made of whitespace: the result is a suffix of the text and every dropped character is whitespace |
| Text.StripEndDrops | custom_components/mecoffee/coordinator.py:64 | `rstrip` removes exactly a suffix made of whitespace: the result is a prefix of the text and every dropped character is whitespace |
| Text.Split | custom_components/mecoffee/coordinator.py:66 | the scan behind `split()` yields only non-empty tokens free of whitespace. It yields none exactly when no word is pending and the rest is whitespace |
| Text.Tokenize | custom_components/mecoffee/coordinator.py:66 | `split()` yields non-empty whitespace-free tokens, and no token exactly when the text is all whitespace (the `if not parts` case) |
| Text.TokenizeStrip | custom_components/mecoffee/coordinator.py:64-66 | splitting the stripped message gives the same tokens as splitting the raw text |
| Text.TokenizeStripStart | custom_components/mecoffee/coordinator.py:64-66 | leading whitespace never changes the tokens |
| Text.TokenizeStripEnd | custom_components/mecoffee/coordinator.py:64-66 | trailing whitespace never changes the tokens |
| Text.SplitAppendSpace | custom_components/mecoffee/coordinator.py:66 | a whitespace character after the last token adds no token |
| Text.SplitSkipSpace | custom_components/mecoffee/coordinator.py:66 | with no word pending, leading whitespace adds no token |
| Text.SplitGap | custom_components/mecoffee/coordinator.py:66 | a non-empty run of whitespace ends the pending word, and the scan after it starts afresh |
| Text.TokenizeGap | custom_components/mecoffee/coordinator.py:66 | splitting two texts joined by a non-empty run of whitespace gives the tokens of the first followed by the tokens of the second |
| Text.SplitWord | custom_components/mecoffee/coordinator.py:66 | a run of non-whitespace only extends the word being read |
| Text.TokenizeJoin | custom_components/mecoffee/coordinator.py:66 | splitting tokens joined by single spaces gives back exactly those tokens (round trip) |
| Numbers.IndexOf | custom_components/mecoffee/coordinator.py:72 | the position of the first `.` in a literal, or its length when there is none |
| Numbers.ParseUnsigned | custom_components/mecoffee/coordinator.py:72 | an accepted unsigned literal holds a digit and only digits and `.`, and its value is not negative. `ParseUnsignedAccepts`, `ParseInteger` and `ParseDecimal` pin what it accepts and its value |
| Numbers.ParseNum | custom_components/mecoffee/coordinator.py:72-76 | `float(token)` accepts only tokens with a digit and only sign, digit and `.` characters. A leading `-` gives a value of at most 0, and anything else a value of at least 0. `ParseNumAccepts`, `ParsePlus` and `ParseMinus` pin what it accepts and its value |
| Numbers.DigitsValueAppend | custom_components/mecoffee/coordinator.py:72 | appending digits to a digit string multiplies its value by ten to their count and adds theirs |
| Numbers.Decimal | custom_components/mecoffee/coordinator.py:72 | the value of a literal with a whole part and fraction digits is not negative, and is the whole part when the fraction is zero |
| Numbers.ParseDot | custom_components/mecoffee/coordinator.py:72 | `w.f` is split at its only `.`: its value is `w` plus `f` over ten to the number of fraction digits |
| Numbers.ParseUnsignedAccepts | custom_components/mecoffee/coordinator.py:72-76 | an unsigned token is accepted exactly when it has only digits and `.`, at most one `.` and at least one digit, so `1.2.3`, `.` and the empty token raise `ValueError` |
| Numbers.ParseNumAccepts | custom_components/mecoffee/coordinator.py:72-76 | `float` accepts exactly such a literal, optionally behind one `+` or `-`; anything else raises `ValueError` |
| Numbers.ParseInteger | custom_components/mecoffee/coordinator.py:72-76 | any digit string, leading zeros included, reads as the number its digits denote (`007` is 7) |
| Numbers.ParseDecimal | custom_components/mecoffee/coordinator.py:72-76 | `w.f` reads as the digits of `w` then `f` divided by ten to the number of fraction digits (`92.5` is 925 / 10), including `5.` and `.5` |
| Numbers.ParsePlus | custom_components/mecoffee/coordinator.py:72-76 | a leading `+` keeps the value of the literal after it (`+5` is 5) |
| Numbers.ParseMinus | custom_components/mecoffee/coordinator.py:72-76 | a leading `-` negates the value of the literal after it, and is rejected exactly when that literal is |
| Numbers.ShowNat | custom_components/mecoffee/coordinator.py:72 | the decimal form of a natural number is a non-empty digit string |
| Numbers.DigitsValueShowNat | custom_components/mecoffee/coordinator.py:72 | the digits of `n` denote `n` |
| Numbers.ParseShowNat | custom_components/mecoffee/coordinator.py:72 | `float` of the decimal form of a natural number is that number |
| Numbers.ParseShowInt | custom_components/mecoffee/coordinator.py:72-76 | `float` of the decimal form of any integer is that integer, sign included (round trip) |
| Protocol.FieldIndex | custom_components/mecoffee/coordinator.py:71-76 | the token each tag reads (3, 1, 2) lies after the tag and below the tag's minimum count (4, 5, 3), so the read never raises `IndexError` |
| Protocol.TagsDistinct | custom_components/mecoffee/const.py:29-31 | the tags `tmp`, `pid` and `sht` are pairwise different, so at most one branch matches |
| Protocol.Convert | custom_components/mecoffee/coordinator.py:71-76 | the unit conversions: temperature × 100 is the raw value, power × 65536 is raw × 100 (division by 655.36), shot duration × 1000 is the raw value; each keeps the sign of the raw value and maps 0 to 0 |
| Protocol.DecodeTokens | custom_components/mecoffee/coordinator.py:68-76 | the dispatch returns early exactly on an empty token list. Its only failure is a `ValueError`, and an update always carries the frame's own tag with at least the tag's minimum number of tokens |
| Protocol.DecodeFrame | custom_components/mecoffee/coordinator.py:61-81 | the handler fails on decoding exactly when the bytes are not UTF-8, and returns early exactly when the text is all whitespace |
| Protocol.DecodeTokensByTag | custom_components/mecoffee/coordinator.py:71-76 | the dispatch as a table. A known tag with too few tokens gives no update. Otherwise the outcome is `Read` of exactly the tag's token: a `ValueError` when `float` rejects it, else the converted value. An unknown tag gives no update |
| Protocol.ExtraTokensIgnored | custom_components/mecoffee/coordinator.py:66-76 | appending tokens to a frame that is long enough for its tag never changes the outcome |
| Protocol.TrailingTextIgnored | custom_components/mecoffee/coordinator.py:64-76 | text after a complete frame, separated by whitespace, never changes the outcome |
| Protocol.DecodeFrameText | custom_components/mecoffee/coordinator.py:64-66 | decoding a frame equals dispatching on the tokens of its unstripped text |
| Protocol.DecodeJoined | custom_components/mecoffee/coordinator.py:64-76 | decoding tokens joined by single spaces is the dispatch on exactly those tokens |
| Protocol.WellFormedFrame | custom_components/mecoffee/coordinator.py:71-76 | a canonical frame (its tokens joined by single spaces) with a metric's tag, enough tokens and a literal at the metric's index decodes to an update of that metric with the converted literal. `FrameEffect` covers arbitrary frame text |
| Protocol.IntFrameDecodes | custom_components/mecoffee/coordinator.py:71-76 | an integer frame long enough for its tag decodes to the converted value of the field at the tag's index |
| Protocol.TemperatureFrame | custom_components/mecoffee/coordinator.py:71-72 | `tmp u s t a OK` sets the temperature to t × 0.01 °C, reading the fourth token |
| Protocol.PowerFrame | custom_components/mecoffee/coordinator.py:73-74 | `pid p i d a OK` sets the power to p × 100 / 65536 percent, reading the token right after the tag |
| Protocol.ShotFrame | custom_components/mecoffee/coordinator.py:75-76 | `sht u ms OK` sets the shot duration to ms / 1000 s |
| Coordinator.Apply | custom_components/mecoffee/coordinator.py:71-76 | writing an update sets its metric's field to the value and leaves the other two fields as they were |
| Coordinator.Step | custom_components/mecoffee/coordinator.py:71-81 | after one frame, a field holds the frame's value for it if the frame wrote one, and otherwise its old value; at most one field changes |
| Coordinator.ReplaySnoc | custom_components/mecoffee/coordinator.py:61-81 | handling one more frame applies its effect to the fields, and adds one to the notification count exactly when the frame notifies |
| Coordinator.ReplayLatest | custom_components/mecoffee/coordinator.py:71-76 | each field holds the value of the most recent frame that wrote it; later frames that do not write it leave it alone |
| Coordinator.ReplayNever | custom_components/mecoffee/coordinator.py:27-29 | a field stays `None` until some frame writes it |
| Coordinator.NoUpdateNoChange | custom_components/mecoffee/coordinator.py:68-81 | a frame without an update (blank, undecodable, unparsable, short or unknown) leaves every field unchanged |
| Coordinator.HandleTwice | custom_components/mecoffee/coordinator.py:61-81 | handling the same frame twice leaves the fields as handling it once |
| Coordinator.FrameEffect | custom_components/mecoffee/coordinator.py:71-81 | for a frame with a known tag: too few tokens changes nothing but notifies; a non-numeric token changes nothing and does not notify; otherwise only that metric's field changes, to the converted value, and listeners are notified. `Notifies` holds exactly in the notifying cases |
| Coordinator.UnknownTagEffect | custom_components/mecoffee/coordinator.py:71-78 | an unknown tag changes nothing, yet listeners are notified |
| Coordinator.SilentFrames | custom_components/mecoffee/coordinator.py:63-81 | a blank frame or bytes that are not UTF-8 change nothing and notify nobody |
| Coordinator.ReplayThree | custom_components/mecoffee/coordinator.py:61-81 | three frames in turn apply their three effects in order |
| Coordinator.SampleTemperature | custom_components/mecoffee/coordinator.py:71-72 | `tmp 1200 9300 9250 0 OK` reads 92.5 °C |
| Coordinator.SamplePower | custom_components/mecoffee/coordinator.py:73-74 | `pid 30000 1500 200 1 OK` reads 30000 / 655.36 percent |
| Coordinator.SampleShot | custom_components/mecoffee/coordinator.py:75-76 | `sht 5000 18500 OK` reads 18.5 s |
| Coordinator.SampleSession | custom_components/mecoffee/coordinator.py:27-76 | the three sample frames in turn leave all three fields set to 92.5, 30000 / 655.36 and 18.5 |
| Coordinator.SampleShortPower | custom_components/mecoffee/coordinator.py:73 | a four-token `pid` frame gives no update, although index 1 exists |
| Coordinator.SampleUnknownTag | custom_components/mecoffee/coordinator.py:71-76 | `foo bar` gives no update |
| Coordinator.SampleBadNumber | custom_components/mecoffee/coordinator.py:72-81 | `tmp 1200 9300 hot` is a caught `ValueError` |
| Coordinator.Store.constructor | custom_components/mecoffee/coordinator.py:27-29 | a fresh coordinator has all three fields `None`, no notification and an empty history, and is valid |
| Coordinator.Store.Temperature | custom_components/mecoffee/coordinator.py:31-34 | the `temperature` property is the temperature field of the replayed history |
| Coordinator.Store.Power | custom_components/mecoffee/coordinator.py:36-39 | the `power` property is the power field of the replayed history |
| Coordinator.Store.ShotDuration | custom_components/mecoffee/coordinator.py:41-44 | the `shot_duration` property is the shot-duration field of the replayed history |
| Coordinator.Store.Snapshot | custom_components/mecoffee/coordinator.py:46-56 | the update dict holds exactly the three getters' values, which are the replayed history |
| Coordinator.Store.HandleFrame | custom_components/mecoffee/coordinator.py:61-81 | the handler keeps the store valid and appends the frame's outcome to the history. The fields become the frame's effect on the old fields, and the counter grows by one exactly when the frame notifies |
| Coordinator.Store.Dispatch | custom_components/mecoffee/coordinator.py:71-78 | the `if`/`elif` chain changes the fields by exactly the dispatch's outcome, with no partial write on a `ValueError`. It notifies exactly when `Notifies` holds of that outcome, which is when no exception was raised |
| Coordinator.SampleStoreSession | custom_components/mecoffee/coordinator.py:17-81 | a fresh coordinator fed the three sample frames reports 92.5 °C, 30000 / 655.36 % and 18.5 s |

## Left out

- UTF-8 decoding (`data.decode('utf-8')`, coordinator.py:64) is taken as an input `Option<string>`. `None` stands for a `UnicodeDecodeError`, and the byte-level decoder is not modelled.
- Numbers.ParseNum: weaker than Python `float`. It accepts only an optional `+` or `-` followed by digits with at most one `.` and at least one digit (`ParseNumAccepts`). Python also accepts `inf`, `nan`, exponents, underscores between digits, non-ASCII digits and surrounding whitespace. A token that `float` would accept in those forms is modelled as a `ValueError`, and `-0.0` is the real 0.
- The conversions use exact real arithmetic (`× 0.01`, `/ 655.36`, `/ 1000`). IEEE-754 rounding of Python floats is not modelled.
- `IndexError` is in the caught set, but the length guards make it unreachable, so the model has no outcome for it (`FieldIndex` proves the bound).
- `async_set_updated_data(self._async_update_data())` (coordinator.py:78) is modelled as a notification counter. The asynchronous call, the un-awaited coroutine it passes and the listeners are framework behaviour.
- The coordinator's one-second polling timer and its base-class construction (coordinator.py:20-25) are not modelled. Neither is the `except`/re-raise around the dict in `_async_update_data`, which cannot raise.
- The dict keys `temperature`, `power` and `shot_duration` correspond to the fields `temperature`, `power` and `shotDuration` of the `Telemetry` datatype.
- Logging calls are left out.
- Entry setup, the config flow, the sensor entities, the manifest load and Bluetooth subscription (`__init__.py`, `config_flow.py`, `sensor.py`, `const.py` apart from the three tags and the temperature multiplier) are Home Assistant framework code and I/O, and are not part of this model.
