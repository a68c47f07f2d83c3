# DaplugKeyboard script builder, in Dafny

The Daplug token runs a keyboard script from its keyboard file. The script
is a stream of records. Each record is a tag byte, a length byte and a
body, written as upper-case hexadecimal text. `DaplugKeyboard` builds that
text. It keeps two fields:

- `content`, the hex text built so far;
- `currentContentSize`, the byte counter beside it.

Every `add…` command does the same four things:

1. It renders one record with fixed-width hex formatting (`%02X`, `%04X`, `%08X`).
2. It counts the record's bytes as half its characters.
3. It checks the counter against the capacity `MAX_KB_CONTENT_SIZE`.
4. It appends the record and advances the counter, or throws.

Text is the exception. Windows and Mac text is split into chunk records, and
those are appended one by one, in a loop.

The project has five modules:

- `Hex` (`hex.dfy`):
  - fixed-width hex rendering (`Hex2`, `Hex4`, `Hex8`) and its decoder `HexValue`;
  - ASCII-to-hex conversion and upper-casing.
- `Records` (`records.dfy`):
  - the record framing (`EncodeRecord`) and a parser for it (`ParseRecords`);
  - the exact hex each single-record command appends.
- `Script` (`script.dfy`):
  - the builder's state as a value (`Buffer`) and the outcomes a command can end with;
  - the capacity gate `keyboard_add` as the function `Append`;
  - `addAsciiText` as `AsciiText`, and `zeroPad` as `PadSpec`.
- `TextChunks` (`text.dfy`):
  - the chunking of the text loops as written (`WrittenChunks`);
  - what the loops do to the script (`RunChunks`, `TextSpec`);
  - the chunking and appending as evidently intended (`IntendedChunks`, `IntendedTextAppend`).
- `Keyboard` (`keyboard.dfy`): the class `DaplugKeyboard` itself.

In the class, the fields are `var`s that the methods update in place. The
loops of `addTextWindows`, `p_addTextMac` and `zeroPad` are `while` loops
with their invariants. Each method's postcondition ties the new state and
the outcome to the matching function of the other modules. The properties
are proved about those functions.

The class models the code as written, including its quirks:

- every full text chunk carries one character less than its header declares;
- the payload's capacity check does not yet count the header just appended;
- `addAsciiText`, `addIfPC` and `addIfMac` swallow their overflow;
- `zeroPad` keeps the bytes that fitted before it fails;
- a text command that fails keeps the chunks it already appended.

These behaviours differ from the format's evident intent, which the
code's own record format and capacity gate show:

- A record's length byte tells a reader where the next record starts.
  A full chunk whose header declares `W` bytes but carries `W-1` breaks
  that framing: `ParseRecords` reads a record list back only when every
  length byte matches its body (`ParseEncode`, `WrittenChunkShortByOne`).
  This is Finding 1.
- `keyboard_add` (DaplugKeyboard.java:530-542) is an all-or-nothing gate:
  it appends a record and counts it, or changes nothing. The text loops
  and `zeroPad` call that gate once per chunk or byte, so a failure keeps
  what the earlier calls appended. The text loops also count each header
  after the payload's check, which lets the counter pass the capacity.
  This is Finding 2.

The model follows the code.

The corrected behaviour is given as separate definitions, with the
intended properties proved about them (see "## Findings"). The class
itself keeps the as-written behaviour, so that what it models is what the
code does.

How the class is organised:

- The three capacities `MAX_KB_CONTENT_SIZE`, `MAX_WINDOWS_TEXT_LEN` and
  `MAX_MAC_TEXT_LEN` are declared in `IKeyboard`, which is not part of this
  model. They become constructor parameters. Each text width is taken
  between 1 and 0xFC, so that a declared length (plus 3 for Mac) fits one
  byte.
- `addTextWindows` and `p_addTextMac` run the same loop with different
  headers. Their loop body is `EmitChunk` and their loop is `TextLoop`, and
  both commands call `TextLoop`.
- In both branches the bytes added per iteration are the header's length:
  `added_len` is computed from the full-width header, which is as long as
  the remainder header.
- In `p_addTextMac`, the remainder slice `text.length() % MAX_MAC_TEXT_LEN`
  is the same value as `last_part_len`.
- The invariant `Valid()` says the counter is half the content length, and
  at most one Mac header (5 bytes) past the capacity. Every command
  preserves it, given even-length keycodes.

## Model

| member | source | states |
|---|---|---|
| Hex.Hex2 | src/io/daplug/keyboard/DaplugKeyboard.java:322-324 | `%02X` of a byte always writes exactly two characters (their digits and value: `Hex.Hex2Value`) |
| Hex.Hex4 | src/io/daplug/keyboard/DaplugKeyboard.java:325 | `%04X` of a 16-bit value always writes exactly four characters (their digits and value: `Hex.Hex4Value`) |
| Hex.Hex8 | src/io/daplug/keyboard/DaplugKeyboard.java:442 | `%08X` of a 32-bit value always writes exactly eight characters (their digits and value: `Hex.Hex8Value`) |
| Hex.Hex2Value | src/io/daplug/keyboard/DaplugKeyboard.java:322-324 | `%02X` of a byte is two upper-case hex digits that decode back to that byte |
| Hex.Hex4Value | src/io/daplug/keyboard/DaplugKeyboard.java:325 | `%04X` of a 16-bit value is four upper-case hex digits that decode back to it |
| Hex.Hex8Value | src/io/daplug/keyboard/DaplugKeyboard.java:441-442 | `%08X` of a 32-bit value is eight upper-case hex digits that decode back to it |
| Hex.HexValueConcat | src/io/daplug/keyboard/DaplugKeyboard.java:322-328 | hex fields written one after another decode as the left field times 16 to the right field's width, plus the right field |
| Hex.Hex2Injective | src/io/daplug/keyboard/DaplugKeyboard.java:268 | two bytes render to the same two digits exactly when they are equal |
| Hex.AsciiToHex | src/io/daplug/keyboard/DaplugKeyboard.java:158 | the text's hex has two characters per input character, all upper-case hex digits |
| Hex.AsciiToHexConcat | src/io/daplug/keyboard/DaplugKeyboard.java:196-197 | converting a text in pieces gives the conversion of the whole text |
| Hex.Upper | src/io/daplug/keyboard/DaplugKeyboard.java:414-416 | upper-casing keeps the length and leaves no lower-case letter |
| Hex.UpperIdempotent | src/io/daplug/keyboard/DaplugKeyboard.java:414-416 | upper-casing twice is upper-casing once |
| Hex.UpperKeepsHexValue | src/io/daplug/keyboard/DaplugKeyboard.java:414-416 | upper-casing hex text keeps it hex and keeps the value it denotes |
| Hex.UpperOfUpperHex | src/io/daplug/keyboard/DaplugKeyboard.java:414-416 | upper-case hex text is unchanged by upper-casing |
| Records.ParseEncode | src/io/daplug/keyboard/DaplugKeyboard.java:274 | a script made of well-formed records (tag, length byte, body) parses back into exactly those records |
| Records.EncodeRecordsAppend | src/io/daplug/keyboard/DaplugKeyboard.java:536 | appending one record's hex to a script appends that record to its record list |
| Records.AppendKeepsFraming | src/io/daplug/keyboard/DaplugKeyboard.java:530-542 | a script of whole records plus one more whole record parses as the old records followed by the new one |
| Records.EncodeRecordsConcat | src/io/daplug/keyboard/DaplugKeyboard.java:188-221 | encoding two record lists one after the other is encoding their concatenation |
| Records.MarkerHex | src/io/daplug/keyboard/DaplugKeyboard.java:131-149 | `0E00`, `0F00` and `0D00` are each one well-formed record with tag 0x0E, 0x0F or 0x0D and an empty body |
| Records.ProbeHex | src/io/daplug/keyboard/DaplugKeyboard.java:544-598 | a probe is 12 hex characters, one well-formed record tagged 0x10 (or 0x02 for Win+R) whose literal length byte 04 matches its 4-byte body |
| Records.ProbeHead | src/io/daplug/keyboard/DaplugKeyboard.java:563 | the literals `1004` and `0204` are the tag byte followed by the length byte 4 |
| Records.ProbeFields | src/io/daplug/keyboard/DaplugKeyboard.java:582-592 | report count, delay and keycode decode back from characters 4-6, 6-10 and 10-12 of a probe |
| Records.KeyCodeHex | src/io/daplug/keyboard/DaplugKeyboard.java:264-304 | the keycode record is 4 characters longer than the code, and for an even-length code it is one well-formed record tagged 0x09 or 0x03 |
| Records.KeyCodeScenario | src/io/daplug/keyboard/DaplugKeyboard.java:264-280 | a raw keycode `1A` is appended as `09011A` |
| Records.SleepHex | src/io/daplug/keyboard/DaplugKeyboard.java:433-459 | a duration up to 0xFFFF gives the 8-character record `0102` plus 4 digits; a larger one gives the 12-character record `0104` plus 8 digits; both are well-formed records tagged 0x01 |
| Records.SleepDuration | src/io/daplug/keyboard/DaplugKeyboard.java:441-452 | the duration decodes back from the record's body at either width |
| Records.SleepDefault | src/io/daplug/keyboard/DaplugKeyboard.java:387-389 | the default duration 0xFFFF is written `0102FFFF` |
| Records.SleepWide | src/io/daplug/keyboard/DaplugKeyboard.java:441-449 | the duration 0x10000 takes the `0104` form, 12 characters long |
| Records.ValidDiversifier | src/io/daplug/keyboard/DaplugKeyboard.java:332 | a diversifier is accepted exactly when it is 32 hex digits |
| Records.HotpBody | src/io/daplug/keyboard/DaplugKeyboard.java:327-340 | the body `tmp` is the options, digit count and keyset bytes, the diversifier as given, then the counter file id, 10 characters plus the diversifier; each field decodes back from its fixed place |
| Records.HotpHex | src/io/daplug/keyboard/DaplugKeyboard.java:318-354 | the HOTP record exists exactly when the diversifier is empty or accepted; it is one well-formed record tagged 0x50, and its length byte decodes to 5 without a diversifier and 21 with one |
| Records.HotpBodyExample | src/io/daplug/keyboard/DaplugKeyboard.java:322-340 | options 1, 6 digits, keyset 1 and counter file 0x10 give the body `0106010010` |
| Records.HotpScenario | src/io/daplug/keyboard/DaplugKeyboard.java:318-354 | those parameters with no diversifier give `50050106010010` |
| Script.Append | src/io/daplug/keyboard/DaplugKeyboard.java:530-542 | the gate succeeds exactly when counter plus half the hex length is within the capacity; on success the hex is appended and the counter grows by exactly half its length, staying within capacity; on failure nothing changes and the error names the operation; the counter keeps tracking the content |
| Script.AsciiText | src/io/daplug/keyboard/DaplugKeyboard.java:156-164 | `addAsciiText` appends the text's hex and counts one byte per character exactly when that stays within the capacity, and otherwise changes nothing; the counter keeps tracking the content |
| Script.Zeros | src/io/daplug/keyboard/DaplugKeyboard.java:405 | `n` padding bytes are `2n` zero characters |
| Script.PadSpec | src/io/daplug/keyboard/DaplugKeyboard.java:398-411 | a target not above the counter is refused with no change; a target within capacity is reached exactly; otherwise zeros are added up to the capacity and then the error is raised; only zeros are ever appended |
| Script.AppendRecordKeepsFraming | src/io/daplug/keyboard/DaplugKeyboard.java:530-542 | offering one well-formed record to the gate leaves a script of whole records that gained that record, or nothing |
| TextChunks.ChunkCount | src/io/daplug/keyboard/DaplugKeyboard.java:184-187 | the trip count `nb` is the ceiling of the text length over the width: the chunks cover the text, and one chunk fewer would not |
| TextChunks.FullChunkTest | src/io/daplug/keyboard/DaplugKeyboard.java:190 | the loop takes the full-chunk branch exactly when at least `W` characters remain |
| TextChunks.WrittenChunks | src/io/daplug/keyboard/DaplugKeyboard.java:188-221 | empty text gives no chunk and other text some; every chunk declares between 1 and `W` characters |
| TextChunks.WrittenChunkCount | src/io/daplug/keyboard/DaplugKeyboard.java:184-187 | there are `L/W` chunks when `W` divides the length `L`, `L/W + 1` otherwise |
| TextChunks.WrittenChunkAt | src/io/daplug/keyboard/DaplugKeyboard.java:196-219 | chunk `k` starts at character `kW`; a full chunk declares `W` and carries the `W - 1` characters from there; a remainder carries the rest and is the last chunk |
| TextChunks.WrittenChunksEmpty | src/io/daplug/keyboard/DaplugKeyboard.java:184-188 | empty text gives no chunk and a trip count of 0 |
| TextChunks.NextChunk | src/io/daplug/keyboard/DaplugKeyboard.java:190-220 | one loop turn picks `text[i..i+W-1]` under the full header when records remain or the remainder is 0, and otherwise the remainder `text[i..i+last]`; afterwards the loop stands `W` characters and one chunk further on |
| TextChunks.CursorStart | src/io/daplug/keyboard/DaplugKeyboard.java:181-187 | the trip count the builder computes is the number of chunks, and a loop that runs at all starts at character 0 |
| TextChunks.ChunkChoice | src/io/daplug/keyboard/DaplugKeyboard.java:497-517 | the header and slice the builder writes in either branch are exactly the next chunk's header and characters |
| TextChunks.CursorNext | src/io/daplug/keyboard/DaplugKeyboard.java:219-220 | after `i += W; nb--`, the loop position again matches the remaining chunks |
| TextChunks.WrittenChunksDropCharacters | src/io/daplug/keyboard/DaplugKeyboard.java:196 | as written, the chunks carry `L - L/W` characters: one is lost per full chunk |
| TextChunks.WrittenChunksLoseText | src/io/daplug/keyboard/DaplugKeyboard.java:196 | `abc` in chunks of 2 is carried as `a` and `c` |
| TextChunks.IntendedChunks | src/io/daplug/keyboard/DaplugKeyboard.java:196 | every intended chunk declares between 1 and `W` characters and carries exactly what it declares |
| TextChunks.IntendedChunksReassemble | src/io/daplug/keyboard/DaplugKeyboard.java:184-221 | the intended chunks carry the whole text in order, in as many records as the loop's trip count |
| TextChunks.Header | src/io/daplug/keyboard/DaplugKeyboard.java:179-182 | a Windows header is 2 bytes and a Mac header 5 bytes |
| TextChunks.Render | src/io/daplug/keyboard/DaplugKeyboard.java:193-197 | a chunk renders to a header of the format's size and two payload characters per character carried |
| TextChunks.ChunksHexLength | src/io/daplug/keyboard/DaplugKeyboard.java:189-200 | the hex of a list of chunks has two characters for every byte the loop counts for them |
| TextChunks.ChunkFraming | src/io/daplug/keyboard/DaplugKeyboard.java:205-214 | a chunk that carries what it declares renders to exactly one well-formed record, tagged 0x04, or 0x11 with the layout byte and delay ahead of the text |
| TextChunks.WrittenChunkShortByOne | src/io/daplug/keyboard/DaplugKeyboard.java:193-196 | as written, a full chunk declares `W` but its payload holds `W - 1` bytes |
| TextChunks.IntendedChunksFraming | src/io/daplug/keyboard/DaplugKeyboard.java:188-221 | intended chunks render to exactly their well-formed records, in order |
| TextChunks.PieceStep | src/io/daplug/keyboard/DaplugKeyboard.java:190-203 | one iteration fails exactly when the header bytes would pass the capacity, and then changes nothing and names the text operation |
| TextChunks.PieceStepBounds | src/io/daplug/keyboard/DaplugKeyboard.java:191-200 | one iteration keeps the counter tracking the content and only appends; when accepted, it leaves the counter at most one header past the capacity |
| TextChunks.RunChunks | src/io/daplug/keyboard/DaplugKeyboard.java:188-221 | the loop ends with success or with the text operation's capacity error |
| TextChunks.LoopStep | src/io/daplug/keyboard/DaplugKeyboard.java:188-221 | a refused header ends the loop where it stands, while an accepted one continues it with the remaining chunks; the counter stays tracking and within one Mac header of the capacity |
| TextChunks.TextSpec | src/io/daplug/keyboard/DaplugKeyboard.java:171-222 | a text command ends with success or with its own capacity error |
| TextChunks.TextEmpty | src/io/daplug/keyboard/DaplugKeyboard.java:184-188 | empty text changes nothing and succeeds |
| TextChunks.RunChunksTracks | src/io/daplug/keyboard/DaplugKeyboard.java:193-200 | the text loop keeps the counter equal to half the content length |
| TextChunks.RunChunksBound | src/io/daplug/keyboard/DaplugKeyboard.java:191-200 | the text loop never takes the counter more than one header past the capacity |
| TextChunks.RunChunksAppendOnly | src/io/daplug/keyboard/DaplugKeyboard.java:188-221 | the text loop only appends, even when it fails part-way |
| TextChunks.RunChunksAllFit | src/io/daplug/keyboard/DaplugKeyboard.java:188-221 | when every chunk fits, the loop appends every chunk's header and payload in order, counts exactly their bytes and succeeds |
| TextChunks.StaleCheckOvershoot | src/io/daplug/keyboard/DaplugKeyboard.java:191-200 | when the header fits and the payload fits only without the header, the iteration succeeds with the counter above the capacity |
| TextChunks.HeaderWithoutPayload | src/io/daplug/keyboard/DaplugKeyboard.java:156-164 | when only the header fits, the header is appended and counted without its payload, and the iteration still succeeds |
| TextChunks.TextOvershootExample | src/io/daplug/keyboard/DaplugKeyboard.java:171-222 | with 8 of 10 bytes used, Windows text `ab` succeeds with 12 bytes counted |
| TextChunks.IntendedTextAppend | src/io/daplug/keyboard/DaplugKeyboard.java:171-222 | as intended, the text's records go through the gate as one unit: they stay within capacity, a refusal changes nothing, and the counter keeps tracking |
| TextChunks.IntendedTextKeepsFraming | src/io/daplug/keyboard/DaplugKeyboard.java:171-222 | as intended, a script of whole records gains one well-formed record per chunk, together carrying the whole text, or nothing |
| Keyboard.DaplugKeyboard.constructor | src/io/daplug/keyboard/DaplugKeyboard.java:28-33 | a new builder is empty, with the counter at 0 |
| Keyboard.DaplugKeyboard.KeyboardAdd | src/io/daplug/keyboard/DaplugKeyboard.java:530-542 | the new content, counter and outcome are those of `Append` |
| Keyboard.DaplugKeyboard.AddOSProbe | src/io/daplug/keyboard/DaplugKeyboard.java:572-598 | the defaults dance leaves the arguments as given; the probe record `1004…` goes through the gate |
| Keyboard.DaplugKeyboard.AddOSProbeDefault | src/io/daplug/keyboard/DaplugKeyboard.java:43-45 | the probe with 0x10 reports, delay 0xFFFF and keycode 0 |
| Keyboard.DaplugKeyboard.AddOSProbeNbDelay | src/io/daplug/keyboard/DaplugKeyboard.java:55-57 | the probe with keycode 0 |
| Keyboard.DaplugKeyboard.AddOSProbeDelay | src/io/daplug/keyboard/DaplugKeyboard.java:78-80 | the probe with 0x10 reports and keycode 0 |
| Keyboard.DaplugKeyboard.AddOSProbeWinR | src/io/daplug/keyboard/DaplugKeyboard.java:544-570 | the Win+R probe record `0204…` goes through the gate |
| Keyboard.DaplugKeyboard.AddOSProbeWinRDefault | src/io/daplug/keyboard/DaplugKeyboard.java:90-92 | the Win+R probe with 0x14 reports, delay 0xFFFF and keycode 0 |
| Keyboard.DaplugKeyboard.AddOSProbeWinRNbDelay | src/io/daplug/keyboard/DaplugKeyboard.java:100-102 | the Win+R probe with keycode 0 |
| Keyboard.DaplugKeyboard.AddOSProbeWinRDelay | src/io/daplug/keyboard/DaplugKeyboard.java:112-114 | the Win+R probe with 0x14 reports and keycode 0 |
| Keyboard.DaplugKeyboard.AddIfPC | src/io/daplug/keyboard/DaplugKeyboard.java:131-137 | `0E00` is appended when it fits; otherwise nothing changes and no error is raised |
| Keyboard.DaplugKeyboard.AddIfMac | src/io/daplug/keyboard/DaplugKeyboard.java:143-149 | `0F00` is appended when it fits; otherwise nothing changes and no error is raised |
| Keyboard.DaplugKeyboard.AddAsciiText | src/io/daplug/keyboard/DaplugKeyboard.java:156-164 | the script becomes `AsciiText` of the old one: the text's hex, or no change |
| Keyboard.DaplugKeyboard.EmitChunk | src/io/daplug/keyboard/DaplugKeyboard.java:190-217 | one loop body, either branch, does what `PieceStep` says for the chunk it writes |
| Keyboard.DaplugKeyboard.TextLoop | src/io/daplug/keyboard/DaplugKeyboard.java:181-221 | the loop leaves the script and outcome `TextSpec` gives for the text, and keeps `Valid` |
| Keyboard.DaplugKeyboard.AddTextWindows | src/io/daplug/keyboard/DaplugKeyboard.java:171-222 | the Windows text command is `TextSpec` with the `04` header and the Windows width |
| Keyboard.DaplugKeyboard.AddTextMac | src/io/daplug/keyboard/DaplugKeyboard.java:469-528 | the Mac text command is `TextSpec` with the `11` header carrying layout and delay, at the Mac width |
| Keyboard.DaplugKeyboard.AddTextMacDefault | src/io/daplug/keyboard/DaplugKeyboard.java:232-234 | layout 0 and delay 0x1000 |
| Keyboard.DaplugKeyboard.AddTextMacWithDelay | src/io/daplug/keyboard/DaplugKeyboard.java:244-246 | layout 0 with the given delay |
| Keyboard.DaplugKeyboard.AddKeyCodeRaw | src/io/daplug/keyboard/DaplugKeyboard.java:264-280 | `09`, the byte count and the code go through the gate |
| Keyboard.DaplugKeyboard.AddKeyCodeRelease | src/io/daplug/keyboard/DaplugKeyboard.java:288-304 | `03`, the byte count and the code go through the gate |
| Keyboard.DaplugKeyboard.AddHotpCode | src/io/daplug/keyboard/DaplugKeyboard.java:318-354 | a rejected diversifier raises its error before any change; otherwise the `50` record goes through the gate |
| Keyboard.DaplugKeyboard.AddReturn | src/io/daplug/keyboard/DaplugKeyboard.java:360-369 | `0D00` goes through the gate |
| Keyboard.DaplugKeyboard.AddSleep | src/io/daplug/keyboard/DaplugKeyboard.java:433-459 | the sleep record of the width the duration calls for goes through the gate |
| Keyboard.DaplugKeyboard.AddSleepDefault | src/io/daplug/keyboard/DaplugKeyboard.java:387-389 | `0102FFFF` goes through the gate |
| Keyboard.DaplugKeyboard.ZeroPad | src/io/daplug/keyboard/DaplugKeyboard.java:398-411 | the padding loop leaves the script and outcome `PadSpec` gives |
| Keyboard.DaplugKeyboard.GetContent | src/io/daplug/keyboard/DaplugKeyboard.java:414-416 | the content, upper-cased, is returned without change to the builder; content that is already upper-case hex comes back as it is |
| Keyboard.DaplugKeyboard.GetCurrentContentSize | src/io/daplug/keyboard/DaplugKeyboard.java:422-424 | the counter is returned without change to the builder |

## Left out

- `DaplugDongleHID` is not part of this model. It covers USB HID enumeration, APDU exchange and native-library loading.
- `setContent` and `setCurrentContentSize` are not part of this model. These raw setters bypass the capacity gate and break the counter invariant.
- `DaplugUtils.asciiToHex` and `DaplugUtils.isHexInput` are not part of this model.
  - `asciiToHex` is taken to be `%02X` of each character's low byte.
  - `isHexInput` is taken to be "an even number of hex digits". `Records.ValidDiversifier` accepts exactly 32 hex digits only under that reading: the Java test `div.length() / 2 == 16` alone would also let 33 characters through, if `isHexInput` checked only that every character is a hex digit.
- `String.toUpperCase` is modelled for ASCII letters only.
- Numeric fields outside their width are excluded by the types: bytes up to 0xFF, and delays and counter-file ids up to 0xFFFF. In Java, `%02X` of a larger or negative `int` writes more digits.
- `AddSleep`: the duration is a non-negative Java `int`, so it stays below 0x8000_0000. Negative durations are not modelled.
- `AddKeyCodeRaw` and `AddKeyCodeRelease` require a code under 256 bytes. For a longer code, `%02X` of the byte count writes more than two digits, and the model does not render those.
- The Java `int` counter can overflow; the model's counter is unbounded.
- Exception messages and stack-trace printing are reduced to the `Outcome` value, which names the operation.
- The text widths are taken between 1 and 0xFC, because `IKeyboard`, where they are declared, is not part of this model.
- `Hex.Hex2`, `Hex.Hex4` and `Hex.Hex8` state only the length of their result. That the digits are upper-case hex and decode back to the value is stated by `Hex.Hex2Value`, `Hex.Hex4Value` and `Hex.Hex8Value`.

## Findings

| source | as written | input that shows it | evidently intended | confidence | as-written member | corrected member |
|---|---|---|---|---|---|---|
| src/io/daplug/keyboard/DaplugKeyboard.java:196 | each full chunk is sliced one character short of the `W` its header declares (also line 503 for Mac) | text `abc` with width 2 is written as chunks carrying `a` and `c`, so `b` is lost; the first record declares 2 bytes but carries 1 | each chunk carries the `W` characters it declares, and the chunks together carry the whole text | not executed | TextChunks.WrittenChunksLoseText | TextChunks.IntendedChunksReassemble |
| src/io/daplug/keyboard/DaplugKeyboard.java:191-200 | the header is appended before the payload's capacity check, but only counted after it, so that check sees a stale counter (also lines 498-506 for Mac) | 8 of 10 bytes used, Windows text `ab` with width 0xFC: the header and the payload are both accepted, and the counter ends at 12 | the counter never passes the capacity, and a text that does not fit leaves the script unchanged | not executed | TextChunks.TextOvershootExample | TextChunks.IntendedTextAppend |
