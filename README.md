# Sensor TCP ingestion: record parser and stream framer

`tcp.py` is a small TCP server that collects air-quality readings from a sensor.
Each client connection gets its own handler. The handler appends every received
chunk of text to a buffer and cuts each `#...#` span out of it. It parses that
span as a record of seven comma-separated fields: temperature, humidity, PM2.5,
CO2, a VOC code, PM1 and PM10. The handler then queues either the reading,
tagged with the client's address, or a parse-failure log entry.

This project models that core in five modules:

- `Text` (text.dfy): the Python string operations the core calls.
  These are `str.find`, `str.split`, `startswith`/`endswith`, and the
  whitespace stripping done by `int()` and `float()`. `tcp.py` calls neither
  `str.join` nor `str.count`: `Join`, `Concat` and `Count` are reference
  definitions that the properties of the other operations are stated with.
- `Numbers` (numbers.dfy): `int()` and `float()` applied to a `str`, and
  `str()` of an `int`. They follow CPython's rules:
  - surrounding whitespace is stripped;
  - one optional sign is allowed;
  - underscores may only stand between digits (PEP 515);
  - `int()` accepts at most 4300 digits (Python 3.11 on);
  - `float()` also accepts `inf`, `infinity` and `nan` in any case, and
    decimal literals with a fraction and an exponent.

  A `ValueError` becomes `None`. A finite float is kept as the exact decimal
  its text spells.
- `SensorRecord` (record.dfy): `parse_sensor_data`, written as functions, with
  lemmas about what it accepts and what it produces.
- `Framer` (framer.dfy): the framing loop of `handle_client_connection`,
  written as methods.
  - `DrainBuffer` is the inner `while True` loop.
  - `ReceiveAll` is the outer receive loop over a sequence of decoded chunks.
  - `HandleConnection` adds the connect, disconnect and close log entries.

  The methods are proved against a character-by-character framing function,
  `Frame`. Its main consequence: apart from the overlong-buffer warnings, the
  events queued for a connection are those of the records framed from the whole
  stream, in order, however the stream was cut into chunks.
- `Samples` (samples.dfy): the record parser rejecting concrete texts,
  `int()` reading the integer fields of the record `#23.5,45.0,12,450,1,5,8#`,
  and the parser accepting a record of seven equal numeric fields.

Two facts about the code that the model keeps:

- The VOC labels are `优`, `良`, `中`, `差` for codes 1 to 4 (tcp.py:35). Any
  other code gives `未知 (` followed by the code and `)` (tcp.py:36).
- A record with the wrong number of fields and a record with a field that does
  not convert are both answered with `None` (tcp.py:23-25, 43-45). The code
  does not tell the two apart.

The cut-back of an overlong unterminated buffer keeps the text from its opening
`#` on, which may leave 2048 characters or fewer. The buffer then starts with
that `#`, so however much `#`-free text is appended to it, a later cut removes
nothing (`Framer.TruncateGrowth`): the 2048-character cap acts once per
unterminated record. So while no closing `#` arrives, the buffer keeps growing
without bound, and once it is longer than 2048 characters again, a warning is
queued after every chunk. A buffer with no
`#` at all is never cut back (`Framer.NoDelimiterUntouched`).

## Model

| member | source | states |
|---|---|---|
| Text.Find | tcp.py:66-68 | `str.find`: -1, or an index at or after the start holding the character |
| Text.FindIsFirst | tcp.py:66-68 | no occurrence stands between the start and the index found; with -1, none at all |
| Text.Split | tcp.py:21 | `str.split` gives at least one piece, and no piece holds the separator |
| Text.SplitCount | tcp.py:21-22 | splitting gives exactly one more piece than there are separators |
| Text.JoinSplit | tcp.py:21 | joining the pieces with the separator restores the text |
| Text.SplitJoin | tcp.py:21 | separator-free pieces joined and split again come back unchanged |
| Text.TrimStartKeepsSuffix | tcp.py:27-33 | leading stripping keeps a suffix, drops only whitespace, and what is kept does not start with whitespace |
| Text.TrimEndKeepsPrefix | tcp.py:27-33 | trailing stripping keeps a prefix, drops only whitespace, and what is kept does not end with whitespace |
| Text.StripUnpadded | tcp.py:27-33 | text that neither starts nor ends with whitespace is not changed by stripping |
| Text.Strip | tcp.py:27-33 | the whitespace that `int()` and `float()` skip around a number (the set `Text.IsConversionSpace`, which unlike `str.strip()` leaves `\x1c`-`\x1f`), removed at both ends; what it leaves is given by Text.TrimStartKeepsSuffix, Text.TrimEndKeepsPrefix and Text.StripUnpadded |
| Numbers.RemoveUnderscores | tcp.py:27-33 | the text the conversions read has no underscore left, and it is shorter by exactly the number of underscores |
| Numbers.RemoveUnderscoresAppend | tcp.py:27-33 | removing underscores works piece by piece, so every other character is kept, in order |
| Numbers.DigitGroupsJoined | tcp.py:29-33 | non-empty digit groups joined by single `_` are grouped as PEP 515 allows, and removing the underscores leaves their digits in order |
| Numbers.ParseInt | tcp.py:29-33 | `int()` of a field: whitespace stripped, underscores only between digits, one optional sign, at most 4300 ASCII digits, otherwise `None`; its results are described by Numbers.ParseIntBound, Numbers.ParseIntPlain, Numbers.ParseIntOfCleanText, Numbers.ParseIntGroupedDigits and Numbers.ParseIntDecimalString |
| Numbers.ParseIntGroupedDigits | tcp.py:29-33 | PEP 515: `int()` of non-empty digit groups joined by single `_` is the number their digits spell together, as in `int("1_000") == 1000` |
| Numbers.ExponentMarker | tcp.py:27-28 | the first `e`/`E` of the literal, or its length when there is none |
| Numbers.ParseIntBound | tcp.py:29-33 | every value `int()` returns has at most 4300 digits: its magnitude is below 10^4300 |
| Numbers.ParseIntPlain | tcp.py:29-33 | an optional minus and at most 4300 ASCII digits read as the number they spell |
| Numbers.ParseIntOfCleanText | tcp.py:29-33 | text with nothing to strip or remove reads as its sign and digits |
| Numbers.NatString | tcp.py:36 | `str(n)` of a natural number is digits denoting n, without a leading zero |
| Numbers.DecimalString | tcp.py:36 | `str(n)`: a minus sign before the digits of a negative number; its partners are Numbers.DecimalStringInjective and Numbers.ParseIntDecimalString |
| Numbers.DecimalStringInjective | tcp.py:36 | two integers print alike only when they are equal |
| Numbers.ParseIntDecimalString | tcp.py:29-36 | `int()` reads back what `str()` prints, within the digit limit |
| Numbers.ParseDecimalFixedPoint | tcp.py:27-28 | digits, a point and digits form a decimal scaled by the number of fraction digits |
| Numbers.ParseFloat | tcp.py:27-28 | `float()` of a field: whitespace stripped, underscores only between digits, one optional sign, then `inf`, `infinity`, `nan` in any case or a decimal literal, otherwise `None`; its results are described by Numbers.ParseFloatFixedPoint, Numbers.ParseFloatNegativeFixedPoint and Numbers.ParseFloatDecimalString |
| Numbers.ParseFloatNegativeFixedPoint | tcp.py:27-28 | `float()` reads a minus, digits, a point and digits, such as a temperature below zero, as the negated exact decimal they spell |
| Numbers.ParseFloatFixedPoint | tcp.py:27-28 | `float()` reads digits, a point and digits as the exact decimal they spell |
| Numbers.ParseFloatDecimalString | tcp.py:27-28 | an integer's text is also a valid float with the same value |
| SensorRecord.VocLabel | tcp.py:35-36 | codes 1 to 4 get a one-character label; any other code gets `未知 (` … `)` |
| SensorRecord.UnknownLabelSpellsCode | tcp.py:36 | an unknown code's label spells the code between the prefix and the closing parenthesis |
| SensorRecord.VocLabelInjective | tcp.py:35-36 | distinct codes get distinct labels |
| SensorRecord.VocLabelCarriesCode | tcp.py:36 | an unknown code's label carries the code in text that `int()` reads back |
| SensorRecord.Inner | tcp.py:20 | `s[1:-1]`: the text between the first and the last character, empty for fewer than two; SensorRecord.EnclosedText restores the record from it |
| SensorRecord.ParseSensorData | tcp.py:15-48 | a parsed record starts and ends with `#` (the `startswith`/`endswith` tests of tcp.py:17, modelled by Text.StartsWith and Text.EndsWith), keeps the input as its raw string, and its label is the label of its VOC code |
| SensorRecord.RejectsWrongFieldCount | tcp.py:20-25 | a record with other than six commas is rejected |
| SensorRecord.EnclosedText | tcp.py:17-20 | text starting and ending with `#` is `#`, its inner text and `#` |
| SensorRecord.ParsedRecordFields | tcp.py:17-42 | a parsed record is seven comma-free fields between `#`s, and each value is the conversion of its field |
| SensorRecord.ParseSensorDataOfFields | tcp.py:17-48 | seven comma-free fields between `#`s parse exactly when every field converts, into the reading of their values |
| Samples.SampleLoneDelimiter | tcp.py:17-25 | `"#"` is rejected |
| Samples.SampleEmptyRecord | tcp.py:17-25 | `"##"` is rejected |
| Samples.SampleFourFields | tcp.py:20-25 | a four-field record is rejected |
| Samples.SamplePm25 | tcp.py:29 | `int("12")` is 12 |
| Samples.SampleCo2 | tcp.py:30 | `int("450")` is 450 |
| Samples.SampleDigit | tcp.py:31-33 | `int()` of a one-digit field is that digit |
| Samples.UniformRecordParses | tcp.py:15-42 | a record whose seven fields are the text of one natural number n parses, every value being n and the label that of code n |
| Samples.ParserAcceptsSome | tcp.py:15-42 | some record is accepted by the parser |
| Framer.Feed | tcp.py:66-75 | one character of the stream: a `#` arriving while the leftover holds a `#` closes the record from that first `#`, dropping the text before it; any other character joins the leftover; its properties are Framer.FeedAllKeeps and Framer.FrameWellFormed |
| Framer.Frame | tcp.py:64-75 | the records of a whole stream, in order, and its leftover; the methods are proved against it, and Framer.FeedAllAppend, Framer.FrameCut and Framer.FrameOfRecords describe it |
| Framer.FeedAllAppend | tcp.py:64 | framing a concatenation is framing its parts in turn, so chunk boundaries do not matter |
| Framer.FrameNoRecord | tcp.py:66-69 | text without a first and a second `#` frames to no record, and all of it is left over |
| Framer.FrameCut | tcp.py:66-75 | the span from the first `#` to the next is the first record, and framing goes on after it |
| Framer.FeedAllKeeps | tcp.py:66-75 | framing keeps every record `#`-text-`#` and at most one `#` in the leftover, and accounts for every `#` |
| Framer.FrameWellFormed | tcp.py:66-75 | each record starts and ends with `#` with none inside; the leftover is a suffix holding at most one `#`; every `#` is in a record or the leftover |
| Framer.FrameOfRecords | tcp.py:66-75 | any concatenation of records frames back into exactly those records, with nothing left over |
| Framer.FeedAllTrails | tcp.py:69-73 | dropping `#`-free text in front of the leftover changes no record found later |
| Framer.StreamStep | tcp.py:64-75 | one more chunk adds the records of the buffer plus that chunk to those of the stream |
| Framer.Truncate | tcp.py:69-72 | an overlong leftover with a `#` is cut back to the text from that `#`; any other leftover is kept; its partners are Framer.TruncateDropsOnlyFiller, Framer.TruncateIdempotent and Framer.TruncateGrowth |
| Framer.TruncateDropsOnlyFiller | tcp.py:69-72 | cutting back drops only `#`-free text, what it keeps starts with `#`, and a leftover that is not overlong is kept whole |
| Framer.TruncateIdempotent | tcp.py:69-72 | cutting back twice, with nothing appended in between, is cutting back once |
| Framer.TruncateGrowth | tcp.py:64-72 | after an overlong leftover is cut back, appending `#`-free text of any length never leads to a further cut |
| Framer.NoDelimiterUntouched | tcp.py:66-67 | a buffer without `#` yields no record, is not overlong, and is kept whole |
| Framer.RecordEvent | tcp.py:76-81 | a record queues a reading exactly when it parses, and that reading is the parsed one, tagged with the peer and keeping the record as its raw string; otherwise it queues a parse-failure entry for the record |
| Framer.RecordEventsAppend | tcp.py:76-81 | the events of two runs of records are those of the first, then those of the second |
| Framer.RecordEventsUnwarned | tcp.py:71-81 | record events are never overlong-buffer warnings |
| Framer.ParseRecord | tcp.py:76-81 | the event made for one record is that record's event |
| Framer.DrainBuffer | tcp.py:65-81 | the loop queues the events of the buffer's records in order, plus a warning when the leftover is overlong; it keeps the leftover, cut back when overlong, holding at most one `#` |
| Framer.QueueDrained | tcp.py:59-81 | leaving the warnings aside, the queue stays the events of all records so far |
| Framer.ReceiveStep | tcp.py:59-81 | one receive turn keeps the queue and the buffer in step with the stream received so far |
| Framer.DelimitersAccounted | tcp.py:64-75 | every `#` of the stream lies in a framed record or in the buffer |
| Framer.ReceiveAll | tcp.py:57-81 | leaving the warnings aside, the queue is the events of the records framed from the whole stream; the buffer is the stream's leftover less `#`-free text in front, with at most one `#` |
| Framer.HandleConnection | tcp.py:55-89 | a connection logs its start, then the events of the stream's records in order, then its disconnection and closing; every `#` is in a record or in the final buffer |

## Left out

- Sockets, `recv` and closing the socket (tcp.py:60-63, 90). A connection is modelled as the sequence of chunks the peer sends before closing its end.
- UTF-8 decoding with `errors='ignore'` (tcp.py:64). Chunks are taken as already decoded text. The real decoder can drop a multi-byte character split across two chunks, so independence from chunking holds only at the character level.
- The exception paths (tcp.py:82-87): connection reset, timeout and other errors. Only the end of a stream is modelled; the closing entry at tcp.py:89 is always queued.
- The text of log messages and console prints (tcp.py:24, 44, 47). Log entries carry their kind and, for a parse failure, the record.
- The shared `data_queue` and its thread safety (tcp.py:12). The queue is a sequence of events owned by one connection.
- The server, its threads and the Tkinter GUI (tcp.py:93 onward).
- `parsed_data['client_address']` (tcp.py:78): a reading is paired with its peer in the event instead of gaining a dictionary key.
- Numbers.ParseFloat: binary64 rounding is not modelled. A finite value is kept as the exact decimal it spells, so equal-valued floats with different texts stay distinct.
- Numbers.ParseInt and Numbers.ParseFloat: non-ASCII decimal digits, which CPython also accepts, are rejected. The `int()` digit limit is CPython's default of 4300, as in Python 3.11 and later and in the 2022 security releases of 3.7 to 3.10; earlier versions, which accept any number of digits, are not modelled, and neither is a configured limit.
- Framer.ReceiveAll and Framer.HandleConnection: their contracts leave the overlong-buffer warnings out of the record order. How many warnings are queued, and where, is stated only per drain, by Framer.DrainBuffer.
- The sample record `#23.5,45.0,12,450,1,5,8#` as a whole, and `float()` of its fields `23.5` and `45.0`, are not proved. Samples.SamplePm25, Samples.SampleCo2 and Samples.SampleDigit read its five integer fields; Numbers.ParseFloatFixedPoint covers fields such as `23.5` and `45.0`, and SensorRecord.ParseSensorDataOfFields builds the reading from the seven conversions.
