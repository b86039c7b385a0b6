# modqtt-gw core, modelled in Dafny

modqtt-gw is a Modbus TCP to MQTT gateway. A CSV template lists the Modbus
addresses to read, with the data type, tag name and MQTT publishing policy
of each. From the template the gateway builds three tables:

- `call_groups`: for each function code, runs of consecutive addresses to read with one request each;
- `interpreter_helper`: for each function code, every claimed address and a descriptor per address;
- `mqtt_helper`: the topic and publishing settings of every tag.

Each poll cycle decodes the register words of every response into tag
values, merges the responses into one dictionary, and hands each tag to a
publish filter. The filter applies limits, a deadband and a publishing
interval, and remembers what it last sent for each tag.

This project models that core:

- `template.dfy` and `call_groups.dfy`: template compilation;
- `decoder.dfy`: register decoding and response merging;
- `publish_filter.dfy`: the publish filter;
- `data_helper.dfy`: the bit-string helpers of `DataHelper`.

`dicts.dfy` models Python's insertion-ordered dictionaries from tag name to
value. `py_numbers.dfy` models the part of Python floats the gateway relies
on: a finite real or NaN. `wrappers.dfy` holds `Option` and `Result`.

Modelling choices:

- Imperative code keeps its shape. The per-row loop of the template
  compiler, the function-code search, the call-group merge, the decoding
  loop with its skip flags, the response merge and the publish loop are
  methods with loops. Each is proved equal to a specification function:
  `Template.Compile`, `CallGroups.MergeRuns`, `Decoder.Decode`,
  `Decoder.Combine` and `PublishFilter.Cycle`. The properties the program
  promises are lemmas about those functions.
- The client and the gateway are classes whose fields the methods update.
- Python exceptions are modelled as error results, not preconditions:
  - a `KeyError` on a missing descriptor or mqtt helper entry;
  - a `ValueError` from `float()` on a scaling text;
  - a `ValueError` from `int(s, 2)` or a `struct.error` from packing, in
    the 16-bit string conversions.
- `float()` of a text is a parameter `parse`, where `None` means
  `ValueError`. The IEEE 754 reinterpretation of a 32- or 64-bit string is
  a pair of parameters `f32` and `f64`.
- A UTC timestamp carries its text and the instant it denotes in seconds.
  Elapsed time is `timedelta.seconds`: the difference modulo 86400, so
  whole days are dropped.

Quirks of the source that the model keeps:

- A row whose address repeats an earlier one still claims its addresses
  again. After sorting, the duplicate opens a new call group.
- A row whose read type matches no function code still leaves an (empty)
  mqtt helper entry.
- The function-code search is by substring: a read type spelled
  "holding" contains "di" and selects code 02, read discrete inputs.
- In the publish filter, the low-limit recovery branch is taken before the
  high limit is examined. One limit flag is shared by both limits.
- `int_16_signed_to_binary` reads an unbound variable for every
  non-negative input (see Findings).

## Model

| member | source | states |
|---|---|---|
| DataHelper.BinaryToUnsigned | scripts/data_helper.py:55-56 | Gives a number exactly for a non-empty binary string whose value fits in 16 bits; the round-trip lemmas below show that number is the string's value |
| DataHelper.UnsignedToBinary | scripts/data_helper.py:60-77 | Gives a string exactly for 0..65535, and then the 16-digit zero-filled binary form of the number |
| DataHelper.LemmaUnsignedRoundTrip | scripts/data_helper.py:55-77 | Reading back the 16-bit string of any unsigned 16-bit number returns that number |
| DataHelper.LemmaBinaryRoundTrip | scripts/data_helper.py:55-77 | Encoding the value of any 16-character bit string returns the same string |
| DataHelper.UnsignedToSigned | scripts/data_helper.py:27-51 | Numbers up to 32767 are returned unchanged; 32768..65535 become n - 65536, their 16-bit two's complement reading; larger numbers lose 2^(bit length) |
| DataHelper.InvertBits | scripts/data_helper.py:36-45 | The character loop flips every bit of the string: the result is Invert of the input |
| DataHelper.LemmaLongBinary | scripts/data_helper.py:28-48 | Above 32767 the format gives the plain binary string, whose first digit is 1, and minus one more than its inverse is n - 2^(bit length), that is n - 65536 for a 16-bit n |
| DataHelper.LemmaSigned16 | scripts/data_helper.py:27-51 | The two's complement reading of a word is in -32768..32767, congruent to the word modulo 65536, and non-negative exactly for words up to 32767 |
| DataHelper.LemmaPyBinSign | scripts/data_helper.py:92-97 | `bin(s)` contains '-' exactly for negative s, and its digits start after the 3-character prefix |
| DataHelper.LemmaTwosComplement | scripts/data_helper.py:97-103 | Zero-filling, inverting and adding one to the digits of -s gives the 16-bit pattern of s + 65536 |
| DataHelper.SignedToBinary | scripts/data_helper.py:81-110 | As written: out-of-range inputs give None, negative inputs give the 16-bit two's complement string, and every non-negative input raises UnboundLocalError |
| DataHelper.SignedToBinaryCorrected | scripts/data_helper.py:81-110 | The intended behaviour: a 16-digit bit string exactly for -32768..32767, whose two's complement reading is the input |
| DataHelper.LemmaInt16SwapBytes | scripts/data_helper.py:114-116 | Swapping the bytes of a 16-bit string exchanges its two bytes and undoes itself |
| DataHelper.LemmaSwapValue | scripts/data_helper.py:114-116 | Swapping the bytes of a 16-bit string exchanges the high and low bytes of its value |
| DataHelper.LemmaFloat32SwapBytes | scripts/data_helper.py:121-123 | [A B C D] becomes [B A D C], and swapping twice gives the input back |
| DataHelper.LemmaFloat32SwapWords | scripts/data_helper.py:128-130 | [A B C D] becomes [C D A B], and swapping twice gives the input back |
| DataHelper.LemmaFloat32SwapBytesWords | scripts/data_helper.py:135-138 | [A B C D] becomes [D C B A]; the two swaps commute, and the combined swap undoes itself |
| DataHelper.LemmaSwapThroughString | scripts/modqtt_helper.py:494-495 | Converting a word to its string, swapping its bytes and reading it back exchanges the high and low bytes of the word |
| DataHelper.LemmaBitsAt | scripts/data_helper.py:70 | Character 15 - k of a word's zero-filled binary string is bit k of the word |
| DataHelper.LemmaBitsValueOfBits | scripts/data_helper.py:56 | `int(s, 2)` of a word's w-digit string gives the word back |
| DataHelper.Slice | scripts/data_helper.py:115 | Python slicing agrees with the sequence slice whenever the bounds are in range |
| CallGroups.MergeCallGroups | scripts/modqtt_helper.py:298-309 | The groups built from a sorted address list are MergeRuns of it; they cover the addresses in order, and their counts sum to the number of addresses |
| CallGroups.LemmaMergeRunsCovers | scripts/modqtt_helper.py:298-309 | Expanding every group into its addresses gives back the input list exactly |
| CallGroups.LemmaMergePrefixCovers | scripts/modqtt_helper.py:300-309 | After the first n addresses, the groups built so far expand to exactly those n addresses |
| CallGroups.LemmaMergeRunsCount | scripts/modqtt_helper.py:298-309 | The register counts of the groups sum to the number of claimed addresses |
| CallGroups.LemmaMergeRunsSeparated | scripts/modqtt_helper.py:304-308 | Every group has count at least 1, and each group ends where the next step is not +1 |
| CallGroups.LemmaMaximalRuns | scripts/modqtt_helper.py:304-308 | For a strictly increasing list, consecutive groups are separated by a gap, so the runs are maximal |
| CallGroups.LemmaOrderIndependent | scripts/modqtt_helper.py:300 | The groups depend only on the multiset of claimed addresses, not on the order the rows claimed them |
| CallGroups.SortAsc | scripts/modqtt_helper.py:300 | `sorted`: an ascending permutation of its input |
| Template.FindFunctionCode | scripts/modqtt_helper.py:241-252 | The loop over the function codes returns the first code, in table order, that has a keyword occurring in the read type, or none |
| Template.ScanKeywords | scripts/modqtt_helper.py:248-250 | The loop over one code's keywords reports a hit exactly when some keyword occurs in the read type |
| Template.MatchFrom | scripts/modqtt_helper.py:19-25 | In a table of codes and keywords, a code is found exactly when some code from position i on has a keyword that is a substring of the read type; the one found has such a keyword, and no earlier one does |
| Template.ExampleMatchCode | scripts/modqtt_helper.py:19-24 | "IR 2" matches code 02 through its keyword "2", before code 04 is tried |
| Template.ExampleHoldingIsDiscrete | scripts/modqtt_helper.py:19-24 | "holding" matches code 02 through its keyword "di", before code 03 is tried |
| Template.LemmaSettingsOf | scripts/modqtt_helper.py:129-239 | Payload is json exactly for a json spelling; QoS is in 0..2, the given digit or else 0; retain is false exactly for a false spelling; publish is an interval exactly when the text is not blank, not an rbe spelling and accepted by float(); a non-zero deadband needs rbe, a non-blank text, a data type other than di/coil, and is float() of the text; a blank limit is absent, otherwise it is float() of the text |
| Template.ExampleDefaults | scripts/modqtt_helper.py:78-118 | A row with address and read type only gets data type sint16, the default tag name "holding_address_40001_data_type_sint16", and that name as its topic |
| Template.LemmaSubtagNamesDiffer | scripts/modqtt_helper.py:121-127 | A packed-boolean tag's `_uint16_value` and `_bitk` sub-tag names differ from the tag name and from each other |
| Template.Step | scripts/modqtt_helper.py:60-296 | A row without address or read type, or with an unknown data type, changes nothing; a row whose read type matches no code leaves the tables unchanged |
| Template.LemmaMatchedRow | scripts/modqtt_helper.py:241-296 | A matched row creates its code's table if needed, appends address..address+count-1 to the claimed addresses, overwrites the descriptor at its address, leaves other codes alone, gives its tag the topic and settings of the row, and keeps every entry the row does not write |
| Template.LemmaMatchedRowTables | scripts/modqtt_helper.py:253-263 | A matched row adds its code to the tables, appends its addresses, sets its descriptor, and leaves the other codes and addresses alone |
| Template.LemmaMatchedRowPolicy | scripts/modqtt_helper.py:265-272 | A matched row gives its tag the row's topic and settings, and keeps the mqtt helper entry of every tag other than its own and, for a packed boolean, its sub-tags |
| Template.LemmaUnmatchedRow | scripts/modqtt_helper.py:102-127 | An unmatched row leaves the tables alone; its tag keeps the entry it had, settings included, or gets an empty one; every entry the row does not write is kept |
| Template.LemmaPackedboolSubtags | scripts/modqtt_helper.py:119-292 | A packed-boolean row gives its `_uint16_value` sub-tag and all 16 bit sub-tags their topics, and when the row matched a code, the row's settings too |
| Template.ResetBits | scripts/modqtt_helper.py:124-127 | The 16 bit sub-tags get the topic with the `_bitk` suffix and no settings; other entries are unchanged |
| Template.SettleBits | scripts/modqtt_helper.py:284-292 | Settings are copied onto the existing bit sub-tags; every topic is kept, and every entry that is not one of those bit sub-tags is unchanged |
| Template.LemmaCompileKeys | scripts/modqtt_helper.py:253-256 | A code has a table after the whole template exactly when some accepted row matched it |
| Template.LemmaCompileAddresses | scripts/modqtt_helper.py:294-295 | The addresses claimed for a code are, in row order, address..address+count-1 of every row that matched it |
| Template.LemmaRowPolicyFrame | scripts/modqtt_helper.py:102-292 | An accepted row writes exactly its tag's entry and, for a packed boolean, its `_uint16_value` and bit sub-tag entries: these are present afterwards, no other entry appears, and every other entry is unchanged |
| Template.LemmaRowsAfterKeep | scripts/modqtt_helper.py:60-296 | Rows that do not write a tag's entry leave it as it was, present or absent |
| Template.LemmaCompilePolicies | scripts/modqtt_helper.py:60-296 | A tag has an mqtt helper entry exactly when some accepted row writes it, and its final entry is the one it had right after the last such row |
| Template.LemmaCompileDescriptors | scripts/modqtt_helper.py:258-263 | The descriptor at an address is the one from the last row that claimed that address |
| Template.LemmaCompiledGroups | scripts/modqtt_helper.py:298-309 | A code's call groups expand to its sorted claimed addresses and their counts sum to the number of claims |
| Template.ParseTemplateBuildCalls | scripts/modqtt_helper.py:53-311 | The row loop computes Compile of the rows, and the call groups are the merged runs of each code's sorted addresses, covering them exactly |
| Template.ApplyRow | scripts/modqtt_helper.py:60-296 | One iteration of the row loop, with its early exits, computes Step |
| Template.PrepareRow | scripts/modqtt_helper.py:60-127 | A row is accepted exactly when it has an address, a read type and a supported data type; only an accepted row touches the mqtt helper, adding its entry and resetting its sub-tags |
| Template.CompileRows | scripts/modqtt_helper.py:60-296 | The loop over the rows computes Compile of the whole template |
| Template.BuildCallGroups | scripts/modqtt_helper.py:298-309 | For every code, the call groups are the merged runs of its sorted addresses; they expand to those addresses and their counts sum to the number of claims |
| Template.ClaimRow | scripts/modqtt_helper.py:258-295 | Writes the descriptor and claims, and publishes the row's settings to the tag and its sub-tags |
| Template.ClaimAddresses | scripts/modqtt_helper.py:294-295 | Appends address..address+count-1 to the claimed addresses |
| Template.ResetSubtagEntries | scripts/modqtt_helper.py:120-127 | Computes the sub-tag topics of a packed-boolean row |
| Template.SettleSubtagEntries | scripts/modqtt_helper.py:274-292 | Copies the settings onto the 17 sub-tags |
| Decoder.ModbusTcpClient.constructor | scripts/modqtt_helper.py:425-426 | A client starts with no call groups, descriptors or mqtt helper entries |
| Decoder.ModbusTcpClient.LoadTemplate | scripts/modqtt_helper.py:433-441 | Loading compiles the template into the client's call groups, descriptors and mqtt helper |
| Decoder.ModbusTcpClient.InterpretResponse | scripts/modqtt_helper.py:451-555 | The loop with the skip flags computes Decode: each descriptor consumes its width in words, and a missing descriptor or a rejected scaling text is an error |
| Decoder.DecodeWord | scripts/modqtt_helper.py:460-553 | One word under a register code: while the skip flags are up it is passed over and the flags count down; otherwise a missing descriptor is an error, an unsupported type is skipped, and a convertible one is emitted and raises the flags for its remaining width. Decoding from the resume point after the word gives the same result as decoding from the one before it |
| Decoder.ConvertWord | scripts/modqtt_helper.py:473-523 | Through the string helpers, each type yields RawValue: sint16 is signed, ruint16 and rsint16 are byte-swapped, and floats feed the joined binary strings, swapped as named, to the IEEE conversion |
| Decoder.EmitPackedBool | scripts/modqtt_helper.py:547-551 | Stores the raw word under `_uint16_value`, then character p of its binary string under `_bit(15-p)` |
| Decoder.EmitWord | scripts/modqtt_helper.py:473-553 | Converting, scaling and storing one word computes Emit: a packed boolean adds its raw word and 16 bits, any other type its scaled value, and a rejected scaling text is an error |
| Decoder.SkipFlags | scripts/modqtt_helper.py:473-519 | After a converted word, the skip flag is raised exactly for the types wider than one word, and three more words are skipped after a float64, one after a float32 |
| Decoder.LemmaWidthIsRegisterCount | scripts/modqtt_helper.py:34-48 | Every data type consumes as many words as the template claimed for it (4 for float64, 2 for the float32 types, 1 otherwise), so the next descriptor is found at address + count |
| Decoder.LemmaDecodeCoils | scripts/modqtt_helper.py:457-459 | Under codes 01 and 02, word k is the value of the tag at address start + k |
| Decoder.LemmaDecodeSint16 | scripts/modqtt_helper.py:478-480 | An unscaled sint16 word w decodes to w up to 32767 and to w - 65536 above |
| Decoder.LemmaDecodeRuint16 | scripts/modqtt_helper.py:494-496 | An unscaled ruint16 word decodes with its high and low bytes exchanged |
| Decoder.LemmaFloatFeeding | scripts/modqtt_helper.py:473-518 | At any position with a following word, a float32 reads the word's 16 bits followed by the next word's, bytes ABCD; the byte-swapped, word-swapped and fully swapped layouts read BADC, CDAB and DCBA |
| Decoder.LemmaPackedValue | scripts/modqtt_helper.py:547-548 | After a packed-boolean word, its `_uint16_value` sub-tag holds the word |
| Decoder.LemmaPackedBits | scripts/modqtt_helper.py:549-551 | After a packed-boolean word w, sub-tag `_bitk` holds bit k of w, bit 0 being the least significant |
| Decoder.ExamplePacked5 | scripts/modqtt_helper.py:549-551 | The word 5 sets `_bit0` and `_bit2` and clears `_bit1` and `_bit3` |
| Decoder.LemmaBitKeyInjective | scripts/modqtt_helper.py:550-551 | Different bit numbers give different sub-tag names |
| Decoder.LemmaScaleValues | scripts/modqtt_helper.py:525-545 | Blank coefficient and offset, or both NaN, leave the value unchanged; with a numeric raw value x, an absent coefficient gives x + offset, an absent offset gives x * coeff, and two given ones give x * coeff + offset; a NaN raw value stays NaN |
| Decoder.LemmaScaleNaNAndErrors | scripts/modqtt_helper.py:528-545 | A blank text paired with a NaN text gives NaN; scaling fails exactly when a non-blank text is rejected by float() |
| Decoder.ModbusTcpClient.CombineTagResponses | scripts/modqtt_helper.py:557-562 | The nested loops compute Combine: all response entries assigned in order into one dictionary |
| Decoder.AssignEntries | scripts/modqtt_helper.py:559-561 | The inner loop assigns every entry of one response in order: the result is PutAll of them |
| Decoder.LemmaCombineLastWins | scripts/modqtt_helper.py:557-562 | In the combined dictionary a tag holds the value of the last response entry that carries it |
| Dicts.Put | scripts/modqtt_helper.py:561 | Assigning a key sets its value and leaves the other keys alone; a new key is appended to the iteration order, while an existing key keeps its position |
| Dicts.LemmaPutAllLastWriteWins | scripts/modqtt_helper.py:559-561 | After a run of assignments, every key holds its last assigned value, and keys never assigned keep theirs |
| PublishFilter.Elapsed | scripts/modqtt_helper.py:782 | `timedelta.seconds` is in 0..86399 and differs from the true difference by whole days |
| PublishFilter.ExampleDaysDropped | scripts/modqtt_helper.py:782 | A tag published one day and 5 seconds ago counts as 5 seconds old, so a 10-second interval is not yet reached |
| PublishFilter.LemmaLowLimitRepeats | scripts/modqtt_helper.py:729-738 | A value at or below the low limit is sent, flagged, on every cycle it stays there |
| PublishFilter.LemmaLowLimitHysteresis | scripts/modqtt_helper.py:729-780 | Over three cycles with only a low limit: a value at or below it is sent flagged, the first value back above it is sent unflagged as the recovery, and the next one is sent exactly when it moved more than the deadband, otherwise the tag's memory is unchanged |
| PublishFilter.LemmaRecoveryPreemptsHigh | scripts/modqtt_helper.py:739-758 | With a low limit set and the flag raised, a value above the low limit clears the flag by being sent, even at or above the high limit |
| PublishFilter.LemmaAlarmIff | scripts/modqtt_helper.py:729-768 | A flagged send happens exactly at or below the low limit, or at or above the high limit unless a low-limit recovery is pending |
| PublishFilter.LemmaDeadband | scripts/modqtt_helper.py:771-780 | Inside the limits with no flag raised, report by exception sends exactly when the change since the last published value strictly exceeds the deadband |
| PublishFilter.ExampleStrictDeadband | scripts/modqtt_helper.py:772 | With deadband 2 and last value 10: 12 is not sent, while 12.0001 and 7.9 are |
| PublishFilter.LemmaInterval | scripts/modqtt_helper.py:782-798 | Inside the limits with no flag raised, the interval mode sends once the elapsed seconds reach the interval, and also requires a change beyond the deadband when the deadband is forced |
| PublishFilter.LemmaPublishTagFrame | scripts/modqtt_helper.py:651-672 | Publishing succeeds exactly when the tag has a complete mqtt helper entry; then it records value, timestamps and flag for that tag only, and sends one message on the tag's topic |
| PublishFilter.LemmaStepTagFrame | scripts/modqtt_helper.py:717-798 | Handling one tag never changes another tag's memory and never removes messages already sent |
| PublishFilter.LemmaFirstCycle | scripts/modqtt_helper.py:686-701 | On the first cycle every tag with an mqtt helper entry is sent, one message per tag, and remembered with its last value and the flag down |
| PublishFilter.LemmaOthersUntouched | scripts/modqtt_helper.py:707-798 | A tag absent from the poll keeps its memory through the cycle |
| PublishFilter.LemmaRunTagsStops | scripts/modqtt_helper.py:718-726 | A KeyError ends the cycle: later tags change nothing |
| PublishFilter.Gateway.constructor | scripts/modqtt_helper.py:820-827 | A gateway starts with nothing published and with the given force-deadband switch |
| PublishFilter.Gateway.ParsePublishTag | scripts/modqtt_helper.py:651-679 | Computes PublishTag; a successful publish sends exactly one message and adds one to the publish count, a failed one sends nothing |
| PublishFilter.Gateway.PublishData | scripts/modqtt_helper.py:681-801 | The loop over the poll's tags computes Cycle, first cycle or filtered, stopping at the first KeyError; the publish count grows by the number of messages sent |
| PublishFilter.Gateway.FilterTag | scripts/modqtt_helper.py:717-798 | The chain of limit, recovery, deadband and interval checks for one tag computes StepTag; the publish count grows by the number of messages sent |

## Left out

- I/O is not modelled: reading the CSV and JSON files (`csv_to_lod`, `lod_to_csv`, `parse_json_config`), sockets and the Modbus transport (`connect`, `disconnect`, `tcp.send_message` in `cycle_poll`), the MQTT client and its callbacks, printing (`pretty_print_interpreted_response` and all warnings), signal handling, and the command-line entry points.
- `cycle_poll` is represented only by its result. A poll is the two timestamps plus the combined tag dictionary. Reading the clock and sending requests are outside the model.
- The wait loop after the first cycle (publish count against acknowledged messages) is not modelled. It depends on broker callbacks running concurrently.
- The IEEE 754 conversions (`binary_32_to_ieee_754_single_precision_float`, `binary_64_to_ieee_754_single_precision_float` and their inverses) are parameters. Dafny has no floating point.
- Floats are reals plus NaN. Infinities and rounding are not modelled, and `float()` of a text is a parameter.
- `strptime` is not modelled. A timestamp carries its instant in seconds next to its text.
- The template's address field is given as text plus the number `int()` makes of it. An address `int()` rejects is not modelled.
- The type checks (`isinstance`) in the DataHelper functions and in the settings defaults are not modelled: every field is a string and every register an integer.
- The function codes are searched in the order of the source's dictionary literal, 01 to 04. The per-code tables are maps, so the order in which codes are listed in `call_groups` is not modelled.
- Decoder.ModbusTcpClient.InterpretResponse: requires the function code to have a table. `cycle_poll` only passes codes taken from `call_groups`, whose keys are those of the tables.
- DataHelper.BinaryToUnsigned: takes `int(s, 2)` on plain binary digits only. The other spellings `int` accepts (a `0b` prefix, a sign, underscores, surrounding whitespace) count as errors here; the program only converts strings it produced itself.
- A tag literally named `timestamp_utc` or `timestamp_local` would collide with the poll's timestamps in the combined dictionary. The model keeps timestamps apart from tags.

## Findings

| source | as written | input that shows it | evidently intended | confidence | as-written member | corrected member |
|---|---|---|---|---|---|---|
| scripts/data_helper.py:92-105 | `sint_sign_negative` is assigned only when `bin(s)` contains '-', yet it is read for every input in range | s = 0 (any 0..32767) raises UnboundLocalError | the 16-digit binary string, zero-filled, for non-negative inputs | high; not executed | DataHelper.SignedToBinary | DataHelper.SignedToBinaryCorrected |
