# Verified models of the Cobrust corpus and code generator

Five parts of the repository are modelled, each in the form its source has: routines that change
a buffer, a cursor, a builder or a dictionary are methods on such an object, and each of them is
proved equal to a function about which the promises are then proved for all inputs.

- **MessagePack** (`MsgpackFormat`, `MsgpackSpec`, `Msgpack`, `MsgpackRoundTrip`, `MsgpackCanonical`,
  `MsgpackTable`, `Utf8`, `Ieee`).
  The codec of `corpus/msgpack/upstream/msgpack_core.py`, with big-endian and two's-complement
  arithmetic, UTF-8 validity and the key order written out. The decoder takes the upper bounds of
  its fixstr and fixarray tests as a parameter: `AS_WRITTEN` has the bounds the code computes,
  `INTENDED` those of the section "Formats" of the MessagePack specification.
- **Lowering** (`Mir`, `Cranelift`, `LoweringSpec`, `Lowering`, `LoweringAcceptance`, `LoweringValues`,
  `LoweringTypes`, `LoweringMeaning`, `LoweringInstants`, `LoweringTables`). The compiler pass from MIR to Cranelift
  instructions in `crates/cobrust-codegen/src/lowering.rs`, run against a builder object, with a
  small-step meaning for both languages.
- **TOML** (`TomlSpec`, `TomlText`, `TomlReading`, `TomlPaths`, `TomlPrinting`, `TomlRange`,
  `TomlLanguage`, `TomlMirror`, `Toml`, `TomlDeviations`, `TomlTables`). The parser of `corpus/tomli/upstream/tomli_loads.py`: the cursor, the
  recursive descent, and the dictionaries that `loads` builds in place through `root`, `cursor`
  and `current`.
- **Dates** (`Calendar`, `CivilDate`, `RelativeDelta`, `ParseIso`). `corpus/dateutil/upstream/relativedelta_core.py`
  and `parser_core.py`: the ten loops of `_normalize` and the loop-free form of what they compute,
  `relativedelta_add`, and the ISO reader.
- **Arrays** (`Broadcast`, `NestedList`, `Diagonals`, `OrderStatistics`). Shape and layout kernels of
  `crates/cobrust-coil/src`.

`Wrappers`, `Slices`, `Decimals` and `RowMajor` are shared helpers.

A round trip says nothing about a code that reading and writing share. So what the shared
definitions come to is proved apart from them: the bytes of every MessagePack form and marker in
numbers (`MsgpackTable`), the key order and UTF-8 by code points (`Utf8`), the value of a 32-bit
float as a real number (`Ieee`), the characters, escapes and the accepted language of TOML
(`TomlTables`, `TomlLanguage`), the widths and operators of the lowering (`LoweringTables`), and
linear interpolation by its nodes and its segments (`OrderStatistics`).

## Where the code and its documentation differ

The models follow the code. What that means is proved, not only noted.

- `msgpack_core.py` lines 311 and 332 test empty ranges, because `0xa0 | 0x20` is `0xa0` and `0x90`
  is above `0x80`. The harness expects short strings and arrays to survive; with the code as
  written they do not. `MsgpackRoundTrip.AsWrittenRoundTrip` says exactly what does.
- `corpus/tomli/spec.toml` line 97 says that a trailing comma in an inline table is rejected; the
  code accepts it and reads the table without it (`TomlDeviations.TrailingCommaIsIgnored`,
  `CommaExample`). The code also lets a later header extend an inline table (`ExtendedTableExample`),
  and lets a repeated key replace the earlier value (`RepeatedKeyExample`).
- A TOML header may end at a value that is not a table; the code notices only when something is
  written there. `TomlSpec.Touch` and `TomlSpec.Put` do the same, with `TypeError` for what Python raises.
- `broadcast.rs` says that an axis of the result is the larger of the two; an axis of length 0
  against one of length 1 gives 0. `Broadcast.JoinIsMaxUnlessEmpty` gives the exact condition.
- The lowering accepts bodies that assign a Boolean constant (emitted as I64) to a `Bool` local (an
  I8 variable), and jumps back to the entry block. `LoweringTypes.WellFormedExactlyTyped` says
  which accepted bodies give a well-formed function.
- `parse_iso` accepts day 31 in any month (`ParseIso.FebruaryHas31Days`) and second 60
  (`ParseIso.MinuteHas61Seconds`), as its range tests say.
- Adding months can reverse the order of two datetimes on different days of one month:
  `RelativeDelta.OrderCanFail` has two in every January, `RelativeDelta.MonthDeltasAndOrder` the
  exact condition.

## Model

| member | source | states |
|---|---|---|
| MsgpackRoundTrip.RoundTrip | corpus/msgpack/upstream/msgpack_core.py:57-350 | With the intended ranges, decoding a packed in-scope value followed by any bytes returns the value and stops where the packed bytes end |
| MsgpackRoundTrip.AsWrittenRoundTrip | corpus/msgpack/upstream/msgpack_core.py:311-334 | With the ranges as written, a value survives if every string, key and array in it is long enough (32 bytes, 16 elements), and otherwise decoding fails on an unknown marker, however deep the short item is |
| MsgpackRoundTrip.AsWrittenReads | corpus/msgpack/upstream/msgpack_core.py:311-334 | The headers the decoder as written recognises are exactly those of long strings and arrays |
| MsgpackRoundTrip.AsWrittenBounds | corpus/msgpack/upstream/msgpack_core.py:311-332 | The upper bound the code computes for fixstr is its lower bound |
| MsgpackRoundTrip.EmptyStringIsLost | corpus/msgpack/harness/h_unpack.py:61 | The harness case of the empty string raises on marker 0xa0 |
| MsgpackRoundTrip.PrefixFree | corpus/msgpack/upstream/msgpack_core.py:184-209 | No packed value is a prefix of another, so packing is injective |
| MsgpackRoundTrip.UniqueSplit | corpus/msgpack/upstream/msgpack_core.py:147-161 | A concatenation of packed values splits into values in only one way |
| MsgpackRoundTrip.IntRoundTrip | corpus/msgpack/upstream/msgpack_core.py:57-100 | Every integer comes back as its low 64 bits, and unchanged exactly between -2^63 and 2^64 - 1 |
| MsgpackRoundTrip.DecodeEncoded | corpus/msgpack/upstream/msgpack_core.py:276-350 | At any position of any data, both decoders treat a packed value as the recognised headers say |
| MsgpackCanonical.Repack | corpus/msgpack/upstream/msgpack_core.py:276-358 | Whatever bytes decode to a value with string keys, packing it takes no more bytes, plus four for each FLOAT_32 marker the decoder met, and reads back to the same value |
| MsgpackCanonical.PackIsShortest | corpus/msgpack/upstream/msgpack_core.py:57-209 | No encoding in which the decoder meets no FLOAT_32 marker is shorter than the packed one; 0xca bytes inside numbers, lengths and bodies are no markers |
| MsgpackCanonical.PayloadIsNoMarker | corpus/msgpack/upstream/msgpack_core.py:276-358 | The encoding `cd 00 ca` of 202 has no such marker, and 202 is packed in fewer bytes |
| MsgpackCanonical.SinglesGrowByFour | corpus/msgpack/upstream/msgpack_core.py:231-238 | The four bytes are needed: every lone 32-bit float is repacked in nine bytes instead of five |
| MsgpackCanonical.EncodeSize | corpus/msgpack/upstream/msgpack_core.py:57-181 | The length of a packed value is the sum over its parts, independent of key order |
| MsgpackTable.WritesConstants | corpus/msgpack/upstream/msgpack_core.py:190-195 | None, False and True are written as the bytes c0, c2 and c3 |
| MsgpackTable.WritesIntegers | corpus/msgpack/upstream/msgpack_core.py:57-100 | The literal bytes of every integer: fixints, then cc to cf or d0 to d3 with the base-256 digits |
| MsgpackTable.WritesFloats | corpus/msgpack/upstream/msgpack_core.py:103-107 | A float is cb and its eight bytes |
| MsgpackTable.WritesStrings | corpus/msgpack/upstream/msgpack_core.py:110-127 | A string is a0 + n, d9, da or db with its length, by the length, and then its bytes |
| MsgpackTable.WritesBinaries | corpus/msgpack/upstream/msgpack_core.py:130-144 | Binary data is c4, c5 or c6 with its length, and then its bytes |
| MsgpackTable.WritesArrays | corpus/msgpack/upstream/msgpack_core.py:147-161 | An array is 90 + n, dc or dd with its count, and then its items |
| MsgpackTable.ItemsInOrder | corpus/msgpack/upstream/msgpack_core.py:160-161 | The items stand in their order |
| MsgpackTable.WritesMaps | corpus/msgpack/upstream/msgpack_core.py:164-176 | A map is 80 + n, de or df with its count, and then its pairs |
| MsgpackTable.MapsInOrder | corpus/msgpack/upstream/msgpack_core.py:177-181 | All keys are written, and of two keys first the one that is a prefix of the other or has the smaller byte where they first differ |
| MsgpackTable.MapExample | corpus/msgpack/upstream/msgpack_core.py:177-181 | The map from "a" to 1 and "b" to 2 is 82 a1 61 01 a1 62 02 |
| MsgpackTable.ReadsNothing | corpus/msgpack/upstream/msgpack_core.py:278-279 | At the end of the data reading fails |
| MsgpackTable.ReadsOneByte | corpus/msgpack/upstream/msgpack_core.py:280-290 | 00-7f, e0-ff, c0, c2 and c3 are read as the integers, None, False and True |
| MsgpackTable.ReadsUnsigned | corpus/msgpack/upstream/msgpack_core.py:291-298 | cc to cf are followed by an unsigned number of 1, 2, 4 or 8 bytes |
| MsgpackTable.ReadsSigned | corpus/msgpack/upstream/msgpack_core.py:299-306 | d0 to d3 are followed by a number that is read in two's complement, whatever its sign |
| MsgpackTable.SignedIsCongruent | corpus/msgpack/upstream/msgpack_core.py:222-228 | That reading is the one number in the signed range that is congruent to the unsigned one |
| MsgpackTable.ReadsFloats | corpus/msgpack/upstream/msgpack_core.py:307-310 | ca is followed by four bytes that are widened, cb by eight that are kept |
| MsgpackTable.ReadsStrings | corpus/msgpack/upstream/msgpack_core.py:314-322 | d9, da and db are followed by the length of a string in 1, 2 or 4 bytes |
| MsgpackTable.ReadsBinaries | corpus/msgpack/upstream/msgpack_core.py:323-331 | c4, c5 and c6 are followed by the length of binary data |
| MsgpackTable.ReadsArrays | corpus/msgpack/upstream/msgpack_core.py:335-340 | dc and dd are followed by the count of an array in 2 or 4 bytes |
| MsgpackTable.ReadsMaps | corpus/msgpack/upstream/msgpack_core.py:344-349 | de and df are followed by the count of a map |
| MsgpackTable.ReadsShort | corpus/msgpack/upstream/msgpack_core.py:311-343 | 80-8f, 90-9f and a0-bf hold the length of a map, an array or a string, with the intended ranges |
| MsgpackTable.ReadsShortAsWritten | corpus/msgpack/upstream/msgpack_core.py:311-343 | With the ranges as written only 80-8f of these are read |
| MsgpackTable.ReadsUnused | corpus/msgpack/upstream/msgpack_core.py:350 | The nine other markers are errors |
| MsgpackTable.LastPairWins | corpus/msgpack/upstream/msgpack_core.py:265-273 | Of two pairs with one key the second counts |
| MsgpackTable.WhatCanBeKey | corpus/msgpack/upstream/msgpack_core.py:270-272 | Arrays and maps as keys are errors, all else is a key |
| Utf8.ValidExactlyWritten | corpus/msgpack/upstream/msgpack_core.py:241-245 | Bytes are valid UTF-8 exactly if they are the encoding, by the formulas of the Unicode standard, of some sequence of scalar values |
| Utf8.KeyLessDecides | corpus/msgpack/upstream/msgpack_core.py:177 | One key is less than another exactly if it is a proper prefix or has the smaller byte where they first differ |
| Utf8.KeyOrderIsCodePointOrder | corpus/msgpack/upstream/msgpack_core.py:177 | That is the order of the two strings by code points |
| Ieee.WidenKeepsReading | corpus/msgpack/upstream/msgpack_core.py:231-238 | The eight bytes have the value of the four, as real numbers from sign, exponent and fraction: normal, subnormal, zero of either sign, infinite or NaN |
| Ieee.OneIsOne | corpus/msgpack/upstream/msgpack_core.py:231-238 | 3f 80 00 00 is read as 1.0 |
| MsgpackSpec.DecodeOne | corpus/msgpack/upstream/msgpack_core.py:276-350 | A successful decode advances at least one byte and stays inside the data, whatever counts a header claims |
| MsgpackFormat.BigEndianRoundTrip | corpus/msgpack/upstream/msgpack_core.py:212-219 | Reading back big-endian bytes gives the number modulo the width |
| MsgpackFormat.SortedKeysIncrease | corpus/msgpack/upstream/msgpack_core.py:177 | Sorted keys are strictly increasing and have the same elements |
| MsgpackFormat.IncreasingIsSorted | corpus/msgpack/upstream/msgpack_core.py:177 | A strictly increasing listing of the keys is the sorted one, so the order is unique |
| Msgpack.PackUint | corpus/msgpack/upstream/msgpack_core.py:57-77 | Appends the shortest unsigned form |
| Msgpack.PackInt | corpus/msgpack/upstream/msgpack_core.py:80-100 | Appends the form that the round trip is proved about, for integers of any sign and size |
| Msgpack.PackFloat | corpus/msgpack/upstream/msgpack_core.py:103-107 | Appends marker and the eight bytes |
| Msgpack.PackStr | corpus/msgpack/upstream/msgpack_core.py:110-127 | Appends header and body for every length |
| Msgpack.PackBin | corpus/msgpack/upstream/msgpack_core.py:130-144 | Appends header and body for every length |
| Msgpack.PackArray | corpus/msgpack/upstream/msgpack_core.py:147-161 | Appends exactly the packed array, or fails on a nested non-string key and keeps what stood in the buffer |
| Msgpack.SortKeys | corpus/msgpack/upstream/msgpack_core.py:177-179 | Lists the keys in strictly increasing order, or fails exactly if some key is not a string |
| Msgpack.PackMap | corpus/msgpack/upstream/msgpack_core.py:164-181 | Appends exactly the packed map in key order, or fails and keeps what stood in the buffer |
| Msgpack.PackInto | corpus/msgpack/upstream/msgpack_core.py:184-209 | Dispatches on the value and appends its packed form |
| Msgpack.Pack | corpus/msgpack/upstream/msgpack_core.py:184-209 | Succeeds exactly on values whose maps have string keys only, with the packed form |
| Msgpack.UnpackUint | corpus/msgpack/upstream/msgpack_core.py:212-219 | The loop reads the big-endian number, or reports truncation |
| Msgpack.UnpackInt | corpus/msgpack/upstream/msgpack_core.py:222-228 | Reads the two's-complement number |
| Msgpack.UnpackArray | corpus/msgpack/upstream/msgpack_core.py:255-262 | The loop reads as many values as the header claims, or fails where the first of them does |
| Msgpack.UnpackMap | corpus/msgpack/upstream/msgpack_core.py:265-273 | The loop reads the pairs, later keys replacing earlier ones, or fails where the first does |
| Msgpack.UnpackOne | corpus/msgpack/upstream/msgpack_core.py:276-350 | The marker dispatch computes the decoder the theorems are about |
| Msgpack.Unpack | corpus/msgpack/upstream/msgpack_core.py:353-358 | One value and nothing after it, or the error |
| LoweringMeaning.LoweringPreservesSteps | crates/cobrust-codegen/src/lowering.rs:413-499 | After the instructions emitted for any number of steps of the body, the emitted code is where the body is, every local's value in its variable, or has ended alike |
| LoweringInstants.InstantStep | crates/cobrust-codegen/src/lowering.rs:299-383 | From one such instant to the next there are as many instructions as are emitted for the step between them |
| LoweringInstants.InstantsIncrease | crates/cobrust-codegen/src/lowering.rs:299-383 | The instants are in the order of the steps of the body |
| LoweringInstants.BlockStartsMatch | crates/cobrust-codegen/src/lowering.rs:476-499 | Whenever the emitted code is at the start of a block other than the entry, the body is at the start of that block at that instant, and their variables agree |
| LoweringMeaning.LoweringPreservesReturn | crates/cobrust-codegen/src/lowering.rs:413-499 | The code returns a value exactly if the body returns it |
| LoweringMeaning.LoweringPreservesTrap | crates/cobrust-codegen/src/lowering.rs:337-383 | The code traps exactly if the body does |
| LoweringMeaning.LoweringPreservesDivergence | crates/cobrust-codegen/src/lowering.rs:413-499 | The code runs for ever exactly if the body does |
| LoweringMeaning.NeverStuck | crates/cobrust-codegen/src/lowering.rs:456-473 | Neither run ever reads an undefined local, variable or value |
| LoweringMeaning.ParamCount | crates/cobrust-codegen/src/lowering.rs:98-122 | The emitted function takes as many arguments as the body has parameters |
| LoweringMeaning.StepRelated | crates/cobrust-codegen/src/lowering.rs:299-383 | One step of the body is matched by the instructions emitted for it |
| LoweringMeaning.PrologueRuns | crates/cobrust-codegen/src/lowering.rs:440-473 | After the prologue parameters hold the arguments and all other locals 0 |
| LoweringMeaning.BinaryEffect | crates/cobrust-codegen/src/lowering.rs:239-274 | The instruction for an operator computes the 64-bit wrapped result |
| LoweringAcceptance.AcceptsExactlyWave1 | crates/cobrust-codegen/src/lowering.rs:66-383 | The lowering of valid MIR succeeds exactly on bodies inside the wave-1 surface |
| LoweringAcceptance.UnsupportedIsInvalidMir | crates/cobrust-codegen/src/lowering.rs:66-383 | A body that names declared locals only is lowered or rejected as InvalidMir, never as Internal |
| LoweringAcceptance.UndeclaredIsInternal | crates/cobrust-codegen/src/lowering.rs:191-383 | Starting with a bare undeclared local gives Internal |
| LoweringTables.TypeWidths | crates/cobrust-codegen/src/lowering.rs:66-84 | The width of every type in numbers, and which types have none |
| LoweringTables.ConstantsMean | crates/cobrust-codegen/src/lowering.rs:162-189 | Integer constants are themselves and truth values 1 and 0, in the body and in the code; others have no code |
| LoweringTables.OperatorsMean | crates/cobrust-codegen/src/lowering.rs:239-270 | What the five operators compute, as the number in the signed range that is congruent modulo two to the 64 |
| LoweringTables.ParamLocalsAre | crates/cobrust-codegen/src/lowering.rs:98-103 | Which locals are the parameters |
| LoweringTables.DifferenceReturns | crates/cobrust-codegen/src/lowering.rs:413-499 | The code for a body that returns its first argument less its second returns that difference, wrapped |
| LoweringTypes.WellFormedExactlyTyped | crates/cobrust-codegen/src/lowering.rs:413-499 | On success the function is well formed, in single assignment form and with every variable defined before it is read, exactly if operand types agree and nothing jumps to the entry |
| LoweringValues.ValuesAreNumbered | crates/cobrust-codegen/src/lowering.rs:413-499 | The values of an emitted function are numbered 0, 1, 2 and so on, so no value is defined twice |
| LoweringTypes.I64WellFormed | crates/cobrust-codegen/src/lowering.rs:413-499 | If all locals are 64-bit, the emitted function is well formed exactly if nothing jumps to the entry |
| LoweringTypes.VariablesAreDefined | crates/cobrust-codegen/src/lowering.rs:458-473 | Every variable is assigned before it is read on every path from the entry |
| LoweringTypes.BoolAssignmentIsIllTyped | crates/cobrust-codegen/src/lowering.rs:162-189 | A Boolean constant assigned to a Bool local always gives an ill-formed function |
| Lowering.LowerConstant | crates/cobrust-codegen/src/lowering.rs:162-189 | Emits the constant, or rejects other kinds |
| Lowering.LowerPlace | crates/cobrust-codegen/src/lowering.rs:191-214 | Reads the variable of a bare known local, or rejects |
| Lowering.LowerOperand | crates/cobrust-codegen/src/lowering.rs:216-237 | Copies, moves and constants |
| Lowering.LowerRvalue | crates/cobrust-codegen/src/lowering.rs:239-274 | Appends the code that computes the rvalue, or rejects its kind |
| Lowering.LowerStatement | crates/cobrust-codegen/src/lowering.rs:299-335 | Appends the code of one statement, or rejects |
| Lowering.LowerTerminator | crates/cobrust-codegen/src/lowering.rs:337-383 | Appends return, jump or trap, or rejects |
| Lowering.BodySignature | crates/cobrust-codegen/src/lowering.rs:98-122 | The parameter types, failing exactly on unsupported or None-typed parameters |
| Lowering.InferLocals | crates/cobrust-codegen/src/lowering.rs:124-147 | The variable type of every local, failing exactly on an unsupported one |
| Lowering.CreateBlocks | crates/cobrust-codegen/src/lowering.rs:420-437 | One empty block for each MIR block and the entry's parameters |
| Lowering.EmitPrologue | crates/cobrust-codegen/src/lowering.rs:444-473 | Appends the parameter bindings and zeros |
| Lowering.Lower | crates/cobrust-codegen/src/lowering.rs:413-499 | Builds, through the mutable builder, the function that the theorems are about, or fails as it does |
| TomlReading.LoadsWritten | corpus/tomli/upstream/tomli_loads.py:50-265 | Loading any written text, whatever its layout, quotes, escapes, signs and commas, equals folding its statements over the empty tree |
| TomlReading.ReadValue | corpus/tomli/upstream/tomli_loads.py:128-219 | At any position, a written value is read as what it means, exactly to its end |
| TomlReading.ReadLine | corpus/tomli/upstream/tomli_loads.py:172-241 | The same for headers and key-value lines |
| TomlReading.SkipLayout | corpus/tomli/upstream/tomli_loads.py:50-60 | Blanks and newline-ended comments are skipped, and nothing after them is lost |
| TomlPrinting.WrittenTreeLoads | corpus/tomli/upstream/tomli_loads.py:235-265 | However a tree is divided into sections and inline tables, in whatever key order and layout, loading the text gives the tree |
| TomlPrinting.EveryTreePrints | corpus/tomli/upstream/tomli_loads.py:50-265 | Every tree of bare keys has a text in every such style and non-empty layout, and it loads back |
| TomlPrinting.SectionBuilds | corpus/tomli/upstream/tomli_loads.py:256-265 | The statements of a section build its table below its header and change nothing else |
| TomlPrinting.WrittenString | corpus/tomli/upstream/tomli_loads.py:63-89 | Escaping newlines, tabs and returns by their letters, and quotes and backslashes by themselves, writes every string |
| TomlLanguage.LoadsExactlyWritten | corpus/tomli/upstream/tomli_loads.py:50-265 | A text loads as a tree exactly if it is a written text whose statements build that tree: nothing else is accepted |
| TomlLanguage.FoundText | corpus/tomli/upstream/tomli_loads.py:244-265 | From any position, what is accepted is a written text, and its statements build the result |
| TomlLanguage.FoundHere | corpus/tomli/upstream/tomli_loads.py:128-144 | A value that is read was written there, as what it is read as |
| TomlTables.Blanks | corpus/tomli/upstream/tomli_loads.py:50-55 | Blanks are the code points 20, 09, 0a and 0d |
| TomlTables.KeyCharacters | corpus/tomli/upstream/tomli_loads.py:172-190 | The 64 characters of a key |
| TomlTables.DigitCharacters | corpus/tomli/upstream/tomli_loads.py:104-114 | The ten digits and their values |
| TomlTables.DecimalPlaces | corpus/tomli/upstream/tomli_loads.py:114 | A further digit counts ten times less than those before it |
| TomlTables.Escapes | corpus/tomli/upstream/tomli_loads.py:71-86 | After a backslash the letters 6e, 74, 72, 5c and 22 give the code points 0a, 09, 0d, 5c and 22; any other letter, or the end, is an error |
| TomlTables.StringCharacters | corpus/tomli/upstream/tomli_loads.py:68-89 | A quote ends the string, and any other character stands for itself |
| TomlTables.LiteralCharacters | corpus/tomli/upstream/tomli_loads.py:92-101 | Between apostrophes a backslash is a backslash |
| TomlTables.EscapeExample | corpus/tomli/upstream/tomli_loads.py:73-84 | A text with the escapes n, t and r loads to a newline, a tab and a return |
| TomlTables.BadEscapeFails | corpus/tomli/upstream/tomli_loads.py:85-86 | Any other letter after a backslash makes the text fail, whatever stands before and after |
| TomlTables.DocumentExample | corpus/tomli/upstream/tomli_loads.py:128-265 | A document with a header, a number, a truth value, strings, an array, an inline table and a comment loads to its tree |
| Decimals.DigitsRoundTrip | corpus/tomli/upstream/tomli_loads.py:104-114 | Every number is the value of its decimal digits |
| TomlRange.LoadsRange | corpus/tomli/upstream/tomli_loads.py:172-190 | A tree is the result of loading some text exactly if all its keys are non-empty bare keys |
| TomlDeviations.TrailingCommaIsIgnored | corpus/tomli/upstream/tomli_loads.py:193-219 | An inline table with a comma before its closing brace loads as the table without it, whatever the pairs and the layout |
| TomlDeviations.CommaExample | corpus/tomli/spec.toml:97 | `a={b=1,}` and `a={b=1}` load to the same tree |
| TomlDeviations.RepeatedKeyExample | corpus/tomli/upstream/tomli_loads.py:235-241 | The second of two pairs `a=1` and `a=2` wins |
| TomlDeviations.ExtendedTableExample | corpus/tomli/upstream/tomli_loads.py:256-265 | A header `[a]` after `a={b=1}` adds to that inline table |
| TomlSpec.ParseValue | corpus/tomli/upstream/tomli_loads.py:128-144 | A successful parse consumes at least one character and stays inside the text, and the recursion ends on every text |
| TomlPaths.PutIsSet | corpus/tomli/upstream/tomli_loads.py:235-241 | A write through the current table replaces that table, and fails exactly if there is none |
| TomlPaths.TouchFails | corpus/tomli/upstream/tomli_loads.py:257-263 | A header fails exactly if a value before the end of its path is there and is no table |
| TomlPaths.TouchReaches | corpus/tomli/upstream/tomli_loads.py:257-263 | After a header its path leads through tables only |
| TomlPaths.TouchAddsNothingElse | corpus/tomli/upstream/tomli_loads.py:257-263 | A header adds nothing on any other path |
| TomlPaths.PutElsewhere | corpus/tomli/upstream/tomli_loads.py:241 | Such a write changes nothing on any other path |
| TomlPaths.TouchKeepsLeaves | corpus/tomli/upstream/tomli_loads.py:258-262 | A header never loses or changes a value that is not a table |
| TomlPaths.TouchMissing | corpus/tomli/upstream/tomli_loads.py:259-261 | A header for a missing key adds one empty table there |
| TomlPaths.TouchPresent | corpus/tomli/upstream/tomli_loads.py:258-262 | A header for a table that is there changes nothing |
| TomlPaths.PutHere | corpus/tomli/upstream/tomli_loads.py:241 | The written value is found where it was written |
| TomlMirror.StoreMirrors | corpus/tomli/upstream/tomli_loads.py:241-261 | Writing into one dictionary sets one key of one table of the tree, and no dictionary comes to be shared |
| TomlMirror.MirrorIsUnique | corpus/tomli/upstream/tomli_loads.py:250-265 | Dictionaries reached from a root stand for one tree only |
| Toml.State.Expect | corpus/tomli/upstream/tomli_loads.py:44-47 | Moves past the expected character or fails without moving |
| Toml.SkipWhitespace | corpus/tomli/upstream/tomli_loads.py:50-60 | The nested loops stop where the specification says |
| Toml.ParseBasicString | corpus/tomli/upstream/tomli_loads.py:63-89 | Reads up to the closing quote with escapes, or fails on every unterminated or bad one |
| Toml.ParseLiteralString | corpus/tomli/upstream/tomli_loads.py:92-101 | Reads up to the closing quote or fails |
| Toml.ParseInt | corpus/tomli/upstream/tomli_loads.py:104-114 | The sign and the whole run of digits |
| Toml.ParseBool | corpus/tomli/upstream/tomli_loads.py:117-125 | One of the two words or failure |
| Toml.ParseValue | corpus/tomli/upstream/tomli_loads.py:128-144 | Dispatch by the first character, with the cursor left at the end of the value |
| Toml.ParseArray | corpus/tomli/upstream/tomli_loads.py:147-169 | The loop over items, with or without a trailing comma |
| Toml.ParseKey | corpus/tomli/upstream/tomli_loads.py:172-190 | The longest run of key characters, or failure |
| Toml.ParseInlineTable | corpus/tomli/upstream/tomli_loads.py:193-219 | The loop over pairs, later keys winning |
| Toml.ParseTableHeader | corpus/tomli/upstream/tomli_loads.py:222-232 | The keys of a header |
| Toml.Store | corpus/tomli/upstream/tomli_loads.py:241-261 | One write into one dictionary; the dictionaries then stand for the tree with that key set, the others are untouched, and new ones are fresh |
| Toml.ParseKv | corpus/tomli/upstream/tomli_loads.py:235-241 | Reads a pair and writes it through the current alias; the dictionaries then stand for the updated tree |
| Toml.Descend | corpus/tomli/upstream/tomli_loads.py:258-262 | Moves the cursor one key down, creating the missing dictionary, and stays at the dictionary of the longer path |
| Toml.Walk | corpus/tomli/upstream/tomli_loads.py:257-263 | After a header the alias is the dictionary reached from the root by its path, or some other value if no table is there |
| Toml.Loads | corpus/tomli/upstream/tomli_loads.py:244-265 | The aliased dictionaries that are built form an unshared tree that stands for the fold of the parsed statements, and errors are those of the fold |
| Calendar.TableLookup | corpus/dateutil/upstream/relativedelta_core.py:13-28 | Month lengths are those of the two tables |
| Calendar.ValidIsUnique | corpus/dateutil/upstream/relativedelta_core.py:31-69 | There is one in-range date and time for each absolute second |
| Calendar.DateOrder | corpus/dateutil/upstream/relativedelta_core.py:31-69 | Valid dates are ordered as their day counts |
| Calendar.MonthStartClosed | corpus/dateutil/upstream/relativedelta_core.py:17-28 | Counting month by month gives the closed formula with its leap-year terms |
| Calendar.FourCenturies | corpus/dateutil/upstream/relativedelta_core.py:17-28 | 400 years are 146097 days and month lengths repeat |
| RelativeDelta.Normalize | corpus/dateutil/upstream/relativedelta_core.py:31-69 | The ten loops end on all integers with a valid date and time of the same absolute second |
| RelativeDelta.NormalizeIsDetermined | corpus/dateutil/upstream/relativedelta_core.py:31-69 | Any valid result with that absolute second is the one returned |
| RelativeDelta.NormalizedClosedForm | corpus/dateutil/upstream/relativedelta_core.py:31-69 | All six fields of the result are divisions and remainders of the six fields given, without any loop |
| CivilDate.DateAt | corpus/dateutil/upstream/relativedelta_core.py:31-69 | The date of eras of 146097 days is a valid date with the given day count |
| CivilDate.DateOfDay | corpus/dateutil/upstream/relativedelta_core.py:31-69 | That date, of the day of any valid date, is the valid date itself |
| CivilDate.YearOfEraCorrect | corpus/dateutil/upstream/relativedelta_core.py:17-28 | The year within an era leaves a day of the year in range, and a day 365 only before a leap day |
| RelativeDelta.NormalizeIsIdempotent | corpus/dateutil/upstream/relativedelta_core.py:31-69 | Valid fields are left alone, so normalising twice is normalising once |
| RelativeDelta.RelativeDeltaAdd | corpus/dateutil/upstream/relativedelta_core.py:72-100 | Years and months first with the day clamped, then the rest, normalised |
| RelativeDelta.TimeDeltaAddsSeconds | corpus/dateutil/upstream/relativedelta_core.py:93-99 | A delta of weeks to seconds moves the absolute second by exactly that much |
| RelativeDelta.UnitsInSeconds | corpus/dateutil/upstream/relativedelta_core.py:93-99 | A week is 604800 seconds, a day 86400, an hour 3600 and a minute 60 |
| RelativeDelta.NewYear | corpus/dateutil/upstream/relativedelta_core.py:31-69 | A second after the last one of a year it is 1 January of the next |
| RelativeDelta.LeapDay | corpus/dateutil/upstream/relativedelta_core.py:17-69 | A second after 28 February it is 29 February exactly in years divisible by 400, or by 4 and not by 100 |
| RelativeDelta.TimeDeltasCompose | corpus/dateutil/upstream/relativedelta_core.py:93-99 | Such deltas act as a group: they add up, and the opposite undoes |
| RelativeDelta.TimeDeltasKeepOrder | corpus/dateutil/upstream/relativedelta_core.py:93-99 | They keep strict order in both directions |
| RelativeDelta.FourCenturiesAreDays | corpus/dateutil/upstream/relativedelta_core.py:72-100 | Adding 146097 days equals adding 400 years |
| RelativeDelta.MonthDeltaMovesMonths | corpus/dateutil/upstream/relativedelta_core.py:82-92 | The month index moves by 12 * years + months, the day is the smaller of itself and the month's length, the time stays |
| RelativeDelta.MonthsThenTime | corpus/dateutil/upstream/relativedelta_core.py:79-99 | Any delta is its years and months followed by the rest |
| RelativeDelta.MonthDeltasKeepDateOrder | corpus/dateutil/upstream/relativedelta_core.py:82-92 | On dates, month deltas never reverse the order |
| RelativeDelta.MonthDeltaMerges | corpus/dateutil/upstream/relativedelta_core.py:90-92 | Different dates become equal exactly if both are clamped to the end of one month |
| RelativeDelta.MonthDeltasAndOrder | corpus/dateutil/upstream/relativedelta_core.py:82-92 | With times of day the order fails exactly if the days are clamped together and the earlier day has the later time |
| RelativeDelta.OrderCanFail | corpus/dateutil/upstream/relativedelta_core.py:82-92 | In every year, one month after 30 January at noon is later than one month after 31 January at midnight |
| RelativeDelta.MonthDeltasCompose | corpus/dateutil/upstream/relativedelta_core.py:82-92 | Two month deltas add up exactly if the month between is long enough |
| ParseIso.Parse | corpus/dateutil/upstream/parser_core.py:39-101 | The step-by-step reader computes the function that the grammar theorems are about |
| ParseIso.TakeDigitsLoop | corpus/dateutil/upstream/parser_core.py:23-30 | So many digits and their value, or failure |
| ParseIso.ReadsStamp | corpus/dateutil/upstream/parser_core.py:39-101 | Every in-range text of the five forms is accepted, whole, with the fields it says |
| ParseIso.StampFound | corpus/dateutil/upstream/parser_core.py:39-101 | Everything accepted is such a text |
| ParseIso.AcceptsExactlyStamps | corpus/dateutil/upstream/parser_core.py:47-52 | The accepted language and the result for each text in it |
| ParseIso.FieldsDetermineText | corpus/dateutil/upstream/parser_core.py:79-101 | Two accepted texts give the same fields only if they are equal, but for the sign of a zero offset |
| ParseIso.RenderedFields | corpus/dateutil/upstream/parser_core.py:39-101 | Rendering the fields and reading again returns them |
| ParseIso.FebruaryHas31Days | corpus/dateutil/upstream/parser_core.py:62-65 | 2023-02-31 is accepted |
| ParseIso.MinuteHas61Seconds | corpus/dateutil/upstream/parser_core.py:70-79 | 2023-02-01T00:00:60Z is accepted with second 60 |
| ParseIso.ReadRange | corpus/dateutil/upstream/parser_core.py:39-101 | Nine fields are read from some text exactly if each is in its range, given in numbers |
| ParseIso.OffsetExample | corpus/dateutil/upstream/parser_core.py:86-96 | 2023-02-01T03:04:05-06:30 has the offset -390 |
| Broadcast.BroadcastShape | crates/cobrust-coil/src/broadcast.rs:35-60 | The loop and the reversal compute the axis-wise join, and fail exactly if some pair of axes has none |
| Broadcast.JoinAxes | crates/cobrust-coil/src/broadcast.rs:35-60 | The axes of the result by index: the shorter shape lined up with the end of the longer, equal or 1 giving way, and the first axes of the longer kept |
| Broadcast.LeastUpperBound | crates/cobrust-coil/src/broadcast.rs:10-17 | The result is the least shape that both stretch to, and exists exactly if any such shape does |
| Broadcast.JoinCommutes | crates/cobrust-coil/src/broadcast.rs:35-60 | Commutative, with failures |
| Broadcast.JoinAssociates | crates/cobrust-coil/src/broadcast.rs:35-60 | Associative, including when a grouping fails |
| Broadcast.JoinUnits | crates/cobrust-coil/src/broadcast.rs:16-17 | Idempotent, and a scalar changes nothing |
| Broadcast.JoinIsMaxUnlessEmpty | crates/cobrust-coil/src/broadcast.rs:12-14 | An axis is the maximum of the two exactly unless a 0 meets a 1, and then it is 0 |
| NestedList.InferShapeLoop | crates/cobrust-coil/src/constructors.rs:377-402 | The sibling loop computes the inferred shape or fails |
| NestedList.InfersExactly | crates/cobrust-coil/src/constructors.rs:377-402 | A shape is inferred exactly if the list is regular with that shape and no axis follows an empty one |
| NestedList.RejectsExactlyRagged | crates/cobrust-coil/src/constructors.rs:387-397 | Inference fails exactly on lists that are regular with no shape at all |
| NestedList.FlattenInto | crates/cobrust-coil/src/constructors.rs:411-420 | Pushes all elements, in order, after what the buffer held |
| NestedList.FlattenSize | crates/cobrust-coil/src/constructors.rs:405-420 | There are as many elements as the product of the shape |
| NestedList.FlattenIsRowMajor | crates/cobrust-coil/src/constructors.rs:404-420 | The element at a multi-index stands at its row-major offset |
| NestedList.OffsetOfTwo | crates/cobrust-coil/src/constructors.rs:404-420 | In two dimensions row i starts after i rows |
| NestedList.SaturatesAt64Bits | crates/cobrust-coil/src/array.rs:141-147 | A product is cut off at two to the 64, less one |
| NestedList.ShapeSize | crates/cobrust-coil/src/array.rs:141-147 | The saturating product is the smaller of the true product and usize::MAX, also when a later axis is 0 |
| NestedList.ArrayFromNested | crates/cobrust-coil/src/constructors.rs:429-433 | Fails exactly on ragged lists, never on the length check |
| Diagonals.Eye | crates/cobrust-coil/src/constructors.rs:634-645 | Ones exactly on diagonal k |
| Diagonals.Tri | crates/cobrust-coil/src/constructors.rs:655-667 | Ones exactly at and below diagonal k |
| Diagonals.Tril | crates/cobrust-coil/src/constructors.rs:691-704 | The entries at and below diagonal k, zeros elsewhere, or the shape error |
| Diagonals.Triu | crates/cobrust-coil/src/constructors.rs:714-727 | The entries at and above diagonal k, zeros elsewhere, or the shape error |
| Diagonals.DiagConstruct | crates/cobrust-coil/src/constructors.rs:752-766 | The vector on diagonal k of a square matrix of zeros |
| Diagonals.DiagExtract | crates/cobrust-coil/src/constructors.rs:769-788 | Exactly diagonal k of any rectangular matrix |
| Diagonals.Diag | crates/cobrust-coil/src/constructors.rs:740-749 | Construction on vectors, extraction on matrices, error otherwise |
| Diagonals.RowsInOrder | crates/cobrust-coil/src/constructors.rs:634-645 | The cell in row r and column c stands at r * cols + c |
| Diagonals.CellsAre | crates/cobrust-coil/src/constructors.rs:634-766 | What each of the five matrices holds in row r and column c, by c - r |
| Diagonals.DiagonalIs | crates/cobrust-coil/src/constructors.rs:769-788 | Every cell on diagonal k and no other is extracted, from the top left on |
| Diagonals.ExtractConstructed | crates/cobrust-coil/src/constructors.rs:752-788 | Extracting the diagonal a vector was placed on returns the vector |
| Diagonals.OtherDiagonalsAreZero | crates/cobrust-coil/src/constructors.rs:752-788 | Every other diagonal of that matrix is zero |
| Diagonals.TrianglesPartition | crates/cobrust-coil/src/constructors.rs:691-727 | tril(m, k) and triu(m, k + 1) divide the entries of m between them |
| Diagonals.TrianglesMeet | crates/cobrust-coil/src/constructors.rs:691-727 | triu(tril(m, k), k) keeps exactly diagonal k |
| Diagonals.IndicatorsAgree | crates/cobrust-coil/src/constructors.rs:634-704 | tril is the product with tri, and eye the difference of neighbouring tris |
| Diagonals.CellsDetermine | crates/cobrust-coil/src/constructors.rs:634-727 | The statements about cells fix the whole row-major buffer |
| OrderStatistics.MedianScalar | crates/cobrust-coil/src/aggregates.rs:113-141 | The median of the sorted values, NaN for no values or any NaN |
| OrderStatistics.PercentileScalar | crates/cobrust-coil/src/aggregates.rs:373-398 | Linear interpolation in the sorted values at the clamped percentage, NaN as documented |
| OrderStatistics.NodesAreValues | crates/cobrust-coil/src/aggregates.rs:373-398 | Of n ascending values the i-th is the percentile at 100 * i / (n - 1) |
| OrderStatistics.AffineBetweenNodes | crates/cobrust-coil/src/aggregates.rs:391-397 | Between two neighbouring such percentages the percentile moves in proportion to the percentage |
| OrderStatistics.QuarterExample | crates/cobrust-coil/src/aggregates.rs:391-397 | The 25th percentile of 10 and 20 is 12.5 |
| OrderStatistics.OnlyValue | crates/cobrust-coil/src/aggregates.rs:387-389 | A single value is its own percentile, at any percentage |
| OrderStatistics.NoResult | crates/cobrust-coil/src/aggregates.rs:373-381 | NaN exactly for no data, a NaN among them, or a percentage that is NaN; the median likewise |
| OrderStatistics.PermutationInvariant | crates/cobrust-coil/src/aggregates.rs:373-398 | The order of the data is immaterial to both |
| OrderStatistics.MonotoneInQ | crates/cobrust-coil/src/aggregates.rs:383-398 | A larger percentage never gives a smaller value |
| OrderStatistics.WithinRange | crates/cobrust-coil/src/aggregates.rs:373-398 | Always between the smallest and the largest value |
| OrderStatistics.Extremes | crates/cobrust-coil/src/aggregates.rs:382-383 | The minimum at 0 and below, the maximum at 100 and above |
| OrderStatistics.FiftyIsMedian | crates/cobrust-coil/src/aggregates.rs:113-141 | The 50th percentile is the separately coded median, for odd and even lengths |

## Left out

- MsgpackRoundTrip.RoundTrip: values outside `InScope` (integers beyond 64 bits, lengths of 2^32 or more, maps with other than string keys); for integers `IntRoundTrip` says what comes back.
- Msgpack.PackFloat: a float is its eight bytes; `struct.pack`, and which bit pattern a NaN has, are not modelled.
- Msgpack.UnpackFloat: widening four bytes to eight is exact on numbers; what hardware does to the payload of a NaN is not modelled.
- Msgpack.UnpackMap: map keys are compared as decoded values; Python's identification of `True`, `1` and `1.0` as keys is not modelled.
- Msgpack.SortKeys: strings are their UTF-8 bytes (`Utf8.KeyOrderIsCodePointOrder`); the library sort is an insertion sort here.
- Msgpack.UnpackOne: Python's recursion limit is not modelled.
- LoweringMeaning.LoweringPreservesSteps: for bodies whose locals are all Int or None and in which nothing jumps to the entry, whose zeroing would be repeated; the meaning of Bool and narrow integer locals is not given.
- LoweringAcceptance.AcceptsExactlyWave1: bodies that are not valid MIR, such as one without a block 0, on which the code panics.
- LoweringTypes.WellFormedExactlyTyped: well-formedness is stated here; Cranelift's own verifier, SSA construction, block sealing and panics are not part of this model.
- Lowering.Lower: the calling convention, names, error messages and the MIR outside wave 1 (its kinds are rejected by name only).
- Toml.Build: an inline table is read as a value and becomes dictionaries, one for each nested table, when it is stored; the source makes them while it reads. Arrays are stored as values, since no header can reach into one.
- Toml.Loads: recursion limits and Python's limit on the number of digits in an integer are not modelled; all lexical errors are one `TomliError`.
- TomlLanguage.LoadsExactlyWritten: which of the two errors another text gives is said by `Toml.Loads` only.
- ParseIso.Parse: one error value for all error messages.
- RelativeDelta.RelativeDeltaAdd: integers are unbounded, as in Python; the limits of Python's own datetime type do not arise.
- NestedList.ArrayFromNested: dtype casts and the library's array type; an array is its shape and its elements.
- NestedList.ShapeSize: `usize` is 64 bits wide.
- Diagonals.Diag: entries are exact numbers, so the 64-bit float lane (exact for integers within 2^53), dtype casts, and overflow of the offset k in i64 are not modelled.
- OrderStatistics.PercentileScalar: exact reals and NaN; rounding and infinities are not modelled, and the library sort is the function `Sorted`.
- `corpus/msgpack/upstream/fallback.py` and `corpus/dateutil/upstream/dateutil_core.py`: the same code again.
- `pack_uint_cython` and `unpack_uint_cython`: the same loops without branches.
- `linspace`, `logspace`, `arange_count`, `elementwise.rs`: floating-point rounding is their point.
- The command line, the linker, error rendering, the debugger and language-server wrappers, and `corpus/click` and `corpus/requests`: input and output, or loops over options, with nothing harder to prove.
