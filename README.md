# tqrespec save-file edit overlay, in Dafny

tqrespec is a character editor for Titan Quest save files. Its parser indexes a save file into
blocks of variables. Edits are then not written into the file directly: `FileDataMap` keeps an
in-memory overlay of replacement bytes keyed by file offset, each with the number of original
bytes it replaces, and the writer later splices them in. This project models that overlay, the
`VariableInfo` descriptor whose byte geometry the overlay relies on, and the stash schema table
`StashFileVariable`, and proves properties of them.

Modules, one per concern:

- `Outcomes` (`outcomes.dfy`): nullable references (`Option`), methods that return or throw
  (`Result`, `Outcome`), and one `Error` constructor per Java exception the code can raise.
- `ValueCodec` (`value_codec.dfy`):
  - Java `byte`, `int`, `char` and `String`, with 32-bit wrap-around written out;
  - little-endian int32 encoding and its round trips;
  - `encodeString` at 1, 2 or 4 bytes per code unit, as a loop over an array;
  - the UTF-16LE and UTF-32LE decoders, the default-charset pass and the UTF-8 encoder.
- `Variables` (`variable_info.dfy`):
  - the descriptor as a datatype, with its derived lengths (`getValuePrefix`,
    `getValBytesLength`, `getVariableBytesLength`), `getAlias` and `getValue`;
  - the builder, as a class whose setters update its fields and whose `BuildInfo` method
    defaults them, proved against the `Build` function.
- `Blocks` (`block_info.dfy`): a block of the index; its variables form a list multimap keyed by
  name, and its staging map.
- `StashFileVariables` (`stash_file_variable.dfy`): the static name table and `valueOf`.
- `OverlaySpec` (`overlay_spec.dfy`): value-level definitions of what the overlay stages,
  with the lemmas about them:
  - the record an insertion writes;
  - one conversion step and the whole conversion fold;
  - the block listings.
- `FileDataMaps` (`file_data_map.dfy`): the `FileDataMap` class. Its fields are `changes`,
  `valuesLengthIndex`, `blockInfo`, `variableLocation` and `platform`.
  - Lookups are functions over these fields.
  - Each write is a method that states the whole new state and keeps the invariant `Valid()`:
    every staged change has a recorded length.
  - `convertTo`'s two loops are methods proved equal to the fold `ConvertAll`.
  - `insertVariable`'s buffer fill is a method over a zeroed array, proved equal to `InsertionBytes`.

What the code does, as the model states it:

- **Set/get round trip.** After `setInt(name, v)` returns, `getInt(name)` is `v`, because the
  staged little-endian bytes take precedence over the parse-time value.
  - `getString` never consults the overlay, so after `setString` it still returns the
    parse-time text.
- **Name-only setters.** They throw `IllegalStateException` when the name is located in more
  than one block.
- **Block-scoped `setInt`.** It throws when the block holds the name more than once, and does
  nothing when the block is not in the index.
- **`insertVariable`.** The buffer is 4 bytes larger than what is written into it, for a
  narrow string made by the builder. The cause is that the value offset the builder computes
  already counts the 4-byte length prefix, and `getVariableBytesLength` adds it again. The
  record is therefore followed by 4 zero bytes.
  - For a 16-bit string made by the builder, the unit count is scaled by `utf16SizeBytes`
    twice: once as the value size, once in `getValBytesLength`.
- **`convertTo`, Windows to mobile.** It inserts `mySaveId` at `myPlayerName`'s key offset. It
  then re-stages every non-empty UTF-16LE string as the same unit count followed by UTF-32LE
  units.
- **`convertTo`, mobile to Windows.** It stages the removal of every `mySaveId` and re-stages
  every non-empty UTF-32LE string as UTF-16LE.
  - A UTF-32LE string with no staged edit cannot be converted: `getValueString()` is null for
    that type, so the conversion throws `NullPointerException`.
  - A conversion reads the staged value when there is one.
- **Round trip, as written.** Windows to mobile and back does not restore the file. The trip
  back re-encodes only strings that were parsed as UTF-32LE, and removes only a `mySaveId` that
  was parsed. A Windows file has neither. So every non-empty UTF-16LE string stays staged at 32
  bits, and the inserted `mySaveId` stays staged (see Findings).
- **Failed conversions.** A conversion stops at the first exception, with the edits made so far
  left in place. The platform field is switched before anything else, even when the
  conversion throws.

## Model

| member | source | states |
|---|---|---|
| ValueCodec.ToInt32 | src/main/java/br/com/pinter/tqrespec/save/FileDataMap.java:377-379 | Java's narrowing to `int`: congruent to the input modulo 2^32, and equal to it inside the int range |
| ValueCodec.DecodeEncodeInt32 | src/main/java/br/com/pinter/tqrespec/save/FileDataMap.java:249-251 | reading back the little-endian bytes `putInt` wrote gives the integer |
| ValueCodec.EncodeDecodeInt32 | src/main/java/br/com/pinter/tqrespec/save/FileDataMap.java:249-251 | writing the integer that four bytes read as gives those four bytes back |
| ValueCodec.CharBytes | src/main/java/br/com/pinter/tqrespec/save/FileDataMap.java:294-305 | one code unit's bytes: as many as the width's unit, the low byte first, the high byte second for the wide widths, two zero bytes last for 32 bits |
| ValueCodec.StripAll | src/main/java/br/com/pinter/tqrespec/save/FileDataMap.java:292 | the stripped string has the same length, and each unit is the stripper applied to the unit at that position |
| ValueCodec.StringBytes | src/main/java/br/com/pinter/tqrespec/save/FileDataMap.java:287-289 | the encoding is exactly `length() * dataTypeSize()` bytes |
| ValueCodec.StringBytesAt | src/main/java/br/com/pinter/tqrespec/save/FileDataMap.java:291-306 | code unit i occupies bytes [i·unit, (i+1)·unit) of the encoding, and those bytes are its stripped unit's bytes |
| ValueCodec.StripEquivalentEncodeEqually | src/main/java/br/com/pinter/tqrespec/save/FileDataMap.java:291-292 | two strings whose units strip to the same units encode to the same bytes |
| ValueCodec.PutChar | src/main/java/br/com/pinter/tqrespec/save/FileDataMap.java:294-305 | one `buffer.put`: the prefix before the position is kept and the unit's bytes follow it |
| ValueCodec.EncodeString | src/main/java/br/com/pinter/tqrespec/save/FileDataMap.java:287-308 | the array loop produces exactly the encoding `StringBytes` defines |
| ValueCodec.PutUnit | src/main/java/br/com/pinter/tqrespec/save/FileDataMap.java:291-306 | one iteration of the loop extends the encoded prefix in the buffer by the next stripped unit |
| ValueCodec.EncodeStep | src/main/java/br/com/pinter/tqrespec/save/FileDataMap.java:291-306 | encoding one more unit appends its bytes at offset i·unit, which stays inside the allocated buffer |
| ValueCodec.EncodeInt32 | src/main/java/br/com/pinter/tqrespec/save/FileDataMap.java:193 | `putInt` in little-endian order: four bytes whose unsigned reading is the integer modulo 2^32 |
| ValueCodec.DecodeInt32 | src/main/java/br/com/pinter/tqrespec/save/FileDataMap.java:249-251 | `getInt` in little-endian order: the unsigned reading of the first four bytes, less 2^32 exactly when the top byte has its sign bit set |
| ValueCodec.DecodeWide16 | src/main/java/br/com/pinter/tqrespec/save/FileDataMap.java:240 | UTF-16LE decoding as the JDK does it: at most one unit per byte pair, rounded up, and the result is always well paired, because U+FFFE, a lone or ill-paired surrogate and a trailing odd byte each become U+FFFD |
| ValueCodec.Wide16IllPairedExample | src/main/java/br/com/pinter/tqrespec/save/FileDataMap.java:240 | the units U+D800 U+0041 written at 16 bits decode to a single U+FFFD |
| ValueCodec.CodePointUnits | src/main/java/br/com/pinter/tqrespec/save/FileDataMap.java:238 | a decoded UTF-32 value below U+10000 is that unit; one up to U+10FFFF is a high and a low surrogate that compose back to it; anything larger is U+FFFD |
| ValueCodec.Utf32Units | src/main/java/br/com/pinter/tqrespec/save/FileDataMap.java:238 | the UTF-32LE decoding loop yields at most two units per four bytes, rounded up |
| ValueCodec.DecodeWide32 | src/main/java/br/com/pinter/tqrespec/save/FileDataMap.java:238 | UTF-32LE decoding, a leading byte order mark included, yields at most two units per four bytes, rounded up |
| ValueCodec.Wide32LeadingMark | src/main/java/br/com/pinter/tqrespec/save/FileDataMap.java:238 | bytes FF FE 00 00 at the start are a byte order mark and are dropped; the same bytes further on decode to U+FEFF |
| ValueCodec.Sanitize | src/main/java/br/com/pinter/tqrespec/save/FileDataMap.java:238-240 | the default-charset pass `new String(s.getBytes())` keeps the length, always gives well-paired text, and is the identity on well-paired text (so on text without surrogates) |
| ValueCodec.Wide16SupplementaryExample | src/main/java/br/com/pinter/tqrespec/save/FileDataMap.java:240 | U+1F600, written at 16 bits as the pair U+D83D U+DE00, decodes back to the pair |
| ValueCodec.Wide16PlainStep | src/main/java/br/com/pinter/tqrespec/save/FileDataMap.java:240 | a leading unit that is neither a surrogate nor U+FFFE decodes to itself, followed by the decoding of the rest |
| ValueCodec.Wide16PairStep | src/main/java/br/com/pinter/tqrespec/save/FileDataMap.java:240 | a leading high-low surrogate pair decodes to the pair, followed by the decoding of the rest |
| ValueCodec.DecodeWide16Append | src/main/java/br/com/pinter/tqrespec/save/FileDataMap.java:240 | UTF-16LE decoding splits at an even byte position when no high surrogate lies before it |
| ValueCodec.Utf32UnitsAppend | src/main/java/br/com/pinter/tqrespec/save/FileDataMap.java:238 | the UTF-32LE decoding loop splits at any byte position that is a multiple of four |
| ValueCodec.StringBytesCons | src/main/java/br/com/pinter/tqrespec/save/FileDataMap.java:291-306 | the encoding of a string is its first stripped unit's bytes followed by the encoding of the rest |
| ValueCodec.Wide16RoundTrip | src/main/java/br/com/pinter/tqrespec/save/FileDataMap.java:287-308 | decoding the 16-bit encoding of a string gives back its stripped units, when they are well paired (surrogate pairs included) and none is U+FFFE |
| ValueCodec.Utf32UnitsRoundTrip | src/main/java/br/com/pinter/tqrespec/save/FileDataMap.java:287-308 | the UTF-32LE decoding loop gives back the stripped units of any 32-bit encoding, surrogates included |
| ValueCodec.Wide32RoundTrip | src/main/java/br/com/pinter/tqrespec/save/FileDataMap.java:287-308 | decoding the 32-bit encoding gives back the stripped units, unless the first of them is U+FEFF, which is taken for a byte order mark |
| ValueCodec.CodePointUtf8 | src/main/java/br/com/pinter/tqrespec/save/FileDataMap.java:528-535 | a code point's UTF-8 form is 1 to 4 bytes, and is 1 byte exactly for ASCII |
| ValueCodec.Utf8 | src/main/java/br/com/pinter/tqrespec/save/FileDataMap.java:528-535 | `getBytes(UTF_8)` is never shorter than the string |
| ValueCodec.Utf8OfAscii | src/main/java/br/com/pinter/tqrespec/save/FileDataMap.java:528-535 | an ASCII string's UTF-8 bytes are its units, one byte each |
| ValueCodec.Utf8LongerThanNonAscii | src/main/java/br/com/pinter/tqrespec/save/FileDataMap.java:528-535 | one non-ASCII unit makes the UTF-8 bytes longer than `length()`, which is what the record's length fields count |
| Variables.WidthOf | src/main/java/br/com/pinter/tqrespec/save/FileDataMap.java:287-305 | the bytes per unit of a string type are 1 for narrow, 2 for UTF-16LE and 4 for UTF-32LE |
| Variables.Alias | src/main/java/br/com/pinter/tqrespec/save/VariableInfo.java:51-56 | the name when the alias is blank, and the alias when it is not |
| Variables.GetValue | src/main/java/br/com/pinter/tqrespec/save/VariableInfo.java:89-99 | the value field the type selects (integer; narrow or 16-bit string; float; UID or stream bytes), null exactly when that field is null, and always null for UTF-32LE |
| Variables.StringValueOf | src/main/java/br/com/pinter/tqrespec/save/VariableInfo.java:104-116 | for a string type, `getValueString()` is non-null exactly when `getValue()` is a string, and then equals it |
| Variables.ValuePrefix | src/main/java/br/com/pinter/tqrespec/save/VariableInfo.java:141-149 | the value-length prefix is 4 exactly for narrow strings, UTF-16LE strings and streams, and 0 otherwise |
| Variables.ValBytesLength | src/main/java/br/com/pinter/tqrespec/save/VariableInfo.java:121-127 | the value size for every type but UTF-16LE; for UTF-16LE exactly valSize times utf16SizeBytes, never smaller than the size |
| Variables.VariableBytesLength | src/main/java/br/com/pinter/tqrespec/save/VariableInfo.java:133-139 | name length plus 4 without a value offset; otherwise the span runs from the key offset to the end of the prefix and value bytes |
| Variables.WideValueBytes | src/main/java/br/com/pinter/tqrespec/save/VariableInfo.java:121-127 | for a UTF-16LE string sized in units, at a unit size of 2 or 4 the value bytes are exactly its encoding at that width |
| Variables.ParsedStringSpan | src/main/java/br/com/pinter/tqrespec/save/VariableInfo.java:121-139 | for a parsed narrow or UTF-16LE string (size in units, utf16SizeBytes 2), the value bytes are exactly its encoding, and the span ends right after count and encoding |
| Variables.Build | src/main/java/br/com/pinter/tqrespec/save/VariableInfo.java:260-297 | build copies every field; resets a utf16SizeBytes other than 2 or 4 to exactly 2; keeps a set value size, else defaults it to 4 for integers and floats, 16 for UIDs, the byte count of a stream, the unit count of a narrow string, units × utf16SizeBytes of a UTF-16LE string, and -1 for a null value or a UTF-32LE string; keeps a set value offset or defaults it to keyOffset + 4 + name length + prefix; fails without a name or type |
| Variables.VariableInfoBuilder.constructor | src/main/java/br/com/pinter/tqrespec/save/VariableInfo.java:187-198 | a new builder has every field unset: null references, offsets and size -1, utf16SizeBytes 2 |
| Variables.VariableInfoBuilder.Name | src/main/java/br/com/pinter/tqrespec/save/VariableInfo.java:200-203 | sets the name and nothing else |
| Variables.VariableInfoBuilder.Alias | src/main/java/br/com/pinter/tqrespec/save/VariableInfo.java:205-208 | sets the alias and nothing else |
| Variables.VariableInfoBuilder.KeyOffset | src/main/java/br/com/pinter/tqrespec/save/VariableInfo.java:210-213 | sets the key offset and nothing else |
| Variables.VariableInfoBuilder.ValOffset | src/main/java/br/com/pinter/tqrespec/save/VariableInfo.java:215-218 | sets the value offset and nothing else |
| Variables.VariableInfoBuilder.ValSize | src/main/java/br/com/pinter/tqrespec/save/VariableInfo.java:220-223 | sets the value size and nothing else |
| Variables.VariableInfoBuilder.StringValue | src/main/java/br/com/pinter/tqrespec/save/VariableInfo.java:225-228 | sets the string value and nothing else |
| Variables.VariableInfoBuilder.IntValue | src/main/java/br/com/pinter/tqrespec/save/VariableInfo.java:230-233 | sets the integer value and nothing else |
| Variables.VariableInfoBuilder.FloatValue | src/main/java/br/com/pinter/tqrespec/save/VariableInfo.java:235-238 | sets the float value (as its bits) and nothing else |
| Variables.VariableInfoBuilder.BytesValue | src/main/java/br/com/pinter/tqrespec/save/VariableInfo.java:240-243 | sets the byte-array value and nothing else |
| Variables.VariableInfoBuilder.Type | src/main/java/br/com/pinter/tqrespec/save/VariableInfo.java:245-248 | sets the type and nothing else |
| Variables.VariableInfoBuilder.BlockOffset | src/main/java/br/com/pinter/tqrespec/save/VariableInfo.java:250-253 | sets the block offset and nothing else |
| Variables.VariableInfoBuilder.Utf16SizeBytes | src/main/java/br/com/pinter/tqrespec/save/VariableInfo.java:255-258 | sets utf16SizeBytes and nothing else |
| Variables.VariableInfoBuilder.BuildInfo | src/main/java/br/com/pinter/tqrespec/save/VariableInfo.java:260-297 | the step-by-step build returns what `Build` states of the builder's fields, and leaves the builder with its utf16SizeBytes reset to 2 when it was neither 2 nor 4 |
| Variables.BuiltRecordSpan | src/main/java/br/com/pinter/tqrespec/save/VariableInfo.java:133-139 | for a builder-made descriptor, the span is the on-disk record for integers, floats and UIDs; the record plus 4 for narrow strings and streams; and for UTF-16LE strings the record plus 4 plus (utf16SizeBytes² − 2) bytes per unit |
| Blocks.Occurrences | src/main/java/br/com/pinter/tqrespec/save/FileDataMap.java:140-153 | `getVariables().get(name)` holds exactly the block's variables with that name, and no more of them than the block has |
| Blocks.OccurrencesCount | src/main/java/br/com/pinter/tqrespec/save/FileDataMap.java:140-153 | each variable with the name is in `get(name)` as many times as in the block, and no other variable is |
| Blocks.OccurrencesAppend | src/main/java/br/com/pinter/tqrespec/save/FileDataMap.java:180-181 | the occurrences of a concatenation are the first part's followed by the second's, so the block's order is kept |
| Blocks.FirstOccurrence | src/main/java/br/com/pinter/tqrespec/save/FileDataMap.java:140-153 | `get(name).get(0)` is a variable of the block, and no earlier variable has that name |
| Blocks.ValOffsets | src/main/java/br/com/pinter/tqrespec/save/FileDataMap.java:499-503 | the value offsets of a block's variables: every variable's offset is in it, and nothing else is |
| StashFileVariables.ValueOf | src/main/java/br/com/pinter/tqrespec/save/stash/StashFileVariable.java:79-81 | the table's own entry for a name in the table, and null exactly otherwise; the entry carries that name and a string or integer type |
| StashFileVariables.TableEntriesNameThemselves | src/main/java/br/com/pinter/tqrespec/save/stash/StashFileVariable.java:33-51 | every entry's `var()` is the key it is stored under |
| StashFileVariables.TableTypes | src/main/java/br/com/pinter/tqrespec/save/stash/StashFileVariable.java:33-51 | exactly the eight name fields (fName, baseName, prefixName, suffixName, relicName, relicBonus, relicName2, relicBonus2) are strings, and every other entry is an integer |
| StashFileVariables.TableLocations | src/main/java/br/com/pinter/tqrespec/save/stash/StashFileVariable.java:33-51 | exactly the five body names are in the body; stackCount is in the item prefix; xOffset and yOffset are in the item suffix; everything else is in the item |
| OverlaySpec.Restaged | src/main/java/br/com/pinter/tqrespec/save/FileDataMap.java:276-280 | a staged string is 4 count bytes plus `length() * unit` bytes |
| OverlaySpec.RestagedKeepsCount | src/main/java/br/com/pinter/tqrespec/save/FileDataMap.java:276-280 | the leading int32 of a staged string reads back as its unit count, and the rest is its encoding |
| OverlaySpec.ReadStringFromMap | src/main/java/br/com/pinter/tqrespec/save/FileDataMap.java:234-241 | reading a staged wide string fails with IllegalArgument exactly when fewer than 4 bytes are staged; a text read is always well paired, and from Windows it is the UTF-16LE decoding of the bytes after the count |
| OverlaySpec.Wide32Restaging | src/main/java/br/com/pinter/tqrespec/save/FileDataMap.java:207-222 | a text whose stripped units are well paired, not led by U+FEFF and stable under the stripper, re-staged at 32 bits reads back from mobile as its stripped text, and re-staging that at 16 bits gives the bytes re-staging the text itself would |
| OverlaySpec.WideRestagingRoundTrip | src/main/java/br/com/pinter/tqrespec/save/FileDataMap.java:186-222 | for such a text with no U+FFFE either: staged at 16 bits it reads back as its stripped text; re-staged at 32 bits it reads back the same; re-staged at 16 bits again it gives the original bytes |
| OverlaySpec.RecordHeader | src/main/java/br/com/pinter/tqrespec/save/FileDataMap.java:524-529 | the header is the previous bytes, then 4 bytes that read back as the name's length, then the name's UTF-8 bytes |
| OverlaySpec.RecordValue | src/main/java/br/com/pinter/tqrespec/save/FileDataMap.java:530-535 | present exactly when the value is non-null; a UID's byte array as it is; for a narrow string, 4 bytes that read back as its unit count, then its UTF-8 bytes |
| OverlaySpec.HeaderAfter | src/main/java/br/com/pinter/tqrespec/save/FileDataMap.java:518-529 | a header written after previous bytes is those bytes followed by the header written alone |
| OverlaySpec.InsertionBytes | src/main/java/br/com/pinter/tqrespec/save/FileDataMap.java:516-540 | an inserted record is as long as the span plus the previous bytes; starts with the previous bytes; is header plus value then zeros; exists only for a UID or narrow string with a non-null value |
| OverlaySpec.InsertionsCompose | src/main/java/br/com/pinter/tqrespec/save/FileDataMap.java:518-526 | two insertions at one offset without overwrite stage the first record followed by the second |
| OverlaySpec.SaveIdVariable | src/main/java/br/com/pinter/tqrespec/save/FileDataMap.java:171-177 | the synthesized mySaveId is a narrow string holding the save id, at the player name's key offset and block |
| OverlaySpec.BuiltStringInsertionPadding | src/main/java/br/com/pinter/tqrespec/save/FileDataMap.java:516-540 | inserting a builder-made narrow string with an ASCII name and value writes its record followed by exactly 4 zero bytes |
| OverlaySpec.StringInsertionPadding | src/main/java/br/com/pinter/tqrespec/save/FileDataMap.java:516-540 | a narrow string whose span is its record plus 4 is inserted as the record followed by 4 zero bytes |
| OverlaySpec.SourceString | src/main/java/br/com/pinter/tqrespec/save/FileDataMap.java:186-216 | with no staged edit, the text converted is the parse-time string, and it exists exactly when `getValueString()` is non-null |
| OverlaySpec.ConvertStep | src/main/java/br/com/pinter/tqrespec/save/FileDataMap.java:182-222 | a step that throws does so only at a re-encoded variable, with IllegalArgument or NullPointer, and leaves the overlay unchanged; a step that completes adds exactly the offsets it touches; every other offset keeps its bytes and length |
| OverlaySpec.ConvertAll | src/main/java/br/com/pinter/tqrespec/save/FileDataMap.java:180-226 | a conversion never drops a staged offset, and throws only IllegalArgument or NullPointer |
| OverlaySpec.ConvertAllAppend | src/main/java/br/com/pinter/tqrespec/save/FileDataMap.java:180-226 | converting a concatenation converts the first part, then the second from where the first stopped, unless the first threw |
| OverlaySpec.AllOccurrencesMembers | src/main/java/br/com/pinter/tqrespec/save/FileDataMap.java:180-181 | the loops visit exactly the variables of the listed blocks |
| OverlaySpec.AllOccurrencesIgnoreStaging | src/main/java/br/com/pinter/tqrespec/save/FileDataMap.java:179-181 | the occurrences the loops visit do not depend on the staging maps, so the insertion before the loop does not change them |
| OverlaySpec.ConvertAllCovered | src/main/java/br/com/pinter/tqrespec/save/FileDataMap.java:180-226 | conversion keeps every staged change paired with a recorded length |
| OverlaySpec.ConvertAllFrame | src/main/java/br/com/pinter/tqrespec/save/FileDataMap.java:180-226 | an offset no visited variable's step writes keeps its staged bytes and recorded length, whether or not the conversion throws |
| OverlaySpec.ConvertAllRestages | src/main/java/br/com/pinter/tqrespec/save/FileDataMap.java:182-222 | after a completed conversion, a non-empty source-width string whose offset nothing else writes holds its text re-staged at the other width with its count, and the length of prefix plus value bytes |
| OverlaySpec.ConvertAllRemovesSaveId | src/main/java/br/com/pinter/tqrespec/save/FileDataMap.java:204-205 | after a completed conversion from mobile, every mySaveId whose key offset nothing else writes has been removed over its whole span |
| OverlaySpec.ConvertUnstagedWide32Fails | src/main/java/br/com/pinter/tqrespec/save/FileDataMap.java:207-217 | leaving mobile, a non-empty UTF-32LE string with no staged edit throws NullPointer, and nothing is staged for it |
| OverlaySpec.ConvertAllFailure | src/main/java/br/com/pinter/tqrespec/save/FileDataMap.java:180-226 | a conversion throws only at a variable it re-encodes: a non-empty source-width string other than mySaveId |
| OverlaySpec.ConvertAllPasses | src/main/java/br/com/pinter/tqrespec/save/FileDataMap.java:180-226 | a conversion completes when no two visited variables touch the same offset and every text it re-encodes can be read |
| OverlaySpec.AsWrittenConversionBackIsIdle | src/main/java/br/com/pinter/tqrespec/save/FileDataMap.java:201-227 | on a Windows document (no UTF-32LE string, no mySaveId) the conversion back from mobile stages nothing and completes |
| OverlaySpec.AsWrittenRoundTrip | src/main/java/br/com/pinter/tqrespec/save/FileDataMap.java:170-227 | as written, after Windows to mobile to Windows a non-empty UTF-16LE string that nothing else writes holds its text re-staged at 32 bits, which differs from its 16-bit record |
| OverlaySpec.AsWrittenRoundTripKeeps | src/main/java/br/com/pinter/tqrespec/save/FileDataMap.java:170-227 | as written, an offset the trip to mobile does not touch, the inserted mySaveId's among them, keeps what was staged there before the trip |
| OverlaySpec.RestagedWidthsDiffer | src/main/java/br/com/pinter/tqrespec/save/FileDataMap.java:186-222 | a non-empty text re-staged at 32 bits is longer than at 16 bits |
| OverlaySpec.WithdrawInsertion | src/main/java/br/com/pinter/tqrespec/save/FileDataMap.java:204-205 | taking the inserted mySaveId back out: its key offset leaves both maps, and every other offset keeps its bytes and length |
| OverlaySpec.ConvertBackIntended | src/main/java/br/com/pinter/tqrespec/save/FileDataMap.java:201-227 | the corrected conversion back: every wide string is re-staged at 16 bits, and on completion the mySaveId offset is no longer staged; a failure is the conversion's own |
| OverlaySpec.EveryWideTouchesAlike | src/main/java/br/com/pinter/tqrespec/save/FileDataMap.java:182-222 | on a Windows document each wide string is touched alike in both directions |
| OverlaySpec.Inserted | src/main/java/br/com/pinter/tqrespec/save/FileDataMap.java:511-545 | an insertion at an offset with nothing staged stages the record there with length 0 |
| OverlaySpec.IntendedRoundTripCompletes | src/main/java/br/com/pinter/tqrespec/save/FileDataMap.java:163-228 | with the corrected conversion back, a Windows document whose wide strings touch disjoint offsets and can be read goes to mobile and back without an exception |
| OverlaySpec.IntendedRoundTripKeeps | src/main/java/br/com/pinter/tqrespec/save/FileDataMap.java:163-228 | with the corrected conversion back, every offset no wide string touches, the inserted mySaveId's included, ends with the bytes and length it had before the trip |
| OverlaySpec.IntendedRoundTripRestores | src/main/java/br/com/pinter/tqrespec/save/FileDataMap.java:163-228 | with the corrected conversion back, each non-empty wide string ends staged as its original text at 16 bits, with the length of prefix plus value bytes |
| OverlaySpec.RoundTripOccurrence | src/main/java/br/com/pinter/tqrespec/save/FileDataMap.java:186-222 | after the trip to mobile, a wide string reads back from mobile as its stripped text, which re-stages at 16 bits as the original would |
| OverlaySpec.IntValuesMembers | src/main/java/br/com/pinter/tqrespec/save/FileDataMap.java:463-470 | a value is listed exactly when an INTEGER occurrence of the name has it at parse time |
| OverlaySpec.ValuesPerOccurrence | src/main/java/br/com/pinter/tqrespec/save/FileDataMap.java:458-474 | there are never more listed values than occurrences of the name, for integers and for strings |
| OverlaySpec.IntValuesStep | src/main/java/br/com/pinter/tqrespec/save/FileDataMap.java:463-470 | one pass of the integer listing loop appends the occurrence's value exactly when it is a non-null INTEGER of the name |
| OverlaySpec.StringValuesStep | src/main/java/br/com/pinter/tqrespec/save/FileDataMap.java:258-265 | one pass of the string listing loop appends the occurrence's text exactly when it is a non-null string of the name |
| OverlaySpec.StringValuesMembers | src/main/java/br/com/pinter/tqrespec/save/FileDataMap.java:258-265 | a text is listed exactly when a narrow or UTF-16LE occurrence of the name has it; UTF-32LE strings are never listed |
| FileDataMaps.FileDataMap.constructor | src/main/java/br/com/pinter/tqrespec/save/FileDataMap.java:37-41 | a new map has no index and no edits, and is in the Windows format |
| FileDataMaps.FileDataMap.SetBlockInfo | src/main/java/br/com/pinter/tqrespec/save/FileDataMap.java:65-67 | installs the blocks and changes nothing else |
| FileDataMaps.FileDataMap.SetVariableLocation | src/main/java/br/com/pinter/tqrespec/save/FileDataMap.java:73-75 | installs the name index and changes nothing else |
| FileDataMaps.FileDataMap.Clear | src/main/java/br/com/pinter/tqrespec/save/FileDataMap.java:97-102 | empties the four maps and keeps the platform |
| FileDataMaps.FileDataMap.SearchFirstVariable | src/main/java/br/com/pinter/tqrespec/save/FileDataMap.java:104-112 | the first block the name is located in, when that block is indexed, else -1; an empty location list throws IndexOutOfBounds |
| FileDataMaps.FileDataMap.FirstInBlock | src/main/java/br/com/pinter/tqrespec/save/FileDataMap.java:140-145 | null for a negative block; NullPointer for an unindexed one; IndexOutOfBounds exactly when the name does not occur in it; otherwise the name's first occurrence there |
| FileDataMaps.FileDataMap.HasChange | src/main/java/br/com/pinter/tqrespec/save/FileDataMap.java:136-138 | true exactly when a change is staged at the value offset |
| FileDataMaps.FileDataMap.First | src/main/java/br/com/pinter/tqrespec/save/FileDataMap.java:147-153 | null for an unknown name or a first block that is not indexed; IndexOutOfBounds for an empty location list or a name missing from its block; otherwise the name's first occurrence in the first block it is located in |
| FileDataMaps.FileDataMap.ReadIntegerFromMap | src/main/java/br/com/pinter/tqrespec/save/FileDataMap.java:249-251 | succeeds exactly when at least 4 bytes are staged at the value offset, and its little-endian encoding is those first 4 bytes; NullPointer with no change, BufferUnderflow with fewer bytes |
| FileDataMaps.FileDataMap.IntOf | src/main/java/br/com/pinter/tqrespec/save/FileDataMap.java:406-416 | IllegalState for a null or non-integer variable; with a change, success exactly when at least 4 bytes are staged (BufferUnderflow otherwise), and the value's encoding is those bytes; the parse-time value otherwise |
| FileDataMaps.FileDataMap.GetInt | src/main/java/br/com/pinter/tqrespec/save/FileDataMap.java:445-456 | IllegalState for an unknown name; `getFirst`'s exception otherwise propagates, and with no exception the result is `getInt` of the first occurrence, so a value comes only from an integer |
| FileDataMaps.FileDataMap.GetIntInBlock | src/main/java/br/com/pinter/tqrespec/save/FileDataMap.java:430-443 | IllegalState for an unindexed block; otherwise `getFirst(block, name)`'s exception propagates, and with no exception the result is `getInt` of that occurrence |
| FileDataMaps.FileDataMap.GetString | src/main/java/br/com/pinter/tqrespec/save/FileDataMap.java:155-161 | null for an unknown name; `getFirst`'s exception propagates; the parse-time text exactly when the first occurrence is a narrow or UTF-16LE string, and null for any other first occurrence |
| FileDataMaps.FileDataMap.GetIntValuesFromBlock | src/main/java/br/com/pinter/tqrespec/save/FileDataMap.java:458-474 | empty for an unknown name or an unindexed block, IndexOutOfBounds for an empty location list, otherwise `IntValues` over the first located block |
| FileDataMaps.FileDataMap.GetStringValuesFromBlock | src/main/java/br/com/pinter/tqrespec/save/FileDataMap.java:253-269 | the same cases, with `StringValues` over the first located block |
| FileDataMaps.CollectIntValues | src/main/java/br/com/pinter/tqrespec/save/FileDataMap.java:463-470 | the listing loop computes `IntValues` |
| FileDataMaps.CollectStringValues | src/main/java/br/com/pinter/tqrespec/save/FileDataMap.java:258-265 | the listing loop computes `StringValues` |
| FileDataMaps.FileDataMap.StoreChange | src/main/java/br/com/pinter/tqrespec/save/FileDataMap.java:126-129 | stages the bytes at the value offset with length prefix plus value bytes; nothing else changes |
| FileDataMaps.FileDataMap.StoreChangeAt | src/main/java/br/com/pinter/tqrespec/save/FileDataMap.java:131-134 | stages the bytes at the offset with the given length; nothing else changes |
| FileDataMaps.FileDataMap.SetString | src/main/java/br/com/pinter/tqrespec/save/FileDataMap.java:271-285 | NullPointer for an unknown name; IllegalState for a name in several blocks; IllegalArgument for a missing or non-string variable; otherwise stages count plus encoding at the variable's width; `getString` is unchanged |
| FileDataMaps.FileDataMap.SetInt | src/main/java/br/com/pinter/tqrespec/save/FileDataMap.java:356-370 | the same guards, NumberFormat for a non-integer; on success stages the little-endian value, and `getInt(name)` then returns it |
| FileDataMaps.FileDataMap.SetIntInBlock | src/main/java/br/com/pinter/tqrespec/save/FileDataMap.java:336-354 | nothing happens for an unindexed block; IllegalState when the name occurs twice in it; on success `getInt(block, name)` returns the value |
| FileDataMaps.FileDataMap.SetIntOf | src/main/java/br/com/pinter/tqrespec/save/FileDataMap.java:393-404 | succeeds exactly for an integer descriptor of an indexed block, then `getInt(variable)` returns the value; IllegalArgument or NumberFormat otherwise, with nothing staged |
| FileDataMaps.FileDataMap.CurrentIntForIncrement | src/main/java/br/com/pinter/tqrespec/save/FileDataMap.java:373-380 | NullPointer for a null value, ClassCast for a non-integer; the staged bytes zero-padded to 4 (BufferOverflow beyond 4), else the parse-time value |
| FileDataMaps.FileDataMap.IncrementInt | src/main/java/br/com/pinter/tqrespec/save/FileDataMap.java:372-391 | stages the current value plus one, wrapped to 32 bits, exactly for a 4-byte INTEGER of an indexed block; `getInt(variable)` then returns it |
| FileDataMaps.FileDataMap.RemoveBlock | src/main/java/br/com/pinter/tqrespec/save/FileDataMap.java:495-505 | NullPointer for an unknown block; otherwise drops the changes at its variables' value offsets (their recorded lengths stay), and stages empty bytes at its start over its size |
| FileDataMaps.FileDataMap.RemoveVariable | src/main/java/br/com/pinter/tqrespec/save/FileDataMap.java:507-509 | stages empty bytes at the key offset over the variable's whole span |
| FileDataMaps.FileDataMap.InsertVariable | src/main/java/br/com/pinter/tqrespec/save/FileDataMap.java:511-545 | stages `InsertionBytes` at the offset with length 0, appending to what is staged there unless overwriting; registers the descriptor in its block's staging map only; fails as the buffer does, or with NullPointer for an unindexed block after staging |
| FileDataMaps.BuildRecord | src/main/java/br/com/pinter/tqrespec/save/FileDataMap.java:516-538 | the ByteBuffer fill equals `InsertionBytes`, failures included |
| FileDataMaps.PutHeader | src/main/java/br/com/pinter/tqrespec/save/FileDataMap.java:524-529 | the puts of previous bytes, name length and name succeed exactly when they fit, and leave the header in the buffer |
| FileDataMaps.PutValue | src/main/java/br/com/pinter/tqrespec/save/FileDataMap.java:530-535 | the value puts succeed exactly when the value fits, and append it |
| FileDataMaps.Put | src/main/java/br/com/pinter/tqrespec/save/FileDataMap.java:522-535 | `ByteBuffer.put` appends the data exactly when it fits and otherwise overflows without writing |
| FileDataMaps.FileDataMap.PlayerNameAnchor | src/main/java/br/com/pinter/tqrespec/save/FileDataMap.java:171-172 | the block of myPlayerName's first location and its first occurrence there; NullPointer for an unknown name or an unindexed block; IndexOutOfBounds for an empty location list or a name missing from its block |
| FileDataMaps.FileDataMap.ConvertTo | src/main/java/br/com/pinter/tqrespec/save/FileDataMap.java:163-228 | sets the platform; IllegalState for the same platform; Windows to mobile first inserts mySaveId, then runs `ConvertAll` over every occurrence of every block, each block once; mobile to Windows runs `ConvertAll` directly |
| FileDataMaps.FileDataMap.ConvertBlocks | src/main/java/br/com/pinter/tqrespec/save/FileDataMap.java:180-226 | the outer loop over the blocks computes `ConvertAll` over their concatenated occurrences |
| FileDataMaps.FileDataMap.ConvertVariables | src/main/java/br/com/pinter/tqrespec/save/FileDataMap.java:181-225 | the inner loop over one block computes `ConvertAll` over its occurrences |
| FileDataMaps.FileDataMap.Convert | src/main/java/br/com/pinter/tqrespec/save/FileDataMap.java:182-223 | one iteration changes the overlay as `ConvertStep` states |

## Left out

- Floats: `setFloat`, `getFloat`, `readFloatFromMap` and `getTempAttr`/`setTempAttr`/`getTempVariableInfo` need IEEE-754 encoding and `Math.round`. A float value is kept as its 32 bits and never interpreted.
- `getUIDValuesFromBlock`: it is unused in the source (marked as such) and needs the UID class, which is not part of this model.
- `readStringFromMap` with `wide = false`: no caller passes false, so only the two wide branches are modelled.
- `getValueString` for integers, floats, UIDs and streams: it renders them as text through library code (`String.valueOf`, UID and base-16 encoders). Only the string branch, the one the overlay uses, is modelled.
- Trivial accessors (`getBytes`, `changesKeySet`, `getPlatform`, `setPlatform`, `getCharacterName`, the descriptor's getters and setters) are left out. The fields they read or assign are public fields of the model.
- `equals`/`hashCode`: they compare `byte[]` map values by reference.
- Concurrency: the `ConcurrentHashMap`s are plain maps, and every operation runs alone.
- Iteration order: `ConvertTo` takes an `order` parameter that stands for the map's iteration order: every indexed block, each exactly once. Which order the `ConcurrentHashMap` picks is not modelled.
- Within a block, the occurrences are visited in their list order.
- `StringUtils.stripAccents` is a parameter mapping one code unit to one code unit. The source strips a one-character string and takes its first unit; a stripper returning an empty string would throw there, which the model does not capture.
- The default charset of `String.getBytes()` and `new String(byte[])` is taken to be UTF-8, so the pass through it turns an unpaired surrogate into `?`.
- The UTF-16LE decoder is the JDK's: U+FFFE, a lone low surrogate and a high surrogate followed by anything but a low one become U+FFFD, and so does an odd trailing byte or a trailing high surrogate. Its result is therefore always well paired. A leading U+FEFF is kept.
- The UTF-32LE decoder is the JDK's with little-endian as the expected order: bytes FF FE 00 00 at the start are dropped as a byte order mark. Values up to U+FFFF pass through, surrogates included; larger ones up to U+10FFFF become surrogate pairs; anything larger and 1 to 3 trailing bytes become U+FFFD.
- Offsets, sizes and the lengths computed from them are unbounded integers. The source's 32-bit `int` arithmetic on them could overflow for a file over 2 GiB. Values stored into the file (counts, integers, increments) are wrapped to 32 bits explicitly.
- Variables.Build: fails with NullPointer whenever the name or the type is unset. Java dereferences a null type only when the value size is unset, and a null name only when the value offset is unset; with both set, it would return a descriptor holding null.
- FileDataMaps.FileDataMap.ConvertTo: models convertTo as written, so it states no round trip. The corrected conversion back is `OverlaySpec.ConvertBackIntended`, on values only (see Findings).
- OverlaySpec.IntendedRoundTripKeeps: assumes nothing was staged at myPlayerName's key offset before the trip. insertVariable appends to what is staged there, and withdrawing the insertion would drop those bytes too.
- The builder's setters return the builder for chaining, which the methods do not model. A null argument to a setter is also not modelled (a `saveId` of null included).
- The parser that fills the index, and the writer that splices the staged changes into the file, are not part of this model. Neither are the GUI and the game database.

## Findings

| source | as written | input that shows it | evidently intended | confidence | as-written member | corrected member |
|---|---|---|---|---|---|---|
| src/main/java/br/com/pinter/tqrespec/save/FileDataMap.java:201-227 | converting from mobile re-encodes only strings parsed as UTF-32LE and removes only a parsed `mySaveId` | a Windows file with a non-empty UTF-16LE string, converted to mobile and back to Windows | the trip back restores each wide string at 16 bits and withdraws the inserted `mySaveId` | not executed | OverlaySpec.AsWrittenRoundTrip | OverlaySpec.ConvertBackIntended |

`AsWrittenRoundTripKeeps` and `AsWrittenConversionBackIsIdle` complete the as-written half: the
trip back stages nothing, so the inserted `mySaveId` stays staged. With `ConvertBackIntended` as
the trip back, `IntendedRoundTripCompletes`, `IntendedRoundTripKeeps` and
`IntendedRoundTripRestores` prove the round trip. The `FileDataMap` class keeps modelling the
code as written.
