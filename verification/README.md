# protojsonx in Dafny

protojsonx reads and writes protobuf messages as JSON. It has several implementations of the same
job: generated decoders that take the fields in their declared order and restart when that guess
fails, generated decoders for any order, a table decoder that predicts the next field and decodes into
a target that may already hold data, and two encoders. This project models them over arbitrary message
types and proves that they agree.

The model has two layers. Specification functions work on the bytes that are still unread: a reader
gives either an error or a value and the rest of the input. On top of them stand the objects as they
run: `Decoder` (input, offset, depth), `Encoder` (buffer), `MessageObject` (the fields of a generated
struct), `MessageTable` and `OneofTracker`. Their methods loop, advance, append and assign as the
program does, and each is proved to come to what the function of the same job says. Decoders are
compared by whether they accept and, when they do, by the message, the offset and the depth. Nothing is
claimed about the wording of an error or about a target after an error.

Beside these stands a third description, which shares nothing with the other two. `reading.dfy` and
`tablereading.dfy` say what a JSON text says about a message, `printing.dfy`, `treeprinting.dfy` and
`spelling.dfy` what is printed, with the literals, bounds, zero values, names and orders written out.
Decoders and encoders are proved to come to exactly that, so that a slip made in a function and in the
method of the same job would not go unnoticed.

| file | contents |
|---|---|
| `bytes.dfy`, `text.dfy`, `numbers.dfy`, `cursor.dfy` | bytes, strings, integers, structural steps and value skipping |
| `json.dfy` | the JSON grammar as trees; skipping takes exactly one value |
| `schema.dfy`, `generated.dfy`, `refine.dfy` | message types, the generated decoders, the ordered one refines the other |
| `order.dfy`, `encode.dfy`, `roundtrip.dfy` | sorted enumerations, the generated encoder, the whole-message round trip |
| `acts.dfy`, `meaning.dfy`, `exact.dfy` | the meaning of an object as acts; what is accepted, and that order does not matter |
| `table.dfy`, `tablemeaning.dfy`, `mask.dfy` | the table decoder, what an object means to it, the 64-bit masks |
| `traces.dfy`, `names.dfy`, `reuse.dfy`, `agree.dfy` | exactly when the table decoder agrees with generated code, and when what its target held shows |
| `reading.dfy`, `tableacts.dfy`, `tablereading.dfy` | what a text says about a message, and into a target, written out |
| `printing.dfy`, `treeprinting.dfy`, `spelling.dfy` | what is printed for messages, maps and value trees; names, keys, fractions |
| `cache.dfy`, `cachepaths.dfy` | the table cache as a protocol between threads, and which table a thread comes to use |
| `values.dfy`, `valuetrees.dfy` | value trees: the round trip, and what exactly the parser accepts |
| `maps.dfy`, `maptexts.dfy`, `mapreaders.dfy` | maps with every kind of key and every spelling of the keys, and when the two map readers agree |
| `fieldmask.dfy` | field masks |
| `civil.dfy`, `times.dfy`, `durations.dfy` | the calendar, timestamps and durations |
| `decoder.dfy`, `encoder.dfy`, `messages.dfy`, `tabledecoder.dfy`, `codecs.dfy` | the objects and their methods |

Type descriptors are values (`Schema`); calls into libraries are parameters or specified functions:
`strconv.ParseFloat` as the fallback for integers is a pair of arbitrary functions (`Floats`), the sort
of the standard library is any sort that yields the ascending enumeration, and the date that the time
package prints is the unique date with the right day number. Field names are assumed to be distinct,
plain ASCII without quotes and backslashes, as the schema compiler makes them.

What the proofs found where the code is less uniform than it looks:

- `ParseDuration` takes a second sign, `parseDurationBytes` does not, and this is the only difference.
  A text is taken for its second sign exactly when digits within the bound (padded or not), an optional
  fraction of one to nine digits and `s` follow, and, if that sign is a minus, the seconds or the fraction
  are zero: `--05s` is five seconds, `--0.5s` half a second back, `--5.5s` is refused
  (`Durations.ParsersAgree`, `Durations.SecondSignExact`, `Durations.TwoMinuses`).
- With unknown fields discarded, an unknown enum name is let through, and then table and generated code
  accept the same texts but can come to different messages. Generated code stores zero. The table unsets an
  optional field, and leaves a plain field and a oneof as they were when decoding began, which is empty for
  a type with more than 64 fields. So the messages are equal exactly when every such name lands where zero
  is held already (`Agreement.MessageInto`); on a fresh target that leaves plain fields only, and the types
  whose values can show a difference are known from the schema (`Agreement.SchemaDecides`). The texts
  `{"<field>":"<name>"}` show it (`Agreement.OptionalEnumDiffers`, `Agreement.OneofEnumDiffers`).
- For the same reason the two paths of the table decoder can differ on a reused target: up to 64 fields the
  old number of a plain enum field stays, beyond that it is gone (`Agreement.ReusedEnumDiffers`). What the
  target held shows exactly when a discarded name lands where something of it is left
  (`Agreement.PathsAgree`); where nothing is discarded it never shows (`Agreement.ReuseIsFresh`).
- A map entry whose enum name is discarded is not stored, so its key may occur once more behind it; a key
  that is stored may not, however it is spelled (`MapTexts.ReadMapExact`).
- The table decoder takes only `true` and `false` for the boolean keys of a map, where generated code takes
  the twelve spellings of `strconv.ParseBool`. The two map readers come to the same exactly when generated
  code refuses the text, or its boolean keys are spelled as they are printed and no message in it shows a
  discarded name (`MapReaders.ReadersAgree`).
- The parser of value trees looks at a literal and not at what stands behind it; but for that it accepts
  exactly what the skipping of values accepts (`ValueTrees.ReadsWhatSkips`).
- Compiling a table never fails: the error field of a table is never set (`Cache.NoErrors`).
- A blank field mask leaves the paths of a reused target as they were
  (`FieldMasks.UnmarshalFieldMask`).

## Model

| member | source | states |
|---|---|---|
| `Text.QuoteReadsBack` | protojsonxgen/runtime.go:134-162 | readStringBytes inverts Encoder.String on every byte string, whatever bytes follow |
| `Text.KeyFastIsReadString` | protojsonxgen/runtime.go:1071-1096 | the shortcut for keys reads exactly what readStringBytes reads, except in front of white space |
| `Text.Utf8RoundTrip` | protojsonxgen/runtime.go:542-599 | the bytes appended for a code point are its UTF-8 form: decoding them by the bit layout of RFC 3629 section 3 gives the code point back |
| `Text.UnitEscape` | protojsonxgen/runtime.go:542-599 | the \u escape of a scalar value below 0x10000 unescapes to its UTF-8 bytes |
| `Text.PairEscape` | protojsonxgen/runtime.go:542-599 | the surrogate pair of a scalar value from 0x10000 on unescapes to its UTF-8 bytes |
| `Text.EscapeExact` | protojsonxgen/runtime.go:556-570 | the switch over the letter behind a backslash is the table of the eight short escapes of RFC 8259 section 7 |
| `Text.HexExact` | protojsonxgen/runtime.go:601-620 | four bytes have a value exactly when they are hexadecimal digits of either case, and it is the number that these spell by their places in 0123456789abcdef and 0123456789ABCDEF |
| `Text.SurrogatePairUnique` | protojsonxgen/runtime.go:578-592 | every scalar value from 0x10000 on is joined from exactly one pair of surrogates |
| `Json.UnpairedRefused` | protojsonxgen/runtime.go:508-599 | a string with the escape of an unpaired surrogate is refused, wherever the escape stands behind well-formed characters and whatever follows it |
| `Numbers.DigitLoopExact` | protojsonxgen/runtime.go:708-795 | the overflow-checked loop gives the number a run of digits denotes, and a range error exactly when it exceeds the limit |
| `Numbers.ParseDigitsExact` | protojsonxgen/runtime.go:637-663 | the integer parser behind the fallback gives the number denoted exactly when the text is digits and fits 64 bits |
| `Numbers.Int64ReadsBack` | protojsonxgen/runtime.go:637-663 | a printed integer is read back if it is an int64 and refused otherwise |
| `Numbers.Uint64ReadsBack` | protojsonxgen/runtime.go:680-706 | the same for unsigned integers |
| `Numbers.QuotedInt64ReadsBack` | protojsonxgen/runtime.go:178-182 | an int64 printed between quotes is read back |
| `Numbers.QuotedUint64ReadsBack` | protojsonxgen/runtime.go:188-192 | a uint64 printed between quotes is read back |
| `Json.SkipValueExact` | protojsonxgen/runtime.go:1196-1226 | SkipValue succeeds exactly when the input is white space and one JSON value (RFC 8259, unpaired surrogate escapes excluded, nesting within the limit), and stops right behind it |
| `Json.SkipDecides` | protojsonxgen/runtime.go:1196-1226 | on the text of any JSON value SkipValue takes the whole value or refuses it for its nesting, never part of it |
| `Json.CharsRead` | protojsonxgen/runtime.go:508-599 | every JSON string of characters and escapes is read as what it denotes, by the table of short escapes and the digits of each code point |
| `Json.NumberSound` | protojsonxgen/runtime.go:826-876 | what the number scanner passes over is a number of the JSON grammar |
| `Json.NumberComplete` | protojsonxgen/runtime.go:826-876 | the number scanner passes over every number of the JSON grammar as a whole |
| `Table.SkipsAgree` | unmarshal.go:540-640 | the second, independent skipValue agrees with the first on every input and nesting |
| `Schema.EnumRoundTrip` | cmd/protoc-gen-go-protojsonx/main.go:1150-1169 | the name printed for an enum number reads back as that number, aliases included |
| `Refine.MatchRefines` | protojsonxgen/runtime.go:967-1017 | what MatchFast reports about the next key is what NextObjectKey finds there |
| `Refine.FastRefines` | cmd/protoc-gen-go-protojsonx/main.go:145-188 | an error or a result of the ordered decoder is the error or the result of the decoder for any order, at every nesting |
| `Refine.MessageAgrees` | cmd/protoc-gen-go-protojsonx/main.go:400-463 | a nested message that is tried in order, rewound and read again comes to the decoder for any order |
| `Refine.EntryIsSlow` | internal/testpb/user.protojsonx.pb.go:36-60 | the entry point with its peek, its ordered attempt, its restarts and its final check accepts exactly what the decoder for any order accepts, with the same message |
| `RoundTrip.MessageReadsFast` | internal/testpb/user.protojsonx.pb.go:62-479 | on the encoder's output the ordered decoder ends at the closing brace with the same message and never gives up, if and only if the message nests within the limit; otherwise it refuses |
| `RoundTrip.UnmarshalMarshal` | internal/testpb/user.protojsonx.pb.go:36-156 | Unmarshal inverts Marshal on exactly the messages within the nesting limit and refuses the text of all others |
| `Printing.MessageShows` | cmd/protoc-gen-go-protojsonx/main.go:888-1125 | the text of a message is the members of its printed fields in declared order with commas between them, each the quoted name, a colon and the text of its value, stated without any function of the encoder |
| `Printing.PrintedIs` | internal/testpb/user.protojsonx.pb.go:70-156 | a plain field is printed exactly if it is not empty, false or zero, any other exactly if it is there |
| `Printing.ValueShows` | cmd/protoc-gen-go-protojsonx/main.go:950-1125 | integers of 64 bits stand in quotes and others do not, booleans are true and false, strings are escaped where they must be |
| `Printing.EnumIs` | cmd/protoc-gen-go-protojsonx/main.go:1150-1169 | an enum is printed by the first name of its number, and by the number exactly if it has no name |
| `Printing.QuoteShows` | protojsonxgen/runtime.go:134-162 | only quotes, backslashes and control characters are escaped, each in its shortest form |
| `Printing.DecimalWrites` | protojsonxgen/runtime.go:174-192 | the text of an integer is the one that writes it in decimal digits, unpadded |
| `Printing.KeysInOrder` | protojsonxgen/runtime.go:227-251 | the keys of a map are printed in byte order, by the first difference or the shorter prefix |
| `RoundTrip.FitsByField` | protojsonxgen/runtime.go:914-925 | a message is within the nesting limit if and only if everything printed for its fields is |
| `Reading.UnmarshalReads` | internal/testpb/user.protojsonx.pb.go:36-60 | the entry point of generated code accepts an input exactly if it is one object with nothing but white space around it, and gives the one message that the object says, stated without any function of the decoders |
| `Reading.UnmarshalDenotes` | protojsonxgen/runtime.go:416-422 | the same with the meaning of the parsed object: only white space may follow what is decoded |
| `Reading.MeaningExact` | cmd/protoc-gen-go-protojsonx/main.go:479-692 | an object means a message exactly if every key is known or discarded, every member is found in its field or oneof as its text says, no field and no oneof occurs twice, and everything else is zero, at every nesting |
| `Reading.DecoderReads` | cmd/protoc-gen-go-protojsonx/main.go:479-560 | the decoder for any order reads exactly the texts that say a message, as that message |
| `Reading.FastReads` | cmd/protoc-gen-go-protojsonx/main.go:145-188 | and so does the ordered decoder wherever it does not give up |
| `Reading.ZeroLeft` | internal/testpb/user.protojsonx.pb.go:41-60 | a field that no key names, or that is only given null, is left false, empty, zero, nil or without entries, and a oneof that no member chooses in is left empty |
| `Reading.SignedExact` | protojsonxgen/runtime.go:637-706 | numbers and strings are taken for the integers that their digits write in base ten, within the bounds of 64 bits, and other texts go to ParseFloat |
| `Acts.RunExact` | cmd/protoc-gen-go-protojsonx/main.go:479-692 | the loop succeeds if and only if no field is assigned twice and no oneof populated twice, and then the message holds just what was assigned |
| `Acts.RunPermutes` | internal/testpb/test_shapes.protojsonx.pb.go:4319-4635 | rearranged assignments are accepted alike and give the same message, nulls for oneof members included |
| `Meanings.MessageIs` | cmd/protoc-gen-go-protojsonx/main.go:479-560 | the byte decoder comes to the meaning of the parsed object |
| `Exact.DecoderExact` | cmd/protoc-gen-go-protojsonx/main.go:479-560 | the decoder accepts exactly the JSON objects that have a meaning, with that meaning |
| `Exact.MessageSkips` | cmd/protoc-gen-go-protojsonx/main.go:479-560 | whatever a decoder accepts is one JSON object, taken as a whole |
| `Exact.AcceptedExactly` | cmd/protoc-gen-go-protojsonx/main.go:479-692 | an object is accepted if and only if it nests within the limit, every key is known or discarded, every value decodes, and no field or oneof occurs twice under any of its names |
| `Exact.OrderIrrelevant` | internal/testpb/test_shapes.protojsonx.pb.go:4319-4635 | an object and every permutation of its members are treated alike, with the same message |
| `Exact.AcceptedInAnyOrder` | internal/testpb/test_shapes.protojsonx.pb.go:4319-4635 | every accepted text with members splits into members whose every rearrangement is accepted with the same message |
| `Table.LookupIsFind` | unmarshal.go:1243-1253 | the key map of a table finds what the switch over the keys finds |
| `Table.PredictIsFind` | unmarshal.go:1129-1168 | prediction never changes which field is found |
| `Table.MessageEnds` | unmarshal.go:1086-1196 | for every input, every target, either path and either discard setting, the table decoder accepts what generated code accepts and stops where it stops |
| `TableMeanings.IntoIs` | unmarshal.go:1086-1307 | the table decoder computes from bytes the meaning of the parsed object into what its target holds when decoding begins, nested targets included |
| `TableActs.RunIntoExact` | unmarshal.go:1120-1196 | the table decoder's loop and its clearing accept assignments exactly if none occurs twice, and leave just what they assign: a discarded name keeps a plain field, unsets an optional one and keeps a oneof that no null empties |
| `TableReading.ObjectIntoExact` | unmarshal.go:1086-1398 | what an object means into a target, discarding or not, is exactly what it says there, stated without any function of the decoder |
| `TableReading.IntoReads` | unmarshal.go:1086-1196 | the table decoder reads exactly the texts that say a message into its target, as that message |
| `TableReading.UnmarshalTableReads` | unmarshal.go:788-837 | Unmarshal through a table accepts exactly one such object with nothing but white space around it |
| `TableReading.UnmarshalTableDenotes` | unmarshal.go:788-837 | the same with the meaning of the parsed object |
| `TableReading.ZeroLeftInto` | unmarshal.go:851-866 | whatever the target held, a field that no key names or that is only given null is left zero, and a oneof that no member chooses in is left empty |
| `Traces.RunsCompare` | unmarshal.go:853-866 | after clearing what is missing, the message is the one decoded from scratch exactly when every assignment left the same in its field, with nulls and oneofs in any order |
| `Traces.ObjectExact` | unmarshal.go:1368-1398 | an object gives the generated decoder's message exactly when every unknown enum name in it, at any nesting, lands where zero is held already |
| `Traces.AcceptedQuiet` | unmarshal.go:1368-1398 | where nothing is discarded, no accepted object holds such a name |
| `Reuse.ObjectReuse` | unmarshal.go:841-866 | an object decoded into a target gives what it gives in an empty one exactly when every unknown enum name lands where nothing is left: no number, and no choice of a oneof that no null removes |
| `EnumNames.QuietWithout` | unmarshal.go:1368-1398 | on a fresh target no object shows a discarded name if the schema leaves no room for an optional or oneof enum field within the nesting limit |
| `EnumNames.Witness` | unmarshal.go:1368-1398 | and otherwise some accepted object does |
| `Agreement.MessageInto` | unmarshal.go:1086-1196 | for every input and target the table decoder accepts what generated code accepts, and the messages are equal if and only if every discarded enum name lands where zero is held when decoding begins |
| `Agreement.ReuseIsFresh` | unmarshal.go:1086-1196 | with unknown fields refused, decoding into any target equals decoding into an empty one, and the path for at most 64 fields equals the path for more |
| `Agreement.PathsAgree` | unmarshal.go:1086-1196 | with unknown fields discarded or not, the two paths accept alike on every target, and come to the same message if and only if no discarded name lands where something of the target is left |
| `Agreement.WideForgets` | unmarshal.go:1091-1118 | the path for more than 64 fields comes on every target to what either path comes to on an empty one |
| `Agreement.SchemaDecides` | unmarshal.go:1086-1307 | on a fresh target with discarding, table and generated code agree on all inputs if and only if no optional or oneof enum field can be reached within the nesting limit |
| `Agreement.TableIsGenerated` | unmarshal.go:1086-1307 | on a fresh target the table decoder is the generated decoder where nothing is discarded or the type cannot show a discarded name |
| `Agreement.UnmarshalsAgree` | unmarshal.go:788-837 | Unmarshal through a table and through generated code give the same outcome if and only if the input is refused or no discarded name shows |
| `Agreement.TableUnmarshals` | unmarshal.go:788-837 | where nothing is discarded they give the same outcome on every input and target |
| `Agreement.TableAcceptsExactly` | unmarshal.go:1120-1253 | duplicate detection of the table decoder is exact on every target, at every number of fields, discarding or not |
| `Agreement.TableReadsBack` | unmarshal.go:1086-1196 | the table decoder reads the encoder's output back into any target, exactly within the nesting limit |
| `Agreement.OptionalEnumDiffers` | unmarshal.go:1368-1398 | on the text of an object with one unknown name, discarded, an optional field is unset by the table and set to zero by generated code, for every schema, type, field and target |
| `Agreement.OneofEnumDiffers` | unmarshal.go:1368-1398 | on such a text the oneof of a fresh target stays empty with the table and is populated with zero by generated code |
| `Agreement.ReusedEnumDiffers` | unmarshal.go:1086-1196 | on such a text a plain field of a reused target keeps its old number on the path for at most 64 fields and becomes zero on the path for more and in generated code |
| `Masks.BitsSet` | unmarshal.go:1179-1183 | setting a bit of the mask adds its field to the set it stands for and changes nothing else |
| `Masks.SameBits` | unmarshal.go:1179-1183 | a 64-bit mask is determined by the set it stands for |
| `Masks.AllSeenExact` | unmarshal.go:1188-1194 | the mask equals the all-seen constant if and only if every field has been seen, also at exactly 64 fields |
| `Masks.OneofTracker.Set` | unmarshal.go:53-59 | a oneof is added to the set, whether a mask or a slice holds it |
| `Masks.OneofTracker.Has` | unmarshal.go:46-51 | membership in the set, whether a mask or a slice holds it |
| `Cache.StepInv` | protojsonx.go:179-231 | every step of every thread keeps the invariant of the cache |
| `Cache.FinishedStays` | protojsonx.go:214-231 | in every run a finished table never changes, and the thread that compiles a type is settled once and for all |
| `Cache.ReadsFinished` | marshal.go:741-747 | in every run each table a thread reads, reached through wait or through a field that need not wait, is finished and holds every field of its type |
| `CachePaths.ReachesItsTable` | marshal.go:741-765 | in every run the next table that a thread uses after it has called for a type, or descended into a field, is the one of that type or of the type that the field holds, on top of those it was using, through misses, waits and compilations |
| `CachePaths.StepsOnCourse` | protojsonx.go:179-231 | no step of any thread diverts a thread from the table it asked for |
| `CachePaths.ComesBack` | unmarshal.go:1562-1580 | behind that table the thread goes back to the tables it was using when it asked |
| `CachePaths.PathsLinked` | unmarshal.go:1562-1580 | where tables are called for at the top only, each table on a path is the one of a field of the table before |
| `CachePaths.WaitsIfOpen` | protojsonx.go:555-560 | a field is compiled to wait for its table exactly if that was still open when it was looked at |
| `Cache.OneCompiler` | protojsonx.go:582-627 | at any time at most one thread compiles a type |
| `Cache.CompiledOnce` | protojsonx.go:582-627 | in every run, once somebody has begun to compile a type nobody begins again |
| `Cache.NoErrors` | protojsonx.go:236-247 | no table ever carries an error |
| `Cache.CompilersNeverWait` | protojsonx.go:236-241 | a compiling thread needs nothing but the mutex and never goes on to wait for a table |
| `Cache.NoDeadlock` | protojsonx.go:122-143 | while any thread is on its way to a table, some such thread can take a step |
| `Cache.GoDecreases` | protojsonx.go:582-627 | every step towards a table lowers the measure of untouched types and remaining work, also when types refer to each other in cycles |
| `Cache.AllSettle` | protojsonx.go:179-231 | from every reachable state the threads can go on until none is waiting or compiling |
| `Values.ValueReads` | unmarshal.go:2099-2188 | every printable value tree is read back to its end if its starting depth and height are within the limit, and refused otherwise |
| `Values.ValueWrites` | marshal.go:1330-1418 | printing fails exactly on trees that hold a value without a kind or a number that is not finite |
| `Values.HeightExact` | unmarshal.go:2113-2188 | a value is within a height if and only if every field and element that it holds is within one less |
| `TreePrinting.TreeShows` | marshal.go:1362-1401 | the text of a value tree is its members in byte order of their keys and its elements in their order, without any space |
| `ValueTrees.ReadValueExact` | unmarshal.go:2099-2188 | unmarshalValue reads exactly the JSON values within the nesting limit, each as the tree it denotes with the last of repeated keys winning, provided that an end follows a literal |
| `ValueTrees.ReadsWhatSkips` | unmarshal.go:2117-2173 | with that proviso it accepts on every input what skipping a value accepts, and stops at the same place |
| `Civil.CountsDays` | protojsonxgen/runtime.go:1322-1359 | the closed form rises by exactly one at each next day of the calendar |
| `Civil.EpochIsZero` | protojsonxgen/runtime.go:1342-1359 | it is zero on 1970-01-01 |
| `Civil.Injective` | protojsonxgen/runtime.go:1342-1359 | different dates have different day numbers |
| `Civil.DateOfUnique` | protojsonxgen/runtime.go:1342-1359 | counting on from the first day gives the one date with a day number |
| `Civil.DivFloors` | protojsonxgen/runtime.go:1361-1368 | divFloor rounds down, also below zero |
| `Civil.BoundsExact` | protojsonxgen/runtime.go:374-382 | the bounds on seconds are the first second of year 1 and the last of year 9999 |
| `Civil.YearsInRange` | protojsonxgen/runtime.go:374-382 | a date and a second are within the bounds exactly in the years 1 to 9999 |
| `Times.TimestampReadsBack` | protojsonxgen/runtime.go:273-287 | ParseUTCTimestampBytes of AppendTimestamp is the same pair, over the forms with 0, 3, 6 and 9 digits |
| `Spelling.FractionShortest` | protojsonxgen/runtime.go:273-287 | the fraction printed is the one shortest of the forms with 0, 3, 6 and 9 digits that denotes the nanoseconds |
| `Spelling.TimestampForm` | protojsonxgen/runtime.go:273-287 | the layout of a printed timestamp |
| `Spelling.OtherForm` | protojsonxgen/runtime.go:1260-1311 | a text is left to the library parser exactly if it is not laid out like a timestamp or something other than a Z stands behind the seconds or their fraction |
| `Times.TimestampExact` | protojsonxgen/runtime.go:1260-1320 | the parser accepts exactly the UTC timestamps of RFC 3339 section 5.6 with at most nine digits of fraction in the years 1 to 9999, and gives the time they denote |
| `Times.AppendPaddedInt32` | protojsonxgen/runtime.go:321-338 | the digits of a number are appended, padded with zeros to the width if they are fewer |
| `Times.ParseUTCTimestamp` | protojsonxgen/runtime.go:1260-1320 | the loops of the parser come to its specification, telling other forms from errors |
| `Times.ParseNDigits` | protojsonxgen/runtime.go:1370-1383 | the number that the digits denote, or failure |
| `Times.AppendTimestamp` | protojsonxgen/runtime.go:273-287 | the text of a timestamp is appended |
| `Durations.DurationExact` | protojsonxgen/runtime.go:1393-1462 | parseDurationBytes accepts exactly an optional sign, an unpadded integer, an optional fraction of one to nine digits and `s`, within the bound, with the value written |
| `Durations.SpanIsDecimal` | protojsonxgen/runtime.go:1425-1455 | seconds and nanoseconds together are the decimal number written, in nanoseconds |
| `Durations.DurationReadsBack` | protojsonxgen/runtime.go:289-319 | parseDurationBytes inverts AppendDuration on every valid duration |
| `Spelling.DurationForm` | protojsonxgen/runtime.go:289-319 | one sign for both parts, the seconds unpadded, a fraction only if there is one, and an s |
| `Spelling.DurationBounds` | protojsonxgen/runtime.go:384-396 | the durations that are valid |
| `Durations.ParsersAgree` | protojsonxgen/runtime.go:1464-1528 | the two parsers agree on a text if and only if it is not one that is taken for its second sign |
| `Durations.SecondSignExact` | protojsonxgen/runtime.go:1464-1528 | with a second sign ParseDuration takes exactly a nonempty run of digits within the bound, padding allowed, an optional fraction and `s`, where behind a second minus the seconds or the fraction are zero, with the value that the signs applied one after the other give |
| `Durations.TwoMinuses` | protojsonxgen/runtime.go:1464-1528 | what two minus signs in front of any digits and fraction come to, or that they are refused |
| `Durations.ParserImplied` | protojsonxgen/runtime.go:1464-1528 | whatever parseDurationBytes accepts, ParseDuration accepts with the same result |
| `Durations.SecondSign` | protojsonxgen/runtime.go:1464-1528 | `--5s` is accepted by ParseDuration and refused by parseDurationBytes |
| `Durations.ParseDurationText` | protojsonxgen/runtime.go:1393-1528 | the loops of both parsers come to their specifications, and the sum of the seconds never overflows |
| `Durations.AppendDuration` | protojsonxgen/runtime.go:289-319 | the text of a duration is appended |
| `Order.SortCanonical` | protojsonxgen/runtime.go:1556-1593 | sorting any enumeration of a set of keys gives the one ascending enumeration |
| `Maps.WriteMapCanonical` | protojsonxgen/runtime.go:1556-1643 | WriteMap prints the same bytes for every enumeration order, with integers in numeric order, false before true and strings in byte order |
| `TreePrinting.MapShown` | protojsonxgen/runtime.go:1556-1643 | the text of a map is its entries with quoted keys in the order of the keys, whatever order they were enumerated in |
| `TreePrinting.SortOrders` | protojsonxgen/runtime.go:1556-1593 | sorting puts integers in ascending order, false before true and strings in byte order, in which there is only one way |
| `Spelling.KeyExact` | cmd/protoc-gen-go-protojsonx/main.go:1404-1424 | the texts taken for each key: twelve spellings of booleans, of which the table decoder takes two, integers within the width of the kind, and any string |
| `Maps.StringMapCanonical` | protojsonxgen/runtime.go:227-251 | StringMap prints the same bytes for every enumeration order |
| `Maps.MapReadsBack` | protojsonxgen/runtime.go:1645-1675 | ReadMap rebuilds exactly the map that WriteMap printed |
| `Maps.KeyReadsBack` | cmd/protoc-gen-go-protojsonx/main.go:1404-1424 | every key of a map is read back from its text |
| `MapTexts.ReadMapExact` | protojsonxgen/runtime.go:1645-1675 | for keys spelled in any way, either map reader accepts if and only if the object nests within the limit, every key parses, every value decodes and no key is that of an earlier entry that is stored, and the map holds exactly the stored entries |
| `MapTexts.DistinctKeys` | protojsonxgen/runtime.go:1645-1675 | where nothing is discarded this means that the parsed keys are pairwise distinct |
| `MapReaders.EntriesAgree` | unmarshal.go:2612-2687 | on a JSON object the table decoder's map reader and the one in generated code come to the same if and only if the latter refuses, or all boolean keys are spelled as printed and no message value shows a discarded name |
| `MapReaders.ReadersAgree` | unmarshal.go:2612-2687 | the same for every input; and the table decoder accepts only what generated code accepts |
| `FieldMasks.SnakeInvertsCamel` | marshal.go:1578-1605 | jsonSnakeCase inverts jsonCamelCase exactly on names without capitals whose underscores are followed by lowercase letters |
| `FieldMasks.CamelInvertsSnake` | marshal.go:1578-1605 | jsonCamelCase inverts jsonSnakeCase exactly on names without underscores |
| `Spelling.CamelIs` | marshal.go:1578-1592 | byte by byte, underscores go and a lowercase letter behind one is capitalised |
| `Spelling.SnakeIs` | marshal.go:1594-1605 | byte by byte, a capital gives an underscore and its lowercase letter |
| `Spelling.MaskShows` | marshal.go:1311-1328 | a mask is written exactly if every path is a full name that comes back from its camelCase form, and as these forms with commas between them |
| `Spelling.MaskReads` | unmarshal.go:2076-2097 | a text is read as some paths exactly if they are written as that text without the space around it |
| `Spelling.TrimExact` | unmarshal.go:2076-2097 | trimming takes whole Unicode spaces off both ends and leaves none there |
| `FieldMasks.MaskReadsBack` | marshal.go:1311-1328 | every list of paths accepted for writing is read back unchanged |
| `FieldMasks.MaskWritesBack` | unmarshal.go:2076-2097 | every text accepted for reading is written back as it was, but for the space around it |
| `FieldMasks.MarshalFieldMask` | marshal.go:1311-1328 | the loop joins the camelCase paths, or refuses |
| `FieldMasks.OnlySpaces` | unmarshal.go:2076-2097 | what is trimmed is the UTF-8 form of a Unicode space |
| `FieldMasks.SpacesEncoded` | unmarshal.go:2076-2097 | and the UTF-8 form of every Unicode space is trimmed |
| `FieldMasks.UnmarshalFieldMask` | unmarshal.go:2076-2097 | the loop reads the paths behind Unicode space; a blank text leaves the target's paths alone |
| `FieldMasks.JsonCamelCase` | marshal.go:1578-1592 | the loop comes to the conversion |
| `FieldMasks.JsonSnakeCase` | marshal.go:1594-1605 | the loop comes to the conversion |
| `Decoders.Decoder.SkipWhitespace` | protojsonxgen/runtime.go:424-433 | the cursor moves behind the white space |
| `Decoders.Decoder.ReadNull` | protojsonxgen/runtime.go:435-442 | whether null comes next, and the cursor behind it if so |
| `Decoders.Decoder.ReadStringBytes` | protojsonxgen/runtime.go:508-540 | the scan for the closing quote and the unescaping come to the string reader |
| `Decoders.UnescapeString` | protojsonxgen/runtime.go:542-599 | the loop over escapes and surrogate pairs comes to unescaping |
| `Decoders.ParseHexRune` | protojsonxgen/runtime.go:601-620 | the value of four hexadecimal digits |
| `Decoders.Decoder.ReadObjectKeyFast` | protojsonxgen/runtime.go:1071-1096 | the scan of a plain key, rewound at an escape or a byte beyond ASCII, comes to the key reader |
| `Decoders.Decoder.ReadSimpleInt64Token` | protojsonxgen/runtime.go:708-759 | the token loop comes to its specification and puts the cursor back when there is no simple token |
| `Decoders.Decoder.ReadSimpleUint64Token` | protojsonxgen/runtime.go:761-795 | the same for unsigned tokens |
| `Decoders.Decoder.ReadInt64` | protojsonxgen/runtime.go:637-663 | the token, the string or the fallback, in that order |
| `Decoders.Decoder.ReadUint64` | protojsonxgen/runtime.go:680-706 | the same for unsigned integers |
| `Decoders.Decoder.ReadJSONNumberToken` | protojsonxgen/runtime.go:826-876 | the number token and nothing behind it but an end |
| `Decoders.Decoder.ReadBool` | protojsonxgen/runtime.go:882-893 | the boolean literal |
| `Decoders.Decoder.Begin` | protojsonxgen/runtime.go:914-925 | the opening bracket is passed and the depth raised within the limit |
| `Decoders.Decoder.NextObjectKey` | protojsonxgen/runtime.go:1032-1062 | the next key, or the end of the object with the depth lowered |
| `Decoders.Decoder.NextArrayElement` | protojsonxgen/runtime.go:1173-1194 | the next element, or the end of the array with the depth lowered |
| `Decoders.Decoder.TryObjectFieldFast` | protojsonxgen/runtime.go:967-1017 | whether the raw next key is the one asked for; otherwise the cursor stays in front of it |
| `Decoders.Decoder.TryEndObject` | protojsonxgen/runtime.go:1019-1030 | whether the object ends here |
| `Decoders.Decoder.PeekObjectFieldName` | protojsonxgen/runtime.go:1109-1139 | the first key and the place to go back to |
| `Decoders.Decoder.SkipValue` | protojsonxgen/runtime.go:1196-1226 | one value is passed over and the depth restored |
| `Decoders.Decoder.Finish` | protojsonxgen/runtime.go:416-422 | only white space is left |
| `Encoders.Encoder.String` | protojsonxgen/runtime.go:134-162 | the quoted and escaped string is appended, with plain runs copied at once |
| `Encoders.Encoder.FieldPrefix` | protojsonxgen/runtime.go:122-130 | the separator, the quoted name and the colon are appended |
| `Encoders.Encoder.StringMap` | protojsonxgen/runtime.go:227-251 | the sorted entries of the map are appended, however it is enumerated |
| `Messages.MessageObject.UnmarshalFast` | cmd/protoc-gen-go-protojsonx/main.go:145-188 | the fields in declared order come to the ordered decoder: done, failed, or given up |
| `Messages.MessageObject.UnmarshalFrom` | cmd/protoc-gen-go-protojsonx/main.go:479-560 | the loop with its array of flags comes to the decoder for any order |
| `Messages.MessageObject.StoreField` | cmd/protoc-gen-go-protojsonx/main.go:615-692 | the assignment of a field and its oneof check |
| `Messages.MessageObject.DecodeNested` | cmd/protoc-gen-go-protojsonx/main.go:400-463 | the ordered attempt, the rewind and the zeroing of a nested message |
| `Messages.MessageObject.Unmarshal` | internal/testpb/user.protojsonx.pb.go:36-60 | the object holds the decoded message when the input is accepted |
| `Messages.MarshalMessage` | cmd/protoc-gen-go-protojsonx/main.go:888-1125 | the text of a message is appended: its set fields in declared order |
| `TableDecoder.UnmarshalWithTable` | unmarshal.go:824-837 | the target holds the decoded message when the whole input is accepted |
| `TableDecoder.SkipPlain` | unmarshal.go:540-640 | the second skipValue passes over one value |
| `TableDecoder.FieldOnce` | unmarshal.go:1169-1187 | a field that was found is refused if its bit is set, and else decoded, stored and marked |
| `TableDecoder.NarrowLoop` | unmarshal.go:1114-1187 | the loop with its mask and its prediction comes to the table decoder's loop |
| `TableDecoder.WideLoop` | unmarshal.go:1091-1118 | the loop with its map of seen fields comes to the same |
| `TableDecoder.MessageTable.ClearMissing` | unmarshal.go:853-866 | the fields whose bit is missing are cleared, except in oneofs that were populated |
| `TableDecoder.MessageTable.Reset` | unmarshal.go:841-849 | every field is cleared |
| `TableDecoder.MessageTable.FieldInstruction` | unmarshal.go:1129-1168 | the predicted field when it goes by the key, the one of the key map otherwise |
| `TableDecoder.UnmarshalInto` | unmarshal.go:1086-1196 | the target holds the decoded message when the input is accepted, on either path |
| `Codecs.UnmarshalValue` | unmarshal.go:2117-2173 | a value tree is read with its nested structs and lists |
| `Codecs.WriteValue` | marshal.go:1362-1401 | the text of a value tree is appended, or printing fails |
| `Codecs.ReadMap` | protojsonxgen/runtime.go:1645-1675 | the loop rebuilds the map |
| `Codecs.ReadMapEntry` | protojsonxgen/runtime.go:1651-1673 | one entry is refused or stored, or passed over when its enum name is discarded |
| `Codecs.WriteMap` | protojsonxgen/runtime.go:1556-1643 | the sorted entries are appended for the order in which the map was enumerated |

## Left out

- Floats: printing and parsing of float and double fields; numbers of value trees are opaque tokens, and the ParseFloat fallback for integers is an arbitrary function.
- Bytes fields and base64.
- Message types: maps other than string to string are modelled by themselves (`Maps`) and not as fields of a schema; Timestamp, Duration, Value and FieldMask likewise; wrappers, NullValue, Any and extensions not at all.
- Table encoder: marshalTo is not modelled; it does the same job as the generated encoder with options.
- EmitUnpopulated and UseProtoNames.
- Timestamps with an offset: they go to time.Parse, which is library code.
- FormatTimestamp and FormatDuration: string variants that the codec itself does not use.
- UTF-8: neither encoder nor decoder checks it, so strings are byte strings here.
- Memory: pools, aliasing of input slices by decoded strings, unsafe offsets and reflection; nested messages held in a field are values, and a nested object is built from the value and stored back.
- Targets after an error, and the wording of errors.
- Cache: a step is what happens between two points where another thread may come in; memory is sequentially consistent, readers holding the read lock do not count as holders of the mutex, and the descriptor work of compileTable is the list of its fields.
- Times.AppendTimestamp: times outside the years 1 to 9999, which the encoders refuse before they print, are not modelled, because the time package prints their dates.
- Times.AppendPaddedInt32: negative numbers, which no caller passes, are not modelled.
- Durations.AppendDuration: nanoseconds of a second or more, which the encoders refuse before they print, are not modelled.
- Decoders.Decoder.ReadInt64: the decBuffer of the table decoder has readers of its own with the same branches; only its skipValue is modelled a second time.
