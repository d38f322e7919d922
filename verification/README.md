# brotensor host code: a verified model

This project models the host side of brotensor in Dafny and proves properties of the model: the safetensors
writer and reader, the GGUF reader, the general JSON parser, the FP16, BF16 and FP8 conversions, the lifetime of
`Tensor` objects, the device policy with its nested scopes and lazy initialisation, the per-row INT8 quantiser and
the convolution geometry.

`dafny verify dfyconfig.toml` covers every file. Inductions are written out; no proof uses the automatic induction for lemmas.

## How it is built

Code that only computes is modelled as functions. Code that moves a cursor, fills a list or updates an object is
modelled as classes and methods with the loops the source has, and each such method is proved against a function of
its inputs or of the state before it; what the source promises is then proved about those functions.

- **Text and bytes.** The parsers' functions work on what is left of the input and return a value with the rest, or
  the failure. Grammar trees carry every choice a text can make (white space, escapes, number spellings, field
  order, unknown fields), so a statement about all trees is one about all renderings. A rendering takes the text
  that follows it. In the JSON and safetensors modules a `char` stands for one byte; the GGUF modules use a byte type.
- **JSON** (`JsonText`, `JsonDocument`, `JsonParser`, `JsonAccepts`, `JsonReader`). A rendering of a tree parses to
  the tree's meaning exactly when it nests at most 256 deep and its numbers convert, and whatever parses is such a
  rendering; escapes denote the shortest UTF-8 of the code points they spell, in digits of either case.
- **safetensors** (`SafetensorsParser`, `SafetensorsReader`, `SafetensorsDocument`, `SafetensorsReads`,
  `SafetensorsHeader`, `SafetensorsOpen`, `SafetensorsWriter`, `SafetensorsWriteFile`, `SafetensorsRoundTrip`,
  `SafetensorsChecks`, `SafetensorsAccepts`, `SafetensorsMeaning`). Any header's text reads as the views the header
  describes, or throws where it describes none, and whatever is read is such a header: a file opens exactly when it is
  put together from one. The grammar includes everything the reader passes over. The writer's text is one
  of those headers, so writing and opening is the identity, exactly when no entry is named `__metadata__` and the
  payload fits in 63 bits. In every file that opens, whoever wrote it, the tensors lie inside the payload, have the
  size their types and shapes ask for, and have different names.
- **GGUF** (`GgufBytes`, `Gguf`, `GgufGuards`, `GgufEncoding`, `GgufCanonical`, `GgufLayout`, `GgufOpen`, `GgufTensors`,
  `GgufLookup`, `GgufReader`). The reader with and without its count guards accepts the same files; it accepts exactly the encodings
  of files that have a meaning, and reads back the file encoded; the overflow-proof checks agree with unbounded
  arithmetic.
- **Number formats** (`Shifts`, `FloatRounding`, `HalfPrecision`, `Fp8`). Magnitudes are integers counted in a common
  small unit, so "nearest, ties to even" is a statement about integers. Bit operations are written as quotients,
  remainders and sums of disjoint fields.
- **Tensors** (`Dtypes`, `Devices`, `TensorStorage`, `TensorObjects`, `TensorRuns`, `TensorEffects`). Operations are
  compositions of allocate, release, transfer and retarget; ownership is an invariant of every run, and what each
  operation does to the tensors of a run is stated without them.
- **Devices** (`DevicePolicy`, `DeviceEffects`, `DeviceRuntime`, `InitProtocol`). The three places that hold the scope state are
  proved to be one stack per thread; both forms of dispatch are proved to go to one place; initialisation is a step
  relation over any number of threads.
- **Numerics** (`RowQuantization`, `ConvGeometry`), with `Arithmetic`, `MachineWords` and `Results` shared by all.

## What turned out not to hold in general

- A safetensors entry named `__metadata__`, or a payload past INT64_MAX, is written but does not come back
  (`SafetensorsRoundTrip.WriteThenOpen` gives the condition, `SafetensorsRoundTrip.ReservedIsWritten` an entry).
- The byte size of an F64 tensor of 2^61 elements or more wraps; for every other type and shape it is exact
  (`Dtypes.StorageBytesExact`, `Dtypes.StorageBytesWraps`). After any run an owner's buffer therefore holds its shape's
  elements exactly outside that case (`TensorRuns.OwnersHold`), and one call makes an owner that does not
  (`TensorRuns.OwnerTooSmall`).
- The transposed convolution's clamp at zero loses the input extent when the padding reaches past the whole input
  (`ConvGeometry.RoundTripExact`, `ConvGeometry.RoundTripFails`).
- With repeated `general.alignment` keys the last one sets the alignment, while a lookup of the key finds the first:
  the two agree exactly when the first and the last hold the same number (`GgufLookup.LookupFindsAlignment`), which
  they need not (`GgufLookup.LookupFindsFirst`).

## Model

| member | source | states |
|---|---|---|
| SafetensorsReader.ElementCount | src/safetensors.cpp:70-80 | the element count of a shape, failing on a negative dimension or a running product past INT64_MAX |
| SafetensorsReader.Parser.SkipWs | src/safetensors.cpp:100-102 | the cursor stops at the first byte that is not white space |
| SafetensorsReader.Parser.Eat | src/safetensors.cpp:104-108 | takes the character after white space if it is there; the white space is consumed either way |
| SafetensorsReader.Parser.ExpectChar | src/safetensors.cpp:109-111 | takes the character or fails |
| SafetensorsReader.Parser.HexAt | src/safetensors.cpp:114-126 | the value of four hex digits, -1 if one is not a hex digit |
| SafetensorsReader.Parser.ParseUnicodeEscape | src/safetensors.cpp:160-180 | one \u escape or surrogate pair as UTF-8, unpaired surrogates and bad digits failing |
| SafetensorsReader.Parser.ParseEscapeAt | src/safetensors.cpp:152-193 | an escape's bytes and the cursor behind it |
| SafetensorsReader.Parser.ParseStringValue | src/safetensors.cpp:146-201 | the string at the cursor as the specification reads it, or its failure |
| SafetensorsReader.Parser.ParseDigitRun | src/safetensors.cpp:208-214 | the digits' value, failing before it would pass INT64_MAX |
| SafetensorsReader.Parser.ParseIntValue | src/safetensors.cpp:203-216 | a signed 64-bit integer or the failure |
| SafetensorsReader.Parser.SkipContainerTail | src/safetensors.cpp:224-234 | the cursor behind the bracket that closes the container, strings skipped whole |
| SafetensorsReader.Parser.SkipAnyValue | src/safetensors.cpp:220-239 | the cursor behind the value |
| SafetensorsReader.Parser.ParseShapeArray | src/safetensors.cpp:274-282 | the integers of a shape |
| SafetensorsReader.Parser.ParseOffsetPair | src/safetensors.cpp:286-290 | the two data offsets |
| SafetensorsReader.Parser.ParseFieldInto | src/safetensors.cpp:263-299 | one field recorded in the entry; duplicates, unknown dtypes and negative offsets fail |
| SafetensorsReader.Parser.ParseEntryAt | src/safetensors.cpp:249-306 | an entry, all three fields required |
| SafetensorsReader.ViewOfEntry | src/safetensors.cpp:469-492 | the view of an entry, failing when its offsets leave the payload or disagree with its shape |
| SafetensorsReader.File.AddMember | src/safetensors.cpp:458-497 | one header member added to the tensors and the name index, or the failure |
| SafetensorsReader.File.ReadMembers | src/safetensors.cpp:450-498 | all members in order, the index leading from every name to its tensor |
| SafetensorsReader.File.ReadFile | src/safetensors.cpp:424-508 | the tensors the file's bytes describe, or the failure |
| SafetensorsReader.File.Find | src/safetensors.cpp:510-514 | the only tensor of that name, None exactly when there is none |
| SafetensorsReader.File.Get | src/safetensors.cpp:516-523 | that tensor, failing exactly when there is none |
| SafetensorsReads.StringParses | src/safetensors.cpp:146-201 | every spelling of a string, escapes and surrogate pairs included, parses to the bytes it denotes |
| SafetensorsReads.DecimalParses | src/safetensors.cpp:208-216 | a decimal reads back as itself, and is refused exactly when it passes INT64_MAX |
| SafetensorsReads.ScanDoc | src/safetensors.cpp:227-232 | inside a container any JSON value leaves the bracket count as it was |
| SafetensorsReads.ValueSkipped | src/safetensors.cpp:220-239 | skipping the rendering of any JSON tree stops exactly where it ends |
| SafetensorsReads.ExtraSkipped | src/safetensors.cpp:220-239 | skipping anything the grammar allows in a passed-over place, loose tokens and balanced brackets included, stops exactly where it ends |
| SafetensorsHeader.FieldValueReads | src/safetensors.cpp:263-299 | a field's text is recorded as its value, or fails where the field has none |
| SafetensorsHeader.EntryReads | src/safetensors.cpp:249-306 | an entry's text, fields in any order and unknown ones between them, reads as the entry |
| SafetensorsHeader.HeaderReads | src/safetensors.cpp:448-502 | the text of any header reads as exactly the views it describes, and throws exactly where it describes none |
| SafetensorsHeader.ExtrasIgnored | src/safetensors.cpp:460-467 | one `__metadata__` member and unknown entry fields, anywhere, do not change what is read |
| SafetensorsOpen.NumelIsProduct | src/safetensors.cpp:70-80 | a count the check lets through is the true product of dimensions none of which is negative |
| SafetensorsOpen.OpenSound | src/safetensors.cpp:424-508 | every tensor of any file that opens lies inside the payload, has the bytes its type and true element count need, and has a name of its own, never `__metadata__` |
| SafetensorsChecks.TypesExact | src/safetensors.cpp:32-68 | seven names are types, each with its element size, and no other string is one |
| SafetensorsChecks.CountedExactly | src/safetensors.cpp:70-80 | a shape has a count exactly when no dimension is negative and no product on the way passes INT64_MAX |
| SafetensorsChecks.ViewMadeExactly | src/safetensors.cpp:469-492 | an entry becomes a view exactly when it lies in the payload and has the bytes its type and true count ask for |
| SafetensorsAccepts.StringIsPieces | src/safetensors.cpp:146-201 | a string that parses is spelled from the pieces of the grammar and is what they denote |
| SafetensorsAccepts.ExtraIs | src/safetensors.cpp:220-239 | what is passed over is text the grammar allows there |
| SafetensorsAccepts.AcceptsExactlyHeaders | src/safetensors.cpp:448-502 | the reader accepts exactly the texts of headers of the grammar that describe something, with nothing behind them, and returns the views any such header describes |
| SafetensorsAccepts.OpensExactly | src/safetensors.cpp:424-508 | a file opens exactly when it is the eight bytes of its header's length, such a header, and the payload |
| SafetensorsMeaning.RecordedExactly | src/safetensors.cpp:249-306 | an entry says a type, a shape and a place exactly when it names a type once, has one shape and one pair of offsets, in any order; other fields do not matter |
| SafetensorsMeaning.MeaningExact | src/safetensors.cpp:453-498 | a header describes views exactly when its entries give them in order, fit the payload, have different names, and the metadata occur at most once |
| SafetensorsMeaning.OpenedExactly | src/safetensors.cpp:424-508 | a file opens, with given views, exactly when it is put together from a size field, a header that says them and a payload |
| SafetensorsWriteFile.ValidateEntry | src/safetensors.cpp:746-786 | one entry's checks and the offset after it |
| SafetensorsWriteFile.Validate | src/safetensors.cpp:741-787 | the validation loop, with contiguous offsets |
| SafetensorsWriteFile.JsonEscapeAppend | src/safetensors.cpp:715-736 | the escaped string appended |
| SafetensorsWriteFile.EntryAppendTo | src/safetensors.cpp:795-808 | one entry's text appended |
| SafetensorsWriteFile.AppendEntries | src/safetensors.cpp:792-810 | the entries' texts separated by commas |
| SafetensorsWriteFile.Pad | src/safetensors.cpp:811-812 | spaces up to the next multiple of eight |
| SafetensorsWriteFile.WriteFile | src/safetensors.cpp:740-844 | the bytes of the file, or the refusal |
| SafetensorsWriter.PiecesDenote | src/safetensors.cpp:715-736 | the writer's spelling of any string denotes that string |
| SafetensorsWriter.PiecesAreEscaped | src/safetensors.cpp:715-736 | the escape switch prints that spelling |
| SafetensorsChecks.EscapeExact | src/safetensors.cpp:715-736 | every byte is written as its letter after a backslash, as four lower-case digits if it is another control, or as itself |
| SafetensorsWriter.EntryIsMember | src/safetensors.cpp:795-808 | the writer prints an entry as the member of the header grammar that describes it |
| SafetensorsWriter.HeaderIsDocument | src/safetensors.cpp:790-812 | the printed header, padding included, is a header of the grammar |
| SafetensorsChecks.EntryCheckedExactly | src/safetensors.cpp:746-786 | the writer takes an entry exactly when it has a new name, data for its bytes, a type, a shape with a count, the bytes these ask for, and its end offset fits |
| SafetensorsChecks.WrittenExactly | src/safetensors.cpp:741-787 | the writer takes a list exactly when each entry is so by itself, no two share a name, and the bytes together fit a `size_t` |
| SafetensorsRoundTrip.EntriesAdmitted | src/safetensors.cpp:453-498 | the reader admits the written entries as their views, in order |
| SafetensorsRoundTrip.EntriesRefused | src/safetensors.cpp:211 | an end offset past INT64_MAX stops the reader |
| SafetensorsRoundTrip.HeaderRoundTrip | src/safetensors.cpp:789-812 | the printed header reads as the entries' views exactly when no name is reserved and every offset fits |
| SafetensorsRoundTrip.WriteThenOpen | src/safetensors.cpp:740-844 | opening a written file gives back names, dtypes, shapes and bytes in order, exactly under that condition; the views tile the payload |
| SafetensorsRoundTrip.ReservedIsWritten | src/safetensors.cpp:746-786 | the writer takes an entry named `__metadata__` |
| SafetensorsRoundTrip.PayloadAligned | src/safetensors.cpp:811-814 | the payload starts at a multiple of eight |
| JsonText.Utf8First | include/brotensor/json.h:246-262 | a strict UTF-8 decoder reads back every scalar value's encoding, whatever follows |
| JsonText.SpaceExact | include/brotensor/json.h:167-172 | white space is the four characters of RFC 8259 section 2 |
| JsonText.HexDigitExact | include/brotensor/json.h:269-272 | each digit value is read back from both its spellings, and no other character is a digit |
| JsonText.Hex4Exact | include/brotensor/json.h:264-278 | four digits in any mix of cases read as the unit they spell |
| JsonText.EveryUnitRead | src/safetensors.cpp:114-126 | every unit below 0x10000, written with any choice of cases, is read back |
| JsonText.UnescapeExact | include/brotensor/json.h:291-299 | the eight one-letter escapes stand for their bytes, and no other letter is one |
| JsonText.EscapesAreUtf8 | src/safetensors.cpp:128-144 | \u escapes, spelled from the code points in digits of either case, denote the shortest-form UTF-8 of exactly those code points (RFC 3629 section 3, RFC 2781 section 2.1) |
| JsonText.EscapesInjective | include/brotensor/json.h:300-319 | different code point sequences denote different bytes |
| JsonParser.StringParses | include/brotensor/json.h:280-328 | every spelling of a string parses to the bytes it denotes, unpaired surrogates included |
| JsonParser.NumberParses | include/brotensor/json.h:345-380 | every number spelling parses to its lexeme, or fails when it does not convert |
| JsonDocument.DigitExact | include/brotensor/json.h:345-380 | a digit is one of the ten characters |
| JsonParser.ValueParses | include/brotensor/json.h:179-243 | any value's text parses to its meaning exactly when the depth limit allows and its numbers convert |
| JsonParser.DocumentParses | include/brotensor/json.h:139-145 | any rendering of a tree parses to the tree exactly when it nests at most 256 deep and its numbers convert (RFC 8259 sections 2 to 7, and unpaired surrogates) |
| JsonAccepts.StringIsPieces | include/brotensor/json.h:280-328 | a string literal that parses is spelled from plain bytes, escapes, units and pairs, and means what they denote |
| JsonAccepts.NumberIsSpelled | include/brotensor/json.h:345-380 | a number that parses is spelled as RFC 8259 section 6 has it, or is an infinity |
| JsonAccepts.ValueIsTree | include/brotensor/json.h:179-243 | a value that parses is the text of a tree that means what was returned |
| JsonAccepts.AcceptsExactlyRenderings | include/brotensor/json.h:139-145 | the parser accepts exactly the renderings of trees it has the depth and the numbers for, and returns what any tree of the text means |
| JsonReader.Parser.SkipWs | include/brotensor/json.h:167-172 | the cursor stops at the first byte that is not white space |
| JsonReader.Parser.ParseHex4 | include/brotensor/json.h:264-278 | four hex digits' value, or the failure |
| JsonReader.Parser.ParseUnicode | include/brotensor/json.h:300-319 | a \u escape with the pairing and leniency of the source |
| JsonReader.Parser.ParseString | include/brotensor/json.h:280-328 | the string at the cursor |
| JsonReader.Parser.ParseNumber | include/brotensor/json.h:345-380 | the number at the cursor |
| JsonReader.Parser.ParseObject | include/brotensor/json.h:204-226 | the object at the cursor, the nesting counter as before |
| JsonReader.Parser.ParseArray | include/brotensor/json.h:228-243 | the array at the cursor, the nesting counter as before |
| JsonReader.Parser.ParseValue | include/brotensor/json.h:179-202 | the value at the cursor |
| JsonReader.Parser.ParseDocument | include/brotensor/json.h:139-145 | the whole document, trailing text failing |
| GgufReader.Reader.ReadLe | src/gguf.cpp:144-180 | `n` little-endian bytes, failing exactly when fewer are left |
| GgufReader.Reader.ReadString | src/gguf.cpp:189-195 | a length and that many bytes |
| GgufReader.Reader.ReadScalar | src/gguf.cpp:200-223 | a scalar of any type |
| GgufReader.Reader.ReadArrayHead | src/gguf.cpp:234-238 | element type and guarded length |
| GgufReader.Reader.ReadValue | src/gguf.cpp:225-244 | a value of any type within the depth limit |
| GgufReader.Reader.ReadItems | src/gguf.cpp:239-242 | the elements of an array in order |
| GgufReader.Reader.ReadDims | src/gguf.cpp:394-397 | a tensor's dimensions |
| GgufReader.Reader.ReadPending | src/gguf.cpp:390-400 | one tensor record |
| GgufReader.Reader.ReadAllPending | src/gguf.cpp:389-401 | all tensor records |
| GgufReader.GgufFile.TakeAlignment | src/gguf.cpp:366-374 | an entry under the alignment's key sets it if it is a positive 32-bit power of two, and fails otherwise |
| GgufReader.GgufFile.AddMeta | src/gguf.cpp:361-377 | one metadata entry appended and indexed, the alignment taken over |
| GgufReader.GgufFile.ReadMeta | src/gguf.cpp:361-377 | the metadata loop |
| GgufReader.CountElements | src/gguf.cpp:414-420 | the element count, or the failure |
| GgufReader.CountBytes | src/gguf.cpp:429-442 | the byte size of whole blocks, or the failure |
| GgufReader.GgufFile.AddTensor | src/gguf.cpp:408-461 | one tensor placed and indexed, or the failure |
| GgufReader.GgufFile.PlaceTensors | src/gguf.cpp:407-461 | all tensors placed in order |
| GgufReader.GgufFile.ReadContents | src/gguf.cpp:344-401 | header, metadata and tensor records, with the guards on both counts |
| GgufReader.GgufFile.OpenFile | src/gguf.cpp:330-464 | the file the bytes describe, or the failure |
| GgufReader.GgufFile.FindTensor | src/gguf.cpp:466-470 | the first tensor of that name |
| GgufReader.GgufFile.FindMeta | src/gguf.cpp:478-482 | the first metadata value of that key |
| GgufReader.ShapeTo2d | src/gguf.cpp:259-276 | rows times columns is the element count and columns the innermost dimension; fails exactly for empty, non-positive or oversized shapes |
| GgufGuards.ValueGuardsExact | src/gguf.cpp:238 | the array-length guard rejects only what would run out of bytes |
| GgufGuards.GuardsExact | src/gguf.cpp:359-387 | the reader with its three count guards accepts exactly what the reader without them accepts, with the same contents |
| GgufGuards.ValueNodesPaid | src/gguf.cpp:225-244 | a value tree has no more nodes than its text has bytes |
| GgufGuards.ContentsPaid | src/gguf.cpp:359-401 | what opening a file builds is bounded by its length |
| GgufEncoding.ValueReads | src/gguf.cpp:225-244 | an encoded value reads back exactly when nothing in it sits deeper than 32 |
| GgufEncoding.StoredBytesRead | src/gguf.cpp:200-223 | each value type is read in the bytes it is stored in |
| GgufEncoding.StartsWithLetters | src/gguf.cpp:346-349 | a file starts with the letters GGUF |
| GgufEncoding.DecodesEncoding | src/gguf.cpp:344-401 | an encoded file reads back as itself exactly when its version, depths, alignment and dimension counts are acceptable |
| GgufCanonical.ContentsAreEncoded | src/gguf.cpp:344-401 | whatever the reader accepts is the encoding of what it read |
| GgufCanonical.AcceptsExactlyEncodings | src/gguf.cpp:344-401 | the reader accepts exactly the encodings of files that have a meaning, so no two files share one |
| GgufLayout.PowerOfTwoTest | src/gguf.cpp:370 | the bit test accepts exactly the powers of two |
| GgufLayout.LeastMultipleIsLeast | src/gguf.cpp:404 | the rounded position is a multiple, at or after the position, and the least such |
| GgufLayout.AlignUpIsLeast | src/gguf.cpp:246-253 | the masked sum is that least multiple, and the function fails exactly when it does not fit a `size_t` |
| GgufLayout.NumelExact | src/gguf.cpp:414-420 | the running check accepts exactly positive dimensions whose true product fits, and returns it |
| GgufOpen.PlaceExact | src/gguf.cpp:408-461 | the wrap-free checks accept a tensor exactly when it truly fits the file, and record its true place, size and count |
| GgufOpen.UploadSizeAgrees | src/gguf.cpp:492-520 | the size recorded for a placed tensor is the one its upload computes |
| GgufOpen.MetaAlignment | src/gguf.cpp:366-374 | the alignment is that of the last entry under its key, 32 without one, and always a power of two |
| GgufOpen.RealignExact | src/gguf.cpp:366-374 | an entry changes the alignment exactly when its key is `general.alignment`, and is accepted there only as a positive 32-bit power of two |
| GgufOpen.OpenExact | src/gguf.cpp:403-461 | a file opens exactly when it parses, its aligned data start lies in it and every tensor truly fits behind that |
| GgufOpen.OpenInside | src/gguf.cpp:444-457 | every tensor of an open file lies between the data start and the end of the file |
| GgufOpen.FileAppend | src/gguf.cpp:403-405 | an encoded file is its header followed by its data |
| GgufOpen.OpenEncoded | src/gguf.cpp:330-464 | opening an encoded file with its data recovers version, metadata and tensors, exactly when it has a meaning and each tensor fits |
| GgufTensors.CodesExact | src/gguf.cpp:116-136 | a code is supported and names a type exactly when it is the file code of that type |
| GgufTensors.OpenTyped | src/gguf.cpp:330-464 | opening a file encoded from tensors given by type gives back those types, with their true byte counts and places, exactly when it has a meaning and every tensor fits |
| GgufOpen.TensorBytes | src/gguf.cpp:454-458 | the bytes at a tensor's recorded place are those the data behind the header holds for it |
| GgufLookup.LookupFindsAlignment | src/gguf.cpp:366-376 | in any file that opens, looking up the alignment's key finds the alignment in use exactly when the first and last entries under it hold the same number, so always when there is one |
| GgufLookup.LookupFindsFirst | src/gguf.cpp:478-482 | a file laid out by 64 in which the lookup finds 32 |
| FloatRounding.RneShiftPicks | src/tensor.cpp:220-221 | for every significand and shift the add-bias-then-shift step is round-to-nearest-even |
| FloatRounding.ShiftNearest | src/tensor.cpp:224-233 | applied between two neighbouring codes it rounds correctly among all codes |
| FloatRounding.NearestMonotone | src/tensor.cpp:198-234 | round-to-nearest-even is monotone and has one answer |
| HalfPrecision.Fp16IsNearestEven | src/tensor.cpp:198-234 | every finite FP32 goes to the nearest half, ties to even, subnormals, carry and overflow to infinity included (IEEE 754-2019 section 4.3.1) |
| HalfPrecision.Fp16NonFinite | src/tensor.cpp:205-210 | infinities stay infinities, every NaN becomes the quiet one, signs are kept |
| HalfPrecision.Fp16Monotone | src/tensor.cpp:198-234 | narrowing keeps the order of magnitudes |
| HalfPrecision.DecodeFp16 | src/tensor.cpp:236-259 | the decoder with its normalising loop and wrapping exponent |
| HalfPrecision.ShiftUp | src/tensor.cpp:245 | the normalising loop |
| HalfPrecision.Fp16DecodeExact | src/tensor.cpp:236-259 | widening a half is exact |
| HalfPrecision.Fp16WidensNonFinite | src/tensor.cpp:250-251 | an infinity widens to the infinity, a NaN to a NaN with its sign and fraction |
| HalfPrecision.Fp16WidensClass | src/tensor.cpp:236-259 | a half is infinite, or a NaN, exactly when what it widens to is |
| HalfPrecision.Fp16NanReturns | src/tensor.cpp:198-259 | a NaN widened and narrowed is the quiet NaN of its sign |
| HalfPrecision.Fp16RoundTrip | src/tensor.cpp:198-259 | narrowing undoes widening on every pattern that is not a NaN |
| HalfPrecision.Bf16IsNearestEven | src/tensor.cpp:263-275 | every finite FP32 goes to the nearest bfloat16, ties to even |
| HalfPrecision.Bf16NonFinite | src/tensor.cpp:266-270 | infinities stay infinities, a NaN keeps the high bits of its payload and is made quiet, signs are kept |
| HalfPrecision.Bf16Monotone | src/tensor.cpp:263-275 | narrowing keeps the order of magnitudes |
| HalfPrecision.Bf16RoundTrip | src/tensor.cpp:263-282 | narrowing undoes widening on every pattern that is not a NaN |
| HalfPrecision.Bf16DecodeExact | src/tensor.cpp:277-282 | widening a bfloat16 is exact |
| HalfPrecision.Bf16WidensClass | src/tensor.cpp:277-282 | the same for bfloat16, and every pattern keeps its sign and fraction |
| HalfPrecision.Bf16NanReturns | src/tensor.cpp:263-282 | a NaN widened and narrowed keeps its sign and payload and is quiet |
| Fp8.ComparisonExact | src/tensor.cpp:305-307 | comparing the FP32-rounded distances decides as the exact distances do |
| Fp8.SearchCode | src/tensor.cpp:299-307 | the binary search brackets the magnitude and the nearer code is taken, the even one on a tie |
| Fp8.EncodeFp8 | src/tensor.cpp:292-309 | every input that is not a NaN keeps its sign and takes the nearest finite code, ties to even, saturating at 448 |
| Fp8.Fp8DecodeExact | src/tensor.cpp:284-290 | the FP32 pattern a code decodes to is exactly its value, a NaN for the NaN codes |
| Fp8.Fp8Returns | src/tensor.cpp:284-309 | decoding and encoding any code gives it back, a NaN code as 0x7F |
| Fp8.Fp8RoundTrip | src/tensor.cpp:284-309 | encoding undoes decoding on every finite code |
| Dtypes.StorageBytesExact | src/tensor.cpp:146-162 | a tensor's size is its true byte count exactly when it is not F64 or has fewer than 2^61 elements |
| Dtypes.BlocksPackElements | src/tensor.cpp:113-144 | a block's bytes are its packed elements and its scales, type by type |
| Dtypes.StorageBytesWraps | src/tensor.cpp:150-153 | an F64 shape whose size wraps |
| TensorStorage.ShapeHasBytes | src/tensor.cpp:514-522 | a shape that passes the checks has a size, and `bytes` gives it |
| TensorStorage.HighWater | src/tensor.cpp:712-743 | over any resizes the capacity is the running maximum of the sizes computed for the requests, the allocation counter rises by the strict maxima, and the buffer is that of the last of them |
| TensorStorage.HighWaterFromDefault | src/tensor.cpp:371-379 | the same for a default-constructed tensor |
| TensorObjects.Runtime.BackendAlloc | src/tensor.cpp:374-379 | a fresh block and both counters, nothing for zero bytes |
| TensorObjects.Runtime.BackendFree | src/tensor.cpp:381-384 | the block is freed through its device |
| TensorObjects.Runtime.RetargetSlot | src/jit/trace_dag.cpp:249-260 | the table entry is moved or erased if it is this tensor's |
| TensorObjects.Tensor.ReleaseStorage | src/tensor.cpp:438-448 | an owned buffer is freed, and the tensor owns nothing |
| TensorObjects.Tensor.Destroy | src/tensor.cpp:431-436 | buffer freed and slot dropped |
| TensorObjects.Tensor.Move | src/tensor.cpp:453-466 | everything moves, the source is left empty, the slot follows |
| TensorObjects.Tensor.MoveAssign | src/tensor.cpp:468-494 | the old buffer is released first, then everything moves; onto itself it does nothing |
| TensorObjects.Tensor.EmptyTensor | src/tensor.cpp:532-545 | a tensor of the shape owning a fresh buffer of its size |
| TensorObjects.Tensor.ViewTensor | src/tensor.cpp:644-656 | a tensor that owns nothing |
| TensorObjects.Tensor.CloneTensor | src/tensor.cpp:660-671 | a fresh tensor of the same shape, refused for a traced intermediate |
| TensorObjects.Tensor.CopyAssign | src/tensor.cpp:506-512 | a clone moved in, the source unchanged, the slot it stood for dropped |
| TensorObjects.Tensor.Reallocate | src/tensor.cpp:733-738 | the old buffer released, a new one owned on the resolved device |
| TensorObjects.Tensor.ResizeTensor | src/tensor.cpp:712-743 | reshape in place when it fits, otherwise release and reallocate; views and traced intermediates refuse |
| TensorEffects.EmptyMakes | src/tensor.cpp:532-545 | a new tensor has the shape, type and device asked for and owns a new block of its size; refused exactly for a shape no tensor can have |
| TensorEffects.CloneMakes | src/tensor.cpp:660-671 | a clone has the original's rows, columns and type on the device asked for, and a new block; refused exactly for a traced intermediate or a shape no tensor can have |
| TensorEffects.ViewMakes | src/tensor.cpp:644-656 | a view is of the memory and shape given and owns nothing |
| TensorEffects.ResizeMakes | src/tensor.cpp:712-743 | a resize gives the shape asked for, in the old block if it is big enough, else in a new one; refused exactly for a traced intermediate, an impossible shape or a view that would change |
| TensorEffects.CopyInRun | src/tensor.cpp:496-512 | after a copy in any run the target has the source's shape and type in a block of its own; the source and all others are unchanged |
| TensorEffects.EmptyInRun | src/tensor.cpp:532-545 | a new tensor in any run is what was asked for, and no other changes |
| TensorEffects.ResizeInRun | src/tensor.cpp:712-743 | the same for a resize |
| TensorEffects.MoveInRun | src/tensor.cpp:468-494 | after a move in any run the target is what the source was, the source is empty, and only the target's old block is freed |
| TensorEffects.DestroyInRun | src/tensor.cpp:431-436 | a destruction in any run removes that tensor, frees its block and no other |
| TensorEffects.MaterializeInRun | src/jit/trace_dag.cpp:296-325 | a live traced value becomes a tensor of the value's shape owning a new block, its slot gone |
| TensorEffects.RecordInRun | src/jit/trace_dag.cpp:373-428 | a recorded value is a tensor without storage that its slot leads to; recording in place moves it to the new slot |
| TensorRuns.ReleaseKeeps | src/tensor.cpp:438-448 | releasing frees exactly what the tensor owned and keeps the invariant |
| TensorRuns.TransferKeeps | src/tensor.cpp:453-494 | moving keeps one owner for each buffer and one entry for each slot |
| TensorRuns.ResizeKeeps | src/tensor.cpp:712-743 | resizing keeps the invariant |
| TensorRuns.MaterializeKeeps | src/jit/trace_dag.cpp:296-325 | giving a traced value a buffer keeps the invariant |
| TensorRuns.RecordInPlaceKeeps | src/jit/trace_dag.cpp:413-428 | an in-place operation on a traced tensor moves it to its new slot and keeps the invariant |
| TensorRuns.StepKeeps | src/tensor.cpp:431-512 | every operation keeps the invariant |
| TensorRuns.EveryRun | src/tensor.cpp:431-743 | after any run live allocations are exactly the buffers of owning tensors, one owner each, freed once through their device, no smaller than what `bytes` says of the owner's shape; traced tensors are their slots' only entries |
| TensorRuns.OwnersHold | src/tensor.cpp:712-743 | after any run an owner's buffer holds every element of its shape exactly when the tensor is not F64 or has fewer than 2^61 elements |
| TensorRuns.OwnerTooSmall | src/tensor.cpp:532-545 | a run of one call after which it does not |
| TensorRuns.NothingLeaks | src/tensor.cpp:431-448 | once every tensor is gone nothing stays allocated |
| TensorRuns.ViewsNeverFree | src/tensor.cpp:438-448 | destroying or overwriting a view frees nothing |
| DevicePolicy.PushIsPush | src/init.cpp:207-223 | constructing a scope pushes on a simple stack |
| DevicePolicy.PopIsPop | src/init.cpp:225-230 | destroying it restores override, flags and kept devices exactly |
| DevicePolicy.StepRefines | src/init.cpp:119-230 | every operation is that operation of a machine with one plain stack a thread |
| DevicePolicy.DefaultAlwaysUsable | src/init.cpp:143-150 | in every reachable state every thread's default device is registered and resolves to itself |
| DevicePolicy.ScopesRestore | src/init.cpp:200-230 | after properly nested scopes, whatever else happens meanwhile, the thread's scope state is exactly the earlier one |
| DeviceEffects.PickIsBest | src/init.cpp:69-74 | the default picked exists, and no backend with a device comes before its in the order CUDA, Metal, Vulkan, CPU |
| DeviceEffects.RegisteredExactly | src/dispatch.cpp:167-183 | a device is registered exactly when it is one of those there are, the CPU under any index |
| DeviceEffects.ListingExact | src/init.cpp:172-190 | the list of devices holds exactly those |
| DeviceEffects.NoAlias | src/dispatch.cpp:185-197 | only a CUDA device without CUDA, with Metal or Vulkan there, stands for another |
| DeviceEffects.AliasTarget | src/dispatch.cpp:185-197 | it stands for the Metal device or the Vulkan device of its index, whichever is there, with both the one the default device is of, Metal otherwise |
| DeviceEffects.ResolveOnce | src/dispatch.cpp:185-197 | resolving twice is resolving once |
| DeviceEffects.SetMovesDefault | src/init.cpp:160-170 | in any run the device that the argument stands for becomes the answer of every thread outside of scopes and of no other, and the registry is unchanged; refused, changing nothing, exactly when it is not registered |
| DeviceEffects.ChooseMovesDefault | src/init.cpp:119-134 | the first initialisation makes the environment's wish the default if the device it stands for is registered, else the best there is; later ones change nothing |
| DeviceEffects.DefaultStays | src/init.cpp:119-134 | a default set or chosen stays until it is set again |
| DeviceEffects.OpenMovesThread | src/init.cpp:207-223 | a scope changes the answer of its own thread only, to the device asked for, and not at all if that is not registered |
| DeviceEffects.CloseLeavesOthers | src/init.cpp:225-230 | closing one changes no other thread's answer |
| DeviceRuntime.Process.RegisterBackend | src/dispatch.cpp:156-165 | the backend's slot is registered |
| DeviceRuntime.Process.Registered | src/dispatch.cpp:167-183 | which devices exist |
| DeviceRuntime.Process.PickDefault | src/init.cpp:69-74 | CUDA, then Metal, then Vulkan, then CPU |
| DeviceRuntime.Process.ChooseDefault | src/init.cpp:119-134 | the default is chosen once, the environment's wish if it is registered |
| DeviceRuntime.Process.SetDefaultDevice | src/init.cpp:160-170 | the resolved device becomes the default if it is registered |
| DeviceRuntime.Process.AvailableDevices | src/init.cpp:172-190 | the CPU, the CUDA devices, Metal, the Vulkan devices, as far as they are registered |
| DeviceRuntime.Process.AddCuda | src/init.cpp:177-183 | the CUDA devices numbered from zero, one where none is counted |
| DeviceRuntime.Process.AddVulkan | src/init.cpp:187-189 | the Vulkan devices numbered from zero |
| DeviceRuntime.Thread.DefaultDevice | src/init.cpp:143-150 | the override, else the chosen default, else what is registered |
| DeviceRuntime.Thread.ResolveAlias | src/dispatch.cpp:185-197 | what a CUDA device means without CUDA |
| DeviceRuntime.Thread.OpenScope | src/init.cpp:207-223 | a scope pushed, or refused |
| DeviceRuntime.Thread.CloseScope | src/init.cpp:225-230 | the newest scope popped |
| DeviceRuntime.Thread.OpsFor | src/dispatch.cpp:199-204 | the device an alias stands for, failing exactly when its backend is not registered |
| DeviceRuntime.DispatchV | src/dispatch.cpp:86-106 | the device of the first operand with storage, else of operand 0; every operand with storage must agree, and the backend must be registered |
| DeviceRuntime.ResolveOver | src/dispatch.cpp:111-134 | the same, else of the first operand there is |
| DeviceRuntime.Dispatch | src/dispatch.cpp:218-255 | where a list of operands that are all there goes, or the failure |
| DeviceRuntime.DispatchWithOpts | src/dispatch.cpp:257-278 | where required and optional operands go, failing beyond the buffer's 32 |
| DeviceRuntime.FormsAgree | src/dispatch.cpp:218-278 | on every list the entry points build the two forms agree, and null operands change nothing |
| DeviceRuntime.DispatchedExactly | src/dispatch.cpp:86-134 | dispatch succeeds exactly when the operands with storage share a device and its backend is registered, whatever their order |
| InitProtocol.StepKeeps | src/init.cpp:104-137 | one step of any thread keeps mutual exclusion and the history's order |
| InitProtocol.InitOnce | src/init.cpp:104-137 | under every interleaving the body runs at most once, ends only after it began, and no call returns before it has finished |
| InitProtocol.InitReturns | src/init.cpp:104-137 | no interleaving leads to a state in which a call can no longer return |
| RowQuantization.ClampNeverFires | src/ops_quant_audio.cpp:89-92 | no code leaves -127..127 before the clamps |
| RowQuantization.ErrorBound | src/ops_quant_audio.cpp:87-93 | decoding is within half a scale of the original |
| RowQuantization.RintNearestEven | src/ops_quant_audio.cpp:89 | rounding is to the nearest integer, at a tie to the even one |
| RowQuantization.MaxGets127 | src/ops_quant_audio.cpp:77-84 | the largest magnitude gets code 127 or -127, its sign kept |
| RowQuantization.RowQuantizes | src/ops_quant_audio.cpp:75-94 | all of that for every element of every row, and zeros for a zero row |
| RowQuantization.RowMax | src/ops_quant_audio.cpp:77-82 | the largest magnitude of a row |
| RowQuantization.EncodeRow | src/ops_quant_audio.cpp:87-93 | the codes of one row, other rows untouched |
| RowQuantization.QuantizeRow | src/ops_quant_audio.cpp:75-94 | scale and codes of one row, other rows untouched |
| RowQuantization.QuantizeRows | src/ops_quant_audio.cpp:67-95 | every row quantised, whatever the order of the rows |
| ConvGeometry.ConvGeom2d | src/api/api_internal.h:239-254 | accepts exactly the documented arguments and writes both extents |
| ConvGeometry.ConvTGeom | src/api/native_tensor_conv.cpp:30-44 | accepts exactly the documented arguments and writes both clamped extents |
| ConvGeometry.ExtentCountsWindows | src/api/api_internal.h:249-252 | the windows that fit the padded input are exactly those numbered below the extent |
| ConvGeometry.LastTap | src/api/api_internal.h:249-252 | a window fits the padded input exactly when its last tap does |
| ConvGeometry.TransposedReaches | src/api/native_tensor_conv.cpp:39-42 | without padding the transposed extent is what the last window reaches |
| ConvGeometry.OutputPaddingExtends | src/api/native_tensor_conv.cpp:39-42 | one more output padding is one more element, the clamp apart |
| ConvGeometry.RoundTripExact | src/api/native_tensor_conv.cpp:39-42 | convolving the transposed extent gives the input extent back exactly when the output padding is below the stride and the padding does not reach past the input |
| ConvGeometry.RoundTrip | src/api/native_tensor_conv.cpp:39-42 | in particular whenever the unclamped extent is not negative |
| ConvGeometry.RoundTripFails | src/api/native_tensor_conv.cpp:41-42 | a clamped extent that does not come back |
| ConvGeometry.NoOverflow | src/api/api_internal.h:249-252 | no intermediate value of either formula leaves 64 bits for 32-bit arguments |

## Left out

- File mapping, file handles, permissions and the closing of a half-built file: a file is its bytes.
- Error messages: names, offsets and numbers in them are dropped, and the GGUF sizing and placement failures are not told apart.
- Contents of tensor buffers: allocation, ownership and sizes are modelled, copied bytes are not.
- Allocation failure: an allocator returns an address that is not in use; the load profiler and device names are absent.
- The trace compiler: only its slot table, with recording, retargeting, materialising and release, is modelled.
- Op wrappers and kernels, the JavaScript bindings, upload conversions between dtypes and graph capture: they rest on code outside these files.
- JsonParser.DocumentParses: numbers are compared by lexeme, the conversion to double being an arbitrary predicate on lexemes.
- JsonText.EscapesAreUtf8: states nothing about unpaired surrogates, which safetensors rejects and the general parser emits raw.
- SafetensorsMeaning.OpenedExactly: for files whose size is a `size_t`, as every file's is.
- SafetensorsRoundTrip.WriteThenOpen: a header of 2^64 bytes or more is excluded, since a file's size is a `size_t`.
- Fp8.EncodeFp8: the FP32 subtraction is modelled with round-to-nearest-even on an unbounded exponent, which its operands never exceed.
- TensorRuns.EveryRun: an operation takes the device it resolved and the address it was given as arguments, so it holds for any resolution policy and any allocator that does not hand out an address in use.
- The spelling of the environment variable: the device it asks for, if any, is an argument.
- DevicePolicy.DefaultAlwaysUsable: each public call is one step; the two stores of `set_default_device` are not interleaved with other threads.
- InitProtocol.InitOnce: memory is sequentially consistent, and a body that throws, releasing the lock with the flag unset, is not modelled.
- DeviceRuntime.DispatchV: ends with the device whose backend's table is returned; the tables' contents and the CUDA context switch are not modelled.
- TensorObjects.Tensor.CloneTensor: the bytes the clone copies are not modelled, nor in `CopyAssign`.
- RowQuantization.RowQuantizes: over the reals, so the FP32 rounding of the scale, its inverse and the products is not modelled; `QuantizeRows` runs the rows in a given order instead of in parallel, and addresses them as two-dimensional arrays.
- ConvGeometry.NoOverflow: for arguments of 32 bits; wider arguments of the C++ functions may overflow.
