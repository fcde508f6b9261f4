# l80: a model of the two-pass 8080/CP/M object linker

`l80` links 8080 object streams into a CP/M `.com` image. It is invoked as
`ld binary file1.obj [file2.obj ...]`.

An object stream is a run of records, each introduced by a control byte:

- `00 b`: one data byte.
- `01 name 01`: a declaration.
- `02 name 02`: a reference.
- `03`: a marker that does nothing.
- `1A`: the CP/M end-of-file byte, which ends the whole pass.

The link runs in two passes:

- **Pass 1 (`collect1`)** reads every input. It advances an address counter that starts at 0x100 and binds each declaration's name to the current counter value. The bindings go into a symbol table pre-seeded with the entry "@" at address 0.
- **Pass 2 (`process2`)** reads every input again. It writes data bytes through, and replaces each reference by the little-endian address of its name.

`main` checks the command line, derives the output name `<binary>.com`, and runs pass 2 only when pass 1 succeeded. A failed link leaves no output file.

The project has seven files:

- `common.dfy`: the byte type, `USHRT_MAX`, the error constructors (one per message on the modelled paths of l80.c) and the status of a pass.
- `object_stream.dfy`: the wire format, stated once. It contains:
  - `Decode` (one record) and `Parse` (one file);
  - the name key (`Key`): at most 15 bytes, cut at the first NUL, as `symbol[16]` with `strlen`/`strcmp` gives;
  - `Gather`, all inputs read in order, where a path missing from the file map is a file that cannot be opened, with lemmas saying that the inputs' records are concatenated in order and that a CP/M EOF byte in any input ends the reading;
  - the two name-reading loops as methods, one of them filling a 16-byte array.
- `symbols.dfy`: the symbol table as a class whose `entries` sequence stands for the linked list `head`. Its duplicate-scan-and-append and its lookup are loops.
- `pass_one.dfy` / `pass_two.dfy`, each containing:
  - a specification: a `Step` per record folded over the records of all inputs, with the way the input ended applied last;
  - the imperative pass: one method per case of the C `switch`, and the file and byte loops;
  - the lemmas that characterise the pass.
- `linker.dfy`: `main` as a function `Ld` and as a method `Run` proved equal to it, plus end-to-end properties of a link.
- `two_files.dfy`: a worked link of two inputs whose image is `11 22 02 01 33`.

Some behaviours of l80.c are easy to misread from its messages and comments; the model keeps them as the code has them:

- **Suffixes are case-sensitive.** Only the exact suffixes `.obj`, `.OBJ`, `.lib` and `.LIB` are accepted; `prog.Obj` is refused (`Linker.SuffixExamples`).
- **The image ceiling is 65,279 bytes, not 65,280.**
  - Pass 1 fails as soon as 0x100 plus the image size exceeds 0xFFFF, although its message reads "final binary exceeds 65,280 bytes" (l80.c:80, 135; `PassOne.DataCeiling`, `Linker.LinkOutcome`).
  - The pass-2 ceiling check therefore never fires after pass 1 succeeded.
- **"@" has no check of its own.** It is refused as a declaration only because the duplicate scan finds the sentinel (`PassOne.SentinelTaken`). A reference to "@" is legal and yields `00 00`.
- **An empty reference name is not a framing error.** Only declarations are checked for an empty name. A reference with an empty key fails in pass 2 as an undefined reference.
- **Pass 1 has one message for an open name.** It reports "unterminated symbol" for both kinds. Pass 2 tells an unterminated declaration from an unterminated reference.

## Model

| member | source | states |
|---|---|---|
| ObjectStream.FindByte | l80.c:89-95 | the read-until-terminator loop stops at the first terminator; none means the file ended first |
| ObjectStream.CutNul | l80.c:98 | `strlen` of a NUL-padded buffer: the longest prefix with no 0 byte, ending at the buffer's end or at a 0 |
| ObjectStream.CutNulIs | l80.c:98 | those three properties determine the `strlen` prefix uniquely |
| ObjectStream.Key | l80.c:87-99 | the compared key is a prefix of the name, at most 15 bytes long, NUL-free, and stops at the 15-byte limit, the end of the name or its first NUL |
| ObjectStream.KeyAliasing | l80.c:93-94 | two names that agree on their first 15 bytes get the same key |
| ObjectStream.Decode | l80.c:72-147 | a decoded record consumes at least one and at most the available bytes, and its name never holds its own terminator |
| ObjectStream.DecodeEncode | l80.c:73-146 | decoding an encoded record (followed by anything) gives the record back and consumes exactly its encoding |
| ObjectStream.EncodeDecode | l80.c:73-146 | every accepted record is exactly the encoding of what the decoder returns |
| ObjectStream.Parse | l80.c:72-148 | reading one file never reports an unopenable file, and every record it yields is well formed |
| ObjectStream.ParseEncoded | l80.c:72-148 | reading encoded records followed by any bytes yields those records first, then whatever the rest yields |
| ObjectStream.CpmEofEndsFile | l80.c:141-143 | a 0x1A after well-formed records ends the file with exactly those records, whatever bytes follow |
| ObjectStream.Gather | l80.c:68-151 | the files are opened in command-line order and each is read to its end before the next; reading stops for good at the first file that cannot be opened, the first framing fault or the first 0x1A |
| ObjectStream.ResumeStep | l80.c:68-72 | reading all inputs from inside a file yields the record at the current position, then everything after it |
| ObjectStream.Concat | l80.c:68-151 | the records of several inputs one after the other; their image size is the sum of the inputs' sizes |
| ObjectStream.GatherPrefix | l80.c:68-151 | when the first k inputs open and are read to their end, the records are theirs in order followed by what the remaining inputs yield, which also decide how reading ends |
| ObjectStream.GatherInOrder | l80.c:68-151 | when every input opens and is read to its end, the records are the inputs' records concatenated in order and the input is exhausted |
| ObjectStream.HaltIgnoresLaterFiles | l80.c:141-143 | a 0x1A in any input, after inputs read to their end, ends the reading there: the records are those before it, and the rest of that file and every later input, even a missing one, are never read |
| ObjectStream.SkipName | l80.c:127-130 | the skip loop finds a terminator exactly when one exists, and stops at the first one |
| ObjectStream.ReadName | l80.c:87-95 | the buffer loop finds the terminator exactly when the decoder does, and leaves in the buffer exactly the key of the name read |
| Symbols.FindIndex | l80.c:204-211 | the head-first scan stops at the first entry with the key, and finds nothing only when no entry has it |
| Symbols.Resolve | l80.c:204-214 | a key resolves exactly when some entry carries it |
| Symbols.ResolveUnique | l80.c:101-108 | in a table with distinct names, every entry is what its name resolves to |
| Symbols.ValidResolves | l80.c:279-280 | in a table built by the linker "@" resolves to 0 and the empty key to nothing |
| Symbols.ExtendInvalid | l80.c:97-106 | once an empty or already present name is appended, no extension of the table is valid |
| Symbols.AppendValid | l80.c:110-122 | appending a new, non-empty name with a 16-bit address keeps the table valid |
| Symbols.SymbolTable.constructor | l80.c:275-283 | the table starts as the sentinel "@" at address 0 alone |
| Symbols.SymbolTable.Declare | l80.c:101-122 | a duplicate is reported exactly when the key is already in the list, and the list is then unchanged; otherwise the entry is appended at the tail |
| Symbols.SymbolTable.Lookup | l80.c:204-214 | the key is found exactly when it is declared, and the address returned is the one of the first matching entry |
| PassOne.Step | l80.c:73-147 | one record of `collect1`'s switch: a data byte adds 1 and a reference 2 to the counter, failing above 0xFFFF; a declaration fails on an empty or present key and otherwise appends the key at the counter; a marker does nothing |
| PassOne.Collect | l80.c:59-154 | `collect1` over the inputs: the records are applied in order until the first failure, and then the way reading ended (exhausted, 0x1A, fault, unopenable file) decides the result |
| PassOne.SentinelTaken | l80.c:101-106 | declaring a name whose key is "@" fails as a duplicate and changes nothing |
| PassOne.FoldLayout | l80.c:66-137 | after records accepted by pass 1, the counter equals its start plus the image size of the records and stays within 0xFFFF, and the table is extended by one binding per declaration, in input order |
| PassOne.FoldSucceeds | l80.c:74-137 | pass 1 accepts a run of records exactly when their image fits below 0x10000 and every declared key is non-empty and not yet in the table |
| PassOne.BindingAddress | l80.c:119 | every declaration is bound to the counter's start plus the image size of all records before it |
| PassOne.DataOverflow | l80.c:78-80 | data records that take the counter past 0xFFFF fail with the address overflow |
| PassOne.DataCeiling | l80.c:78-80 | with data records only, pass 1 succeeds exactly when there are at most 65,279 of them, and with more it fails with the overflow reported as "final binary exceeds 65,280 bytes" |
| PassOne.CollectOutcome | l80.c:59-154 | pass 1 over files succeeds exactly when every input it reaches (all, or those up to the first 0x1A) opens and has no framing fault before that point, the image fits and the keys are valid; the counter then ends at 0x100 plus the image size and the table is "@" followed by the bindings; pass 1 never fails with "binary too large" |
| PassOne.FoldNeverTooLarge | l80.c:59-154 | no record of pass 1 fails with "binary too large", a message of pass 2 alone |
| PassOne.FoldValid | l80.c:97-122 | whatever happens, the table left by pass 1 stays valid |
| PassOne.Declaration1 | l80.c:83-124 | the declaration case reads the name, fails on an open name, an empty key or a duplicate key, and otherwise binds the key to the counter, as the specification of pass 1 does from that point |
| PassOne.Reference1 | l80.c:125-137 | the reference case skips the name and advances the counter by two, failing above 0xFFFF, as the specification does from that point |
| PassOne.Record1 | l80.c:72-147 | one turn of the read loop does what the specification of pass 1 does with the record at the current position |
| PassOne.Collect1 | l80.c:59-154 | `collect1` ends with the status and leaves the table that the specification of pass 1 gives |
| PassTwo.Put | l80.c:176-178 | `fputc` then `bin++ == BIN_MAX`: the byte is written, then the write fails when 0xFF00 bytes were already written |
| PassTwo.Step | l80.c:170-234 | one record of `process2`'s switch: a data byte is written; a reference fails on an unknown key and otherwise writes the low then the high byte of its address, stopping after the first write that fails; declarations and markers write nothing |
| PassTwo.Process | l80.c:156-241 | `process2` over the inputs: the status and every byte written, records applied in order until the first failure, then the way reading ended |
| PassTwo.LittleEndian | l80.c:216-222 | for a 16-bit address the two bytes written are its low and high byte, and they give the address back |
| PassTwo.Bytes | l80.c:171-224 | a record stands for as many image bytes as pass 1 counts for it |
| PassTwo.StepBytes | l80.c:171-224 | an unknown key fails with nothing written; bytes that stay within the ceiling are written and the pass goes on; a write of the byte at index 0xFF00 happens and then fails |
| PassTwo.ImageSize | l80.c:171-224 | the image has exactly as many bytes as pass 1 counts for the records |
| PassTwo.ImageAppend | l80.c:165-238 | the image of consecutive runs of records is the concatenation of their images |
| PassTwo.ImageAt | l80.c:171-224 | a data record's payload, or a reference's low then high address byte, sit in the image at the image size of the records before it |
| PassTwo.FirstUndefined | l80.c:204-214 | below the ceiling, a failing pass 2 stops at the first reference whose key is not in the table, every earlier reference resolving, and reports that key |
| PassTwo.FoldImage | l80.c:169-235 | below the ceiling, pass 2 succeeds exactly when every reference resolves and then writes the image; otherwise it fails naming the key of the first reference that is not in the table |
| PassTwo.FoldTooLarge | l80.c:176-178 | past the ceiling, pass 2 fails with "binary too large" after writing exactly the first 65,281 image bytes |
| PassTwo.Declaration2 | l80.c:181-188 | the declaration case skips the name and writes nothing, failing on an open declaration, as the specification of pass 2 does from that point |
| PassTwo.Reference2 | l80.c:189-224 | the reference case reads the name, fails on an open reference or an unknown key, and otherwise writes the low then the high address byte, each counted against the ceiling, as the specification does from that point |
| PassTwo.Record2 | l80.c:169-234 | one turn of the read loop writes what the specification of pass 2 writes for the record at the current position, with `bin` equal to the bytes written |
| PassTwo.Process2 | l80.c:156-241 | `process2` ends with the status and the written bytes that the specification of pass 2 gives |
| Linker.LastDot | l80.c:260 | `strrchr`: the position of the last '.', or none when there is no '.' |
| Linker.HasObjectSuffix | l80.c:259-264 | an input name is accepted when the text from its last '.' on is exactly one of `.obj`, `.OBJ`, `.lib`, `.LIB` |
| Linker.SuffixIsLastFour | l80.c:258-265 | an input name is accepted exactly when its last four characters are one of the four suffixes |
| Linker.SuffixExamples | l80.c:258-265 | suffixes are compared case-sensitively; earlier dots do not matter; a name without a dot is refused |
| Linker.Ld | l80.c:243-297 | `main`: usage below three arguments, then the suffix of every input, then the base-name length; then pass 1 with the table "@"; pass 2 only when pass 1 did not fail; on success `<binary>.com` with the bytes pass 2 wrote, otherwise the first error and no output |
| Linker.Run | l80.c:243-297 | `main` returns what the link function gives: usage, suffix and name checks first, then pass 1, then pass 2 only if pass 1 succeeded |
| Linker.LinkOutcome | l80.c:288-294 | a well-formed command links exactly when pass 1 succeeds (every input read, up to the first 0x1A, opens with no framing fault, the image fits, keys are valid) and every reference resolves; the output is `<binary>.com` with the image, whose length is the final counter minus 0x100 and at most 65,279; a pass-1 failure is reported as pass 1's error; past pass 1 the failure names the first undeclared reference's key; "binary too large" is never reported |
| Linker.FramingFaultAborts | l80.c:74-76 | a framing fault anywhere in the input aborts the link, with the pass-1 message for it unless an earlier record failed |
| Linker.LinkedImage | l80.c:288-294 | a successful link wrote the image of all records under a valid table in which every reference resolves |
| Linker.DeclarationAddress | l80.c:119 | every declaration's key resolves to 0x100 plus the image size of all records before it, across files |
| Linker.ReferenceImage | l80.c:216-222 | in the image, each reference holds the low then the high byte of its declaration's address, whether that declaration comes earlier, later or in another file |
| Linker.SentinelReference | l80.c:279-280 | a reference to "@" is written as 00 00 |
| TwoFiles.FileA | l80.c:72-147 | the first example file decodes to two data records and a declaration of X |
| TwoFiles.FileB | l80.c:72-147 | the second example file decodes to a reference to X and a data record |
| TwoFiles.Inputs | l80.c:68-70 | the two files are read in order into five records |
| TwoFiles.Command | l80.c:253-273 | the example command passes the argument, suffix and name checks |
| TwoFiles.Table | l80.c:110-122 | pass 1 binds X to 0x102, and the image size is 5 |
| TwoFiles.Image | l80.c:171-224 | the image of the example is `11 22 02 01 33` |
| TwoFiles.Link | l80.c:243-297 | linking the example produces `prog.com` holding `11 22 02 01 33` |

## Left out

- File I/O is not modelled. Each input is a byte sequence in a map from path to contents, and both passes read the same map. A path not in the map is a file that cannot be opened. `fclose` and the input handles leaked on early returns are left out.
- Linker.Run: the failure to create the output file (l80.c:285-286) is not modelled. That file is opened before pass 1, so this failure would pre-empt every pass error.
- Linker.Run: removing a partial output (l80.c:293-294) is modelled as a failed link that returns no image. The bytes pass 2 wrote before failing stay visible only in `PassTwo.Process`.
- Message formatting by `error` on standard error (l80.c:40-54) is not modelled. Each message is an `Error` constructor carrying its argument. Every failure is exit status 1.
- The `malloc` and `strdup` failures (l80.c:115-116, 276-277) are not modelled, because allocation cannot fail in the model.
- Linker.HasObjectSuffix: an input name with no '.' is refused. In l80.c, `strrchr` returns NULL for such a name and `strcmp` on it is undefined behaviour (l80.c:260-261).
- The linked list `head` (l80.c:29-35) is a sequence of entries in list order. Pointers and tail-walking are left out; lookups and duplicate scans keep their head-first order.
- Names are sequences of bytes. The signedness of `char` in `strcmp` does not matter for equality and is left out.
