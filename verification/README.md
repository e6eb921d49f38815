# Verified model of bulk_extractor's self-contained algorithms

bulk_extractor reads a disk image page by page and hands each page to scanners. This project models the parts of it
that have a precise meaning of their own and proves what they are for:

| files | what they model |
|---|---|
| `JsonBytes`, `JsonTable`, `JsonChecker`, `JsonGrammar`, `JsonCompleteness`, `JsonSoundness`, `JsonScan`, `JsonStandard`, `JsonPoints` | the pushdown JSON checker, the scan that carves documents, and RFC 8259 |
| `XpressFormat`, `XpressDecoder`, `XpressRoundTrip`, `XpressTrailing`, `XpressCut`, `XpressExample`, `Hiberfile` | the plain LZ77 (Xpress) decoder and the scan of hibernation files |
| `XmlTree`, `XmlHandler`, `XmlNormal`, `XmlDocuments`, `XmlEmit`, `XmlUnparse`, `XmlText` | xmltodict: the SAX handler and the emitter |
| `ImageFiles`, `Pages`, `Phase1`, `PageRuns`, `PageSampling`, `Restart` | split images, the page loop, hashing, sampling, crash and restart |
| `AesField`, `AesInverse`, `AesSbox`, `AesSchedule`, `AesKeys`, `AesExample` | AES key schedules, from the field up |
| `Crc32`, `Base58`, `Base64` | checksums and text encodings |
| `Jpeg`, `JpegStreams`, `JpegOutcomes`, `Exif`, `ExifBudget`, `ExifLayout` | the JPEG marker-stream validator and the walk over EXIF directories |
| `ByteRunDb`, `ExtentDb` | the extent indexes of the Python reports |
| `Bytes`, `Octet`, `Arithmetic` | shared types and facts |

Code that changes things step by step is a class or a method here. Such a method is proved equal to a function of its
inputs or of the old state, and the lemmas are about that function. An `sbuf` is a byte sequence with a page size, a
file is a byte sequence, the report log is a sequence of records, and an exception is a value of a result type.

`dafny verify dfyconfig.toml` checks everything.

## What the proofs found

- The JSON table is not RFC 8259. A standard text is accepted if and only if its value is an array or object, at most
  255 brackets are open at once and no number is a bare zero with an exponent (`JsonStandard.StandardTexts`). In the
  other direction an accepted text is standard if and only if every point outside its strings has a digit behind it
  (`JsonPoints.LanguageIsStandard`). `[0e1]` and `[1.]` are the witnesses. The comment at `src/scan_json.cpp:470` says
  more than two commas; the code, and the model, ask for at least two.
- The JSON scan passes over an object that begins at the character at which an earlier attempt is rejected, as in
  `[1{"a":1,"b":2,"c":3}` (`JsonScan.ObjectIsPassedOver`); `JsonScan.VisitsExactly` says which positions are looked at.
  Arrays that begin with `true`, `false` or `null` directly behind the bracket are never recorded
  (`JsonScan.SecondCharExactly`).
- The copy guard of the Xpress decoder refuses a match that would read the first output byte, and a match whose bytes
  are the last of the input is lost. `XpressRoundTrip.RoundTrip` says for which token lists decoding is exact.
- The scan of hibernation files rounds the length of a block up to a multiple of 8, and the decoder reads the bytes this
  adds as tokens: a block of one literal with three zeros behind it comes back as four bytes
  (`Hiberfile.PaddingIsOutput`). What the guard lets through comes back first (`XpressTrailing.ComesBackFirst`), and
  `XpressTrailing.HarmlessExactly` says which added bytes leave it as it is. Where the compressor sets unused indicator
  bits to 0, one to four bytes do so if and only if the number of tokens is a multiple of 32; where it sets them to 1,
  one or two always do. `XpressTrailing.RestoredExactly` is the condition for any number of bytes.
- `findbin` passes over the place behind a failed one, so a hibernation block is found if and only if an even number
  of bytes like its first stand directly before it (`Hiberfile.FirstIsFound`, `Hiberfile.MissedBehindOneByte`).
- The size probe is wrong only for devices of exactly one byte, which it reports as empty (`ImageFiles.ProbeSize`).
- The number of bytes read for a page is kept in a 32-bit `int`. A page of 2^31 bytes is reported as unreadable
  (`Pages.HugePageFails`), and a count that is a multiple of 2^32 is taken for the end of the image. A page arrives
  whole if and only if its count, misread so, still covers it (`Pages.PageWhole`); the pages of a run make up the image
  if and only if all do (`PageRuns.PagesPartition`); finished runs leave no page out if and only if no count is misread
  as 0 (`Restart.FinishedCovers`).
- `page_number` is never advanced, so any `opt_page_start` above 0 skips the whole image
  (`PageRuns.PageStartSkipsAll`).
- A crash after the old report is archived and before all its pages are recorded again always allows a page to be
  started twice (`Restart.WindowCrashRepeats`); no other crash does (`Restart.NoPageTwice`). Such a state is reached if
  and only if some page of the image can be read (`Restart.WindowIsReachable`).
- `valid_aes192_schedule` starts its round constants at index 0, so it accepts no key schedule of FIPS 197
  (`AesSchedule.NoFips192Recognised`).
- Only a marker FF D9 or FF DE after a start of scan leads to COMPLETE: TEM, or EOI before a start of scan, does not,
  although the code sets COMPLETE there first (`JpegStreams.CompleteExactly`).
- A JPEG image whose data runs off the buffer is measured one byte short of it (`JpegOutcomes.ImageRunsOff`), and one
  whose scan header is cut inside its length field raises an exception (`JpegOutcomes.RangeErrorExactly`).
- `byterundb.search_offset` can miss an extent if extents overlap (`ByteRunDb.OverlapIsMissed`);
  `ByteRunDb.LatestIsFound` says when it finds one. Its documentation says that `add_extent` fixes invalid arguments;
  the code ignores the extent.
- `byterundb.search_offset` raises an exception if and only if an extent starts at the position and ends at 0
  (`ByteRunDb.Database.SearchOffset`), which a file of no bytes at offset 0 does.
- An empty extent at its own start hides the one that holds it (`ByteRunDb.EmptyHides`): what the search finds contains
  the position if and only if no extent that starts there ends there or before (`ByteRunDb.FoundExactly`).
- The length of base64 text is passed as an `int`, so a text of 2^31 bytes is lost (`Base64.HugeTextIsLost`).
- `extentdb` ignores the sector size passed to its constructor and always uses 512 (`ExtentDb.SizeIsNotUsed`).
- Base64 results never depend on anything after the first pad character.

## Model

| member | source | states |
|---|---|---|
| JsonChecker.JsonChecker.constructor | src/scan_json.cpp:222-234 | a fresh checker is in the start state with MODE_DONE alone on its stack |
| JsonChecker.JsonChecker.Push | src/scan_json.cpp:255-267 | fails exactly when the 256 slots are used up, otherwise appends the mode to the stack contents |
| JsonChecker.JsonChecker.Pop | src/scan_json.cpp:270-281 | succeeds exactly when the top mode is the expected one, and then removes just that |
| JsonChecker.JsonChecker.CheckIfDone | src/scan_json.cpp:236-239 | true exactly for a complete text: state OK with only MODE_DONE left |
| JsonChecker.JsonChecker.Act | src/scan_json.cpp:317-423 | the in-place stack and state changes of a table entry are those of the abstract pushdown step, and it rejects exactly when that does |
| JsonChecker.JsonChecker.CheckChar | src/scan_json.cpp:293-425 | one character moves the checker's whole state as the abstract step does; the result is -1 exactly when the text is rejected; the stack invariant is kept |
| JsonTable.ClassesAgree | src/scan_json.cpp:99-131 | for every byte its class is the one of the byte sets of sections 2, 6 and 7 of RFC 8259 that it belongs to, by value |
| JsonCompleteness.DocumentAccepted | src/scan_json.cpp:170-209 | every document of the grammar between whitespace ends accepted, with the number of its commas counted modulo 2^32 |
| JsonSoundness.Advance | src/scan_json.cpp:293-425 | any partial parse tree that describes the mode stack can be extended over any character that is not rejected |
| JsonSoundness.AcceptsExactlyTheGrammar | src/scan_json.cpp:99-425 | for every byte string: un-rejected and done if and only if it is whitespace, one array or object of the grammar nested at most 255 deep, whitespace |
| JsonStandard.StandardTexts | src/scan_json.cpp:170-209 | for every text of RFC 8259: in the language if and only if it holds an array or object, is at most 255 deep and has no bare zero with an exponent |
| JsonStandard.NumberAccepted | src/scan_json.cpp:190-196 | a number of section 6 of RFC 8259 is accepted if and only if it is not a bare zero with an exponent |
| JsonStandard.StandardForm | src/scan_json.cpp:190-196 | a number the table accepts is one of RFC 8259 if and only if its point is followed by a digit |
| JsonPoints.LanguageIsStandard | src/scan_json.cpp:170-209 | for every byte string in the language: it is a text of RFC 8259 if and only if every point outside its strings has a digit behind it |
| JsonStandard.NotTheStandard | src/scan_json.cpp:170-209 | witnesses of both differences |
| JsonScan.FirstDoneAtTheEnd | src/scan_json.cpp:236-239 | while a document is read, done is first true at its last bracket: no proper prefix is rejected or accepted |
| JsonScan.Examine | src/scan_json.cpp:463-480 | the inner loop from one candidate stops where the first rejection or the first completed document is, with the commas counted |
| JsonScan.ScanJson | src/scan_json.cpp:460-483 | the loop records exactly the regions of the scan function, with its skips |
| JsonScan.RegionsAreDisjoint | src/scan_json.cpp:460-483 | recorded regions are in increasing order and pairwise disjoint, within the buffer |
| JsonScan.RegionsExactly | src/scan_json.cpp:460-481 | a region is recorded if and only if the loop visits its start, the second-character filter passes and it is exactly one document with at least two commas |
| JsonScan.SecondCharIs | src/scan_json.cpp:432-450 | the characters of the filter |
| JsonScan.SecondCharExactly | src/scan_json.cpp:462 | a document passes the filter if and only if it is not empty and no array that begins with a word |
| JsonScan.VisitsExactly | src/scan_json.cpp:460-483 | a position is looked at if and only if no attempt from an earlier position that is looked at reads over it before it ends |
| JsonScan.RegionsByDocument | src/scan_json.cpp:460-483 | recorded if and only if the start is looked at and the region is a document with two commas that begins with no word |
| JsonScan.ObjectIsPassedOver | src/scan_json.cpp:467-470 | an object behind a bracket and a digit is not looked at |
| XpressDecoder.CopyMatch | src/pyxpress.c:189-195 | the byte-wise, possibly overlapping copy stops at the output limit and at the guard, and leaves the rest of the output alone |
| XpressDecoder.ReadMatch | src/pyxpress.c:132-185 | offset, length and nibble state are those of the format, though the length is computed modulo 2^32; inputs up to 2^32 - 4 bytes |
| XpressDecoder.XpressDecompress | src/pyxpress.c:90-199 | on every input up to 2^32 - 4 bytes the output is the decoding of the token stream, with all indices in range |
| XpressDecoder.WrapCancels | src/pyxpress.c:171-185 | subtracting 22 and adding 15, 7 and 3 modulo 2^32 gives the 16-bit length plus 3, underflow included |
| XpressFormat.CopyBackMeaning | src/pyxpress.c:189-195 | in an overlapping copy every new byte equals the byte one distance before it |
| XpressRoundTrip.EncodedFetched | src/pyxpress.c:104-185 | from encoded input, with any bytes behind it, the decoder reads back exactly the next token and stands before the rest, whichever indicator bit and nibble are due and whatever fills unused indicator bits |
| XpressRoundTrip.DecodesToWritten | src/pyxpress.c:104-198 | for every token list the decoder's output is its expansion cut by the guard, without a final match if nothing stands behind it, and otherwise followed by what is read from there |
| XpressRoundTrip.RoundTrip | src/pyxpress.c:90-199 | decoding an encoded token list, unused indicator bits 0 or 1, gives its expansion, for any large enough output, if and only if it is empty or ends in a literal with every match starting after the first byte |
| XpressRoundTrip.DecodeFits | src/pyxpress.c:90-199 | on any input whatever the decoder stays within the output buffer and only appends |
| XpressTrailing.SilentExactly | src/pyxpress.c:104-198 | on any input, from any point, nothing more is output if and only if all tokens still to come are matches that the guard refuses (or a literal is taken back) |
| XpressTrailing.RestoredExactly | src/pyxpress.c:90-199 | for every token list, either filler, any bytes behind the encoding and any output size: decoding gives the expansion if and only if those bytes, read with the indicator bits and the half byte the list leaves, are refused (or add just what the guard refused before) |
| XpressTrailing.HarmlessExactly | src/pyxpress.c:90-199 | which one to seven bytes behind an encoding leave the result as it is, by their values, the number of tokens and the filler (one to four bytes where unused bits are 1) |
| XpressTrailing.ComesBackFirst | src/pyxpress.c:90-199 | with bytes behind it the whole expansion comes back as the beginning of the output, a final match included |
| XpressTrailing.JunkIsAppended | src/pyxpress.c:121-131 | where unused indicator bits are 0, bytes behind an encoding are output as they are while such bits last |
| XpressTrailing.NotMadeUp | src/pyxpress.c:189-195 | up to two bytes never make up for a match that the guard refused |
| XpressTrailing.MadeUp | src/pyxpress.c:189-195 | three bytes can |
| XpressCut.ClippedIsCut | src/pyxpress.c:189-195 | on any output a match that meets the limit is the beginning of the whole copy, to the limit |
| XpressCut.DecodesToCut | src/pyxpress.c:104-198 | for every token list, filler, size and bytes behind, an output that is filled is the beginning of the one without a limit, cut where `CutAt` says |
| XpressCut.CutShort | src/pyxpress.c:90-199 | a list that expands to more than the output holds gives the beginning of its expansion, to the last byte or the one before |
| XpressExample.HundredTimes | src/pyxpress.c:104-185 | the format is that of the example in section 3.1 of [MS-XCA] |
| Hiberfile.FindBin | src/be20_api/sbuf.cpp:727-743 | the nested loops of the byte-string search give what the search function says |
| Hiberfile.FoundExactly | src/be20_api/sbuf.cpp:727-743 | an occurrence, in the page or its margin, is found if and only if it is the first with an even number of copies of its first byte directly before it and the search is still in the page when it comes to it |
| Hiberfile.FirstIsFound | src/be20_api/sbuf.cpp:727-743 | the first occurrence is found if and only if that number is even |
| Hiberfile.MissedBehindOneByte | src/be20_api/sbuf.cpp:727-743 | a header behind a single 81 (hexadecimal) is missed, whatever follows |
| Hiberfile.Decompress | src/scan_hiberfile.cpp:67-76 | the decoder as the scan calls it: any length a header can state is within its limits |
| Hiberfile.Scan | src/scan_hiberfile.cpp:39-95 | on every buffer the loop passes on exactly the blocks of the scan function |
| Hiberfile.BlocksAreGood | src/scan_hiberfile.cpp:39-95 | every block passed on has a header, is the decoding of the bytes behind it, is not empty, fits its buffer, and blocks ascend without overlap |
| Hiberfile.ComesBack | src/scan_hiberfile.cpp:67-76 | an encoded token list with any bytes behind it is restored if and only if it expands at most tenfold (or to 4096 bytes) and the bytes behind leave it as it is |
| Hiberfile.PaddingIsOutput | src/scan_hiberfile.cpp:61-76 | a block of 5 bytes that is read as 8 comes back with the zeros behind it |
| Hiberfile.PaddingIsCopied | src/scan_hiberfile.cpp:61-76 | where unused indicator bits are 1, three zeros behind a block are read as a match, whatever the block |
| Hiberfile.RoundedUp | src/scan_hiberfile.cpp:56-65 | the decoder gets the stated number of bytes and up to seven more |
| Hiberfile.FirstBlockExactly | src/scan_hiberfile.cpp:39-95 | the first encoded block of any buffer, of any size, is passed on as it was if and only if its header is visible to the search and its tokens are restored despite the bytes the rounding takes in |
| Hiberfile.WrittenBlock | src/scan_hiberfile.cpp:39-95 | a header, word and compressed bytes written behind anything without a header are passed on as they were if and only if the header is visible and the tokens come back despite up to seven bytes behind |
| Hiberfile.TooSmall | src/scan_hiberfile.cpp:46 | nothing is found in 512 bytes or fewer |
| XmlHandler.DictHandler.StartElement | python/xmltodict.py:90-103 | saves the surrounding item and data and starts an item from the attributes, as the abstract handler does |
| XmlHandler.DictHandler.CharacterData | python/xmltodict.py:131-135 | text is joined to what is there, as the abstract handler does |
| XmlHandler.DictHandler.PushData | python/xmltodict.py:137-153 | a new key is appended and a repeated key gathers its values in a list |
| XmlHandler.DictHandler.EndElement | python/xmltodict.py:105-129 | the finished element's value goes to its parent under its name, stripped text and empty items collapsed |
| XmlHandler.RunNode | python/xmltodict.py:90-153 | over the events of any tree the stack machine adds exactly the tree's recursive meaning and restores the stack |
| XmlHandler.CoalesceSame | python/xmltodict.py:131-135 | how the parser cuts text into pieces never changes the result |
| XmlHandler.ParseMeaning | python/xmltodict.py:156-250 | parsing any document gives one entry: the root's name and the root's meaning |
| XmlText.TextIsStripped | python/xmltodict.py:118 | blanks, tabs and line ends around a text are not part of its value |
| XmlText.BlankIsNil | python/xmltodict.py:118 | such characters alone are no value |
| XmlText.IndentationIsIgnored | python/xmltodict.py:105-135 | text of such characters between elements might as well not be there |
| XmlText.SpacesExactly | python/xmltodict.py:118 | the characters `strip` removes |
| XmlText.ExampleMeans | python/xmltodict.py:90-153 | an element with an attribute, text and repeated children, by its dictionary |
| XmlDocuments.MeaningNormal | python/xmltodict.py:105-153 | every value the parser builds is in normal form with attributes first and text last |
| XmlNormal.CanonSame | python/xmltodict.py:253-303 | putting a normal-form tree into the parser's key order changes nothing but the order of keys |
| XmlUnparse.Sort | python/xmltodict.py:277-287 | attributes, children and text of a dictionary are separated in order |
| XmlUnparse.EmitOne | python/xmltodict.py:270-303 | the events written for one value are exactly those of its element with its padding |
| XmlUnparse.Emit | python/xmltodict.py:253-303 | refuses exactly a root with several values; otherwise writes exactly the events of the tree's elements |
| XmlEmit.ElementMeaning | python/xmltodict.py:253-303 | the element written for a normal-form value means that value in canonical key order, pretty-printed or not |
| XmlUnparse.RoundTrip | python/xmltodict.py:90-303 | parsing what was emitted for a normal-form tree gives the tree back up to key order, with or without pretty-printing and however text is chunked |
| XmlText.DefaultRoundTrip | python/xmltodict.py:90-303 | the same with the newline and indentation that are the defaults, by value |
| XmlText.PrettyExample | python/xmltodict.py:288-303 | the lines and indentation of a pretty print |
| XmlUnparse.ReparseIsStable | python/xmltodict.py:90-303 | writing a parsed document and parsing it again gives the identical dictionary |
| XmlUnparse.RoundTripExactly | python/xmltodict.py:90-303 | of the values the emitter can write, exactly the normal-form ones come back unchanged up to key order |
| ImageFiles.ProcessRaw.AddFile | src/image_process.cpp:560-593 | the image becomes the old image followed by the file, empty files included |
| ImageFiles.ProcessRaw.FindOffset | src/image_process.cpp:599-607 | finds a file if and only if the offset is inside the image, and then one that holds it |
| ImageFiles.ProcessRaw.Pread | src/image_process.cpp:646-736 | fills the buffer with exactly the slice of the concatenated files and returns its length, 0 past the end; the recursion ends |
| ImageFiles.ProbeSize | src/image_process.cpp:526-549 | the result is the device's size if and only if it has at most 2^59 bytes and not exactly one; otherwise the seek error, or 0 |
| Pages.ImageIterator.Increment | src/image_process.cpp:759-763 | moves one page on, but not past the end |
| Pages.ImageIterator.SeekBlock | src/image_process.cpp:821-829 | goes to the block, or to the last one for a block beyond the image, and returns where |
| Pages.ImageIterator.SbufAlloc | src/image_process.cpp:786-814 | the page read is the image's bytes there with the margin, clipped at the end; end of image and failures as coded, with the read count cut to an int |
| Pages.PageWhole | src/image_process.cpp:786-814 | for any page size and margin: a page arrives whole if and only if its byte count, cut to an int, still covers it |
| Pages.HugePageFails | src/image_process.cpp:801-812 | a page of 2^31 bytes fails |
| Pages.SpanInBuffer | src/image_process.cpp:786-814 | all spans of at most margin + 1 bytes that start in a page are in its buffer if and only if fewer than 2^31 bytes are asked for |
| Pages.OffsetAt | src/image_process.cpp:759-763 | the i-th page starts exactly i page sizes after the first |
| Pages.OffsetsExactly | src/image_process.cpp:759-763 | an offset is read if and only if it is whole pages on from the first, inside the image and below the end of the scan |
| Phase1.Phase1.Schedule | src/phase1.cpp:185-201 | hash with gap detection, byte count and scheduling of one page |
| Phase1.Phase1.VisitPage | src/phase1.cpp:179-214 | a page is skipped, scheduled or reported as the abstract visit says |
| Phase1.Phase1.ReadProcessSbufs | src/phase1.cpp:126-228 | the whole loop, sampled or not and with any pattern of throttling, has the effect of the abstract run |
| Phase1.Reseek | src/phase1.cpp:162-176 | seeking again after a throttled turn neither skips nor repeats a page |
| Phase1.PageIdInjective | src/be20_api/pos0.h:80-85 | different offsets have different page ids |
| Phase1.PageIdIsDecimal | src/be20_api/pos0.h:80-85 | a page id is its offset in decimal digits without zeros in front |
| PageRuns.SequentialRun | src/phase1.cpp:155-225 | for any page size and margin a sequential run schedules in order exactly the wanted readable pages and reports exactly the wanted unreadable ones, up to a count misread as 0 |
| PageRuns.ScheduledExactly | src/phase1.cpp:155-225 | which pages a run hands on and which it reports, by offset, options, faults and counts, if no count is misread as 0 |
| PageRuns.HashIsPrefix | src/phase1.cpp:185-195 | whenever the hasher survives it has digested exactly the image up to `hash_next` |
| PageRuns.HashOfImage | src/phase1.cpp:185-195 | the final hash is that of the image if and only if every page was scanned whole |
| PageRuns.TotalIsSum | src/phase1.cpp:196-201 | in every run, sampled or not, `total_bytes` is the length of the pages scheduled |
| PageRuns.PagesPartition | src/phase1.cpp:155-225 | with nothing seen before and no read error the pages cover the image from the start offset exactly once if and only if every byte count covers its page; then nothing fails and count and hash are right |
| PageRuns.PageStartSkipsAll | src/phase1.cpp:179 | with a start page above 0 a run does nothing at all |
| PageSampling.SamplingIsExact | src/phase1.cpp:119-224 | for every set of blocks, the inclusive upper bound among them, and any read errors: no page is scanned twice, nothing but chosen blocks and the last page for a block beyond, and every chosen block of the image if and only if each can be read |
| Restart.Restarter.OnStart | src/bulk_extractor_restarter.h:44-58 | exactly the pos0 values of work_start elements are added |
| Restart.Restarter.Restart | src/bulk_extractor_restarter.h:68-100 | after reading a report the seen pages are those recorded in it, and their number is returned |
| Restart.RecordedIsLog | src/be20_api/scanner_set.cpp:775-794 | reading a written report, with whatever attributes and other elements lie between, gives back exactly the pages recorded |
| Restart.LoopCovers | src/phase1.cpp:179-181 | for any page size and margin a run hands on, without repetition, exactly the readable pages not recorded before, unless a count is misread as 0 |
| Restart.NoPageTwice | src/phase1.cpp:285-306 | over any number of crashes and restarts outside the archive window no page is ever started twice, and if no count is misread as 0 every page was started or could not be read after a finished run |
| Restart.FinishedCovers | src/phase1.cpp:155-225 | finished runs leave no page out if and only if no byte count is misread as 0 |
| Restart.WindowCrashRepeats | src/bulk_extractor_restarter.h:97-100 | from every state in that window that any run reaches a crash can be continued to a run that starts some page again |
| Restart.WindowIsReachable | src/bulk_extractor_restarter.h:97-100 | runs come into that window if and only if some page can be read |
| AesField.Gmul | src/scan_aes.cpp:63-75 | the shift-and-add loop is the product whose laws follow |
| AesField.ProductLeft | src/scan_aes.cpp:63-75 | the product distributes over addition |
| AesField.Commutes | src/scan_aes.cpp:63-75 | it is commutative |
| AesField.Associates | src/scan_aes.cpp:63-75 | it is associative |
| AesField.InverseUnique | src/scan_aes.cpp:63-75 | no element has two inverses |
| AesInverse.InverseExactly | src/scan_aes.cpp:102-176 | the logarithm tables give the inverse of every element and nothing else, and 0 for 0 |
| AesSchedule.RconFunction | src/scan_aes.cpp:80-90 | repeated multiplication gives the powers of x, and 0 for index 0 |
| AesSbox.SboxFunction | src/scan_aes.cpp:181-194 | the inverse, then rotations that add up to the affine step |
| AesSbox.SboxSetup | src/scan_aes.cpp:196-202 | fills the table in place with that function |
| AesSbox.SboxIsFips | src/scan_aes.cpp:172-202 | the table is the S-box of section 5.1.1 of FIPS 197: x stands for b if and only if its bits satisfy equation (5.1) for the inverse of b |
| AesSbox.SboxInjective | src/scan_aes.cpp:196-202 | the table is a permutation |
| AesSbox.AffineIsFips | src/scan_aes.cpp:181-194 | every bit of the affine step satisfies equation (5.1) of FIPS 197 |
| AesSbox.AffineInjective | src/scan_aes.cpp:181-194 | the affine step is injective |
| AesSchedule.Rotate32x8 | src/scan_aes.h:33-40 | rotates the four bytes in place |
| AesSchedule.ScheduleCore | src/scan_aes.cpp:207-219 | the in-place core is rotation, substitution and round constant of the key expansion |
| AesSchedule.ValidSchedule | src/scan_aes.cpp:224-378 | the loop the three checks share, reading back from the candidate and stopping early, is true if and only if the buffer equals the expansion of its own first key bytes |
| AesKeys.ValidAes128Schedule | src/scan_aes.cpp:224-258 | true if and only if the 176 bytes are the section 5.2 expansion of the first 16, with that S-box, and if and only if they are that of any key |
| AesKeys.ValidAes192Schedule | src/scan_aes.cpp:298-334 | true if and only if the 208 bytes are the expansion of the first 24 with round constants from index 0, as coded, and if and only if they are that of any key |
| AesKeys.ValidAes256Schedule | src/scan_aes.cpp:338-378 | true if and only if the 240 bytes are the section 5.2 expansion of the first 32, with that S-box, and if and only if they are that of any key |
| AesSchedule.RecognisesWhatIsCreated | src/scan_aes.cpp:224-378 | a buffer is the expansion of some key if and only if it is that of its own first bytes |
| AesSchedule.CreateSchedule | src/scan_aes.cpp:263-293 | the created schedule is the expansion of the key |
| AesSchedule.RoundKeysDiffer | src/scan_aes.cpp:262-293 | distinct AES-128 keys have distinct round keys in every round |
| AesExample.ExpandsAsInFips | src/scan_aes.cpp:207-293 | words 4 and 5 of the example in appendix A.1 of FIPS 197 |
| AesExample.FirstRoundAsInFips | src/scan_aes.cpp:338-378 | word 8 of appendix A.3 |
| AesExample.HalfWayAsInFips | src/scan_aes.cpp:338-378 | words 12 and 13 of appendix A.3: the substitution half way |
| AesExample.RoundConstants | src/scan_aes.cpp:80-98 | the ten round constants of section 5.2 |
| AesSchedule.NoFips192Recognised | src/scan_aes.cpp:298-334 | no schedule FIPS 197 makes of a 192-bit key passes the 192-bit check |
| Crc32.GenerateTable | src/scan_evtx.cpp:56-68 | every entry is the remainder of its index after eight bit divisions |
| Crc32.Update | src/scan_evtx.cpp:69-76 | the table-driven sum equals bit-at-a-time division by 0xEDB88320 on every buffer |
| Crc32.TableStep | src/scan_evtx.cpp:73 | one table look-up does the work of eight bit steps |
| Crc32.UpdateSplit | src/scan_evtx.cpp:47-76 | updating piece by piece equals updating with the pieces joined |
| Crc32.OneByteIsDetected | src/scan_evtx.cpp:69-76 | buffers that differ in exactly one byte never have the same sum |
| Crc32.KnownAnswer | src/scan_evtx.cpp:69-76 | the sum of the letter a |
| Base58.BuildUnbase58 | src/scan_ccns2.cpp:362-369 | the table holds every alphabet character's position and -1 elsewhere |
| Base58.MulAdd | src/scan_ccns2.cpp:378-382 | multiply-and-carry in place: carry and bytes together are 58 times the old value plus the digit |
| Base58.Unbase58 | src/scan_ccns2.cpp:371-386 | true if and only if all characters are digits and the value is below 256^25, and then the bytes read big-endian are that value |
| Base58.OnesChangeNothing | src/scan_ccns2.cpp:371-386 | leading 1s do not change the value |
| Base58.DecodeUndoesEncode | src/scan_ccns2.cpp:371-386 | the text of any 25 bytes, with a 1 for each zero byte at the front, meets the condition, and its value is that of those bytes and no others |
| Base58.ValueDeterminesBytes | src/scan_ccns2.cpp:371-386 | the value settles all the bytes |
| Base64.Pton | src/base64_forensic.cpp:128-284 | on any text the bytes are the decoding of its longest valid prefix; with a short target, exactly how many fit |
| Base64.DecodeBase64 | src/scan_base64.cpp:88-110 | the caller gets the whole decoding of the text as it is passed on, its length cut to an int: its target never limits it |
| Base64.HugeTextIsLost | src/scan_base64.cpp:88-110 | of a text of 2^31 bytes nothing is decoded |
| Base64.DecodedBits | src/base64_forensic.cpp:159-212 | decoding cuts the bit string of the digits into bytes and drops what does not fill one |
| Base64.DecodedLength | src/base64_forensic.cpp:159-212 | the number of bytes is three quarters of the digits, rounded down |
| Base64.LongestPrefix | src/base64_forensic.cpp:139-157 | only the part before the first NUL, pad or foreign character counts, and every character of it but white space is a digit |
| Base64.RoundTrip | src/base64_forensic.cpp:128-284 | decoding undoes encoding for every byte string, in both alphabets, padded or not, with white space anywhere |
| Base64.DigitIsTable | src/base64_forensic.cpp:55-57 | the digits are the tables of RFC 4648 by their characters |
| Base64.OnlyDigits | src/base64_forensic.cpp:145-157 | no other character is a digit |
| Jpeg.ScanData | src/jpeg_validator.h:120-147 | where the scan of the image data stops, and with which verdict |
| Jpeg.ValidateJpeg | src/jpeg_validator.h:37-184 | the validator's result is that of the marker walk, range exceptions included |
| JpegStreams.SeenMeans | src/jpeg_validator.h:72-98 | the fields kept while scanning mean what the blocks read declare: JFIF, tables, Exif, last frame size |
| JpegStreams.StreamFound | src/jpeg_validator.h:37-184 | a well-formed displayable stream followed by anything is measured exactly, as COMPLETE, or TRUNCATED with an Exif block, with its frame size |
| JpegStreams.CompleteExactly | src/jpeg_validator.h:37-184 | COMPLETE with length n if and only if the first n bytes are a well-formed displayable stream without an Exif block |
| JpegOutcomes.PathExists | src/jpeg_validator.h:42-110 | every buffer has a walk by marker positions |
| JpegOutcomes.WithoutScan | src/jpeg_validator.h:42-184 | a walk that comes to no start of scan is CORRUPT with length 0, or TRUNCATED at the place where it stops if there is an Exif block |
| JpegOutcomes.ScanTooEarly | src/jpeg_validator.h:98-113 | a start of scan before the JFIF header, a table or a frame: CORRUPT with length 0 |
| JpegOutcomes.DataRunsOff | src/jpeg_validator.h:115-184 | data without a marker that ends it: UNKNOWN, or TRUNCATED with Exif, up to the last byte or the end of the scan header |
| JpegOutcomes.DataStops | src/jpeg_validator.h:120-184 | the first marker that ends the data, or is forbidden, gives verdict and length |
| JpegOutcomes.RangeErrorExactly | src/jpeg_validator.h:117-118 | an exception is raised if and only if the scan header's length field is cut in half |
| JpegOutcomes.NothingExactly | src/jpeg_validator.h:153-183 | the length is 0 if and only if the start of image, or what is needed to display it or its Exif block, is missing |
| JpegOutcomes.ImageRunsOff | src/jpeg_validator.h:37-184 | for written items: data that runs off the buffer is measured to its last byte |
| JpegOutcomes.ImageStops | src/jpeg_validator.h:37-184 | for written items: data is measured to its end marker, or up to a forbidden one |
| Exif.EntryReader.Charge | src/exif_entry.cpp:1268-1270 | the 32-bit account and its test, shared by all value readers |
| Exif.EntryReader.GetValue | src/exif_entry.cpp:979-1491 | which values are accepted, and which end the walk with which exception |
| Exif.EntryReader.ParseEntry | src/exif_entry.cpp:154-976 | one entry: skipped, recorded, refused, or the directory it points to walked |
| Exif.EntryReader.ParseIfdEntries | src/exif_entry.cpp:123-152 | a directory's entries in order; the nested walk terminates on every buffer by directory kind and entries left |
| Exif.ReadTiffData | src/exif_reader.cpp:83-115 | both top directories, and the entries gleaned when the walk fails |
| ExifLayout.TiffWalked | src/exif_reader.cpp:83-115 | for every file laid out with directories, pointers and values in either byte order the walk records its values in order, up to the first that ends it |
| ExifLayout.LayoutRecorded | src/exif_entry.cpp:123-976 | within the limits exactly the entries whose tags are recorded, with directory, tag and place, and no failure |
| ExifLayout.LayoutEnds | src/exif_entry.cpp:123-976 | the first value over the account, out of the buffer or too large, and a directory that is cut off or too long, end the walk, and exactly the entries before are kept |
| ExifLayout.EveryTiff | src/exif_reader.cpp:83-115 | every buffer with a header is such a file, up to a little below 4 GiB |
| ExifLayout.TagsAgree | src/exif_entry.cpp:186-970 | the tags that are recorded, by ranges |
| ExifBudget.ChargeIsExact | src/exif_entry.cpp:1370-1372 | despite wrapping 32-bit arithmetic a value passes if and only if the true sum stays below 0x10000 |
| ExifBudget.ValueKeeps | src/exif_entry.cpp:1263-1491 | a value is accepted if and only if the unbounded sum of sizes allows it, and then adds exactly its size |
| ExifBudget.WalkKeepsBudget | src/exif_entry.cpp:123-976 | over the whole nested walk of any buffer accepted values take less than 0x10000 bytes in truth, `bytes_read` is their sum, recorded entries are sound and bounded in number |
| ByteRunDb.BisectLeft | python/identify_filenames.py:62 | the bisection finds the number of smaller extents, and raises if and only if some extent cannot be compared |
| ByteRunDb.Database.AddExtent | python/identify_filenames.py:50-54 | adds the extent, or nothing for arguments that are not integers |
| ByteRunDb.Database.SearchOffset | python/identify_filenames.py:56-84 | after any interleaving of additions and searches it raises if and only if an added extent cannot be compared, and on positive, disjoint runs answers as a linear scan over what was added |
| ByteRunDb.TwoDatabases.SearchOffset | python/identify_filenames.py:141-146 | answers as a linear scan over allocated and then unallocated runs |
| ByteRunDb.FoundExactly | python/identify_filenames.py:56-84 | for any extents: found is the first in order that starts at the position, or else the last before it if that contains it; it contains the position if and only if no extent that starts there ends there or before |
| ByteRunDb.ChosenByNumbers | python/identify_filenames.py:56-84 | of the extents that start at the position the one that ends first, or else of those that start latest before it the one that ends last |
| ByteRunDb.LatestIsFound | python/identify_filenames.py:56-84 | without empty extents one is found if and only if one that starts latest before the position contains it |
| ByteRunDb.EmptyHides | python/identify_filenames.py:56-84 | an empty extent that is found in place of the one that holds it |
| ByteRunDb.NearestIsLinear | python/identify_filenames.py:56-84 | binary search on the sorted list equals linear scan on the unsorted one |
| ByteRunDb.OverlapIsMissed | python/identify_filenames.py:56-84 | a concrete overlap in which the search misses an extent |
| ExtentDb.Database.Intersects | python/dfxml.py:1424-1434 | reports an extent if and only if one shares a byte with the argument, and then the first; empty and negative lengths as coded |
| ExtentDb.Database.Add | python/dfxml.py:1449-1455 | adds an extent if and only if the database stays positive-length and disjoint, and otherwise changes nothing |
| ExtentDb.Database.AddRuns | python/dfxml.py:1457-1460 | succeeds if and only if all runs fit together; a failure keeps exactly the runs before the first that does not fit |
| ExtentDb.CombineRuns | python/dfxml.py:1376-1390 | keeps the byte positions and their order and leaves no neighbours to combine |
| ExtentDb.RunsForSectors | python/dfxml.py:1462-1467 | the runs cover exactly the sectors, in order |
| ExtentDb.Database.constructor | python/dfxml.py:1398-1401 | whatever size is passed the database is empty and its sector size is 512 |
| ExtentDb.SizeIsNotUsed | python/dfxml.py:1398-1401 | sectors cover what is meant by them if and only if the size passed is 512 or there are none |
| ExtentDb.Database.AddSectors | python/dfxml.py:1469-1471 | succeeds if and only if the sectors, of 512 bytes, are distinct and none of their bytes is in the database |

## Left out

- XpressDecoder.XpressDecompress: input longer than 2^32 - 4 bytes and output of 2^32 bytes or more, where the 32-bit
  indices wrap and the loop need not end; its only caller stays below them on every buffer (`Hiberfile.Decompress`).
- XpressDecoder.ReadMatch: the same limit.
- XmlHandler.DictHandler.EndElement: the default options only (no item depth, postprocessor, namespaces or forced
  text, `@`, `#text` and an empty separator); the same holds for the emitter, which has no preprocessor.
- XmlUnparse.Emit: numbers and other objects as values; the text Python makes of a list directly in a list is a
  parameter. Attributes that are not strings, and text that is neither a string nor None, make XMLGenerator raise an
  exception and are not emitted here.
- XmlUnparse.EmitOne: the same.
- XmlUnparse.Sort: the same.
- XmlUnparse.RoundTrip: XMLGenerator's escaping followed by expat is taken to deliver the events that were emitted.
- ImageFiles.ProcessRaw.Pread: every file has the length it was added with, so short reads and stream errors do not
  occur; Windows handles are not part of this model.
- Pages.ImageIterator.SbufAlloc: for a position behind the end of the image the wrapped count is taken to fail
  allocation.
- Phase1.Phase1.ReadProcessSbufs: disk-write errors, the fraction done and the retries after a failed allocation; the
  random choice of blocks is an arbitrary ascending list, and the queue's fullness an arbitrary finite pattern.
- Restart.NoPageTwice: each work_start record is written atomically before its page is scanned, all runs use the same
  page size and the whole image, and page ids are decimal offsets without XML escapes.
- AesSchedule.ValidSchedule: the loop that the three functions repeat is written once, with their constants.
- Base64.Pton: characters read behind `srclen` after a pad character, which do not change the result.
- Exif.EntryReader.GetValue: the text of values; the number a dimension's text starts with is a parameter.
- Exif.EntryReader.ParseEntry: names of tags and debugging output.
- Exif.ReadTiffData: the header test of its callers is a precondition, as the code asserts it.
- ByteRunDb.Database.SearchOffset: file information is a number that stands for its place in Python's order.
- ExtentDb.CombineRuns: the file offset of a run, which combining drops.
- `json_checker::done`, which the scanner does not call, and writing features and hashes to recorders.
- `process_ewf` and `process_dir`: a foreign library, and plain iteration.
- The EVTX carving loop and the AES rolling-count filter: their own claims do not hold in general or are heuristics.
- `exif_reader::get_tiff_offset_from_exif`, `psd_reader` and `is_maybe_valid_tiff`: filters before the walk.
- `sectors_for_run` and `sectors_not_in_db` in `python/dfxml.py`: they pass a float to `range`, which raises.
- EXIF tag names and GPS formatting, card-number tables, SHA hashing, option parsing and the other reports: look-ups,
  floating point or easy members.
