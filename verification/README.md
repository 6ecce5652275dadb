# go-progs core, modelled in Dafny

This project models the sequential logic of four small Go command-line tools
and proves properties of that model. The tools are:

- **ghash**: writes a manifest of file hashes and verifies files against one.
- **hexlify**: dumps bytes as a C array, raw hex or base64.
- **godu**: a parallel disk-usage counter.
- **finddup**: reports files with identical contents.

The operating system, the hash primitives and the external directory walkers
are abstract inputs:

- A filesystem is a finite map from name to node. A node carries:
  - an inode key (Dev, Rdev, Ino)
  - a kind
  - the size `stat` reports
  - a link count
  - a modification time
  - the bytes a read yields, absent when opening fails
- A hash is a function parameter `digest(ctor, bytes)`.
- A walker's output is a list of file records handed in by the caller.

Goroutines and channels are replaced by the sequential order their
producers use.

Modules, one per source component:

| module | models |
|---|---|
| `Text` | `strings.TrimSpace`, `IndexRune`, `Split`/`Join`, an ASCII-only stand-in for `strings.ToLower`, `%d`, `strconv.ParseInt(s, 10, 64)` |
| `Hex`, `Base64` | the base16 encoding and the standard base64 encoding (sections 8 and 4 of RFC 4648), with decoders to state their round trips |
| `Sorting` | a descending sort by an integer key, standing for `sort.Sort` with a reversed `Less` |
| `Fs` | `lstat`, `stat`, `filepath.EvalSymlinks` over the map |
| `Hashes` | ghash's table of algorithm names to hash constructors |
| `Manifest` | the header line, the `hexsum\|size\|path` record, and `parseLine` |
| `Verify` | `hashFile`, `verifyFile`, `doVerify`'s scan and its exit code |
| `Process` | ghash's producer for named files: the inode tracker, symlink resolution, classification, the error result |
| `Ghash` | ghash's generate mode, and the theorem that a manifest generated with the corrected quoting writer verifies |
| `Hexlify` | the C-array dumper, the chunked raw-hex/base64 dumper, `write`, the mode switch |
| `Godu` | hard-link suppression, longest-prefix attribution, 64-bit totals, the size-ordered listing and TOTAL |
| `Finddup` | checksum grouping, the newest-first report in list and shell form, fatal errors |

Some edge cases are kept exactly as written:

- **Empty file name.** `parseLine` indexes `fn[0]` before checking the name is non-empty. A record with an empty file name therefore crashes the verifier. This is `Panic` in `Manifest.SplitRecord` and `Crashed` in `Verify.DoVerify`.
- **Error prefix.** `parseLine` never sets the datum's error prefix, so hashing failures are reported under an empty prefix (`Manifest.ParseLine`, `Verify.ModifiedFileReported`).

## Model

| member | source | states |
|---|---|---|
| Text.TrimSpace | ghash/verify.go:141 | The result is one contiguous slice of the line. Everything cut from either end is white space. The result neither starts nor ends with white space. |
| Text.TrimSpaceKeeps | ghash/verify.go:141 | A line that starts and ends with non-space is left unchanged. |
| Text.IndexOf | ghash/verify.go:144 | `IndexRune` finds nothing exactly when the rune is absent. Otherwise it returns the first position holding the rune. |
| Text.SplitOn | ghash/verify.go:53 | A split yields at least one field. No field contains the separator. There is a single field exactly when the separator does not occur. |
| Text.JoinSplitOn | ghash/verify.go:53 | Joining the fields of a split with the separator gives back the line. |
| Text.SplitJoinOn | ghash/verify.go:53 | Splitting separator-free parts joined by the separator gives back the parts. |
| Text.ToLowerAscii | hexlify/hexlify.go:79 | An ASCII-only stand-in for `strings.ToLower`, which also lowers non-ASCII letters; no mode name can tell them apart. Exactly the ASCII capitals are lowered; every other rune is kept, position by position. |
| Text.FormatInt | ghash/main.go:130 | `%d` writes a minus sign exactly for negative numbers, and otherwise only decimal digits. |
| Text.ParseInt64 | ghash/verify.go:156 | A parse succeeds exactly when the text after an optional sign is a non-empty run of decimal digits whose signed value is an int64. The value is then that signed number; a negative one needs a leading `-`. |
| Text.FormatParseInt | ghash/verify.go:156 | Parsing what `%d` wrote gives back every int64 value. |
| Text.DigitsValueOfNatToDec | godu/main.go:104-111 | The decimal digits printed for a natural number read back as that number. |
| Hex.Encode | ghash/main.go:130 | `%x` writes two lower-case hex digits per byte. |
| Hex.DecodeEncode | ghash/verify.go:209 | Decoding the lower-case hex of a byte string gives the byte string back. |
| Hex.EncodeInjective | ghash/verify.go:209-210 | Two digests have equal hex text exactly when they are equal. |
| Hex.EncodeAppend | hexlify/hexlify.go:329-331 | Hex encoding distributes over concatenation. |
| Base64.Encode | hexlify/hexlify.go:326 | A non-empty input encodes to at least one four-character group. |
| Base64.EncodeLength | hexlify/hexlify.go:327 | The encoding has exactly `EncodedLen(n) = 4·⌈n/3⌉` characters. |
| Base64.DecodeEncode | hexlify/hexlify.go:326 | Decoding the standard encoding gives the input back. |
| Base64.EncodePadOnlyAtEnd | hexlify/hexlify.go:326 | Padding `=` can only appear in the last two characters. |
| Base64.EncodeEndsInPad | hexlify/hexlify.go:326 | An input of length 1 mod 3 ends in `==`. |
| Base64.EncodeAppend | hexlify/hexlify.go:340-353 | When the first part's length is a multiple of three, encoding the parts separately equals encoding their concatenation. |
| Sorting.SortDesc | godu/main.go:194 | The result is a permutation of the input, in non-increasing key order. |
| Sorting.InsertSorted | godu/main.go:48-51 | Inserting into a descending list keeps it descending. |
| Sorting.HeadIsMax | godu/main.go:48-51 | The first element of a descending list has the largest key. |
| Fs.Lstat | ghash/process.go:46 | `lstat` succeeds exactly for existing names and reports the node itself. |
| Fs.Stat | ghash/process.go:141 | `stat` reports the name asked for. On a name that is not a symlink it agrees with `lstat`. |
| Hashes.Lookup | ghash/main.go:90-93 | The lookup succeeds exactly for keys of the table and yields that key's constructor. |
| Hashes.Aliases | ghash/main.go:175-188 | `sha3` and `sha3-512` share one constructor, as do `blake2b` and `blake2b-512`. No other two names share one. |
| Hashes.KeyedUseZeroKey | ghash/main.go:190-206 | Every keyed constructor uses a 32-byte all-zero key. |
| Manifest.CheckHeader | ghash/verify.go:53-67 | The header is accepted exactly when its space split has at least three fields, the first is `#!ghash` and the second names a table entry. The result is that entry's constructor. |
| Manifest.HeaderAccepted | ghash/main.go:112 | The header the generator writes is accepted for every algorithm in the table. |
| Manifest.RecordLine | ghash/main.go:130 | As written, a record starts with the lower-case hex digest and a `\|` and ends with the raw path. Its length is exactly that of the digest, the decimal size, the path and two separators. |
| Manifest.SplitRecord | ghash/verify.go:141-168 | A trimmed line with no `\|` is a malformed checksum. The checksum is the text before the first `\|` and holds no `\|`. A parsed size is an int64. Every refusal is one of the four split errors. |
| Manifest.NameField | ghash/verify.go:163-168 | An empty name panics. A name not starting with `"` is taken as is. A name starting with `"` is refused as a malformed file name exactly when it does not unquote, and otherwise the unquoted name is taken. Checksum and size pass through unchanged. |
| Manifest.SplitOneBar | ghash/verify.go:144-155 | A trimmed line with exactly one `\|` is refused as a malformed file size. |
| Manifest.SplitTwoBars | ghash/verify.go:144-168 | With the first two `\|` at i and j, a middle field that is not an int64 is refused as a malformed size. Otherwise the result is the name step applied to the text before i, the middle field's value and the text after j. |
| Manifest.Unquote | ghash/verify.go:164 | A successful unquote needs a double quote at both ends. |
| Manifest.UnquoteQuote | ghash/verify.go:164 | Unquoting the quoted form of any path gives the path back. |
| Manifest.ParseLine | ghash/verify.go:134-194 | A split failure is reported under the line's prefix with its own kind. After a good split: a name that does not stat is `StatFailed`, a non-regular file is `NotAFile`, a size other than the recorded one is `SizeMismatch` with both sizes, and a regular file of the recorded size parses to the split's fields with an empty error prefix. |
| Manifest.RecordRoundTrip | ghash/verify.go:141-168 | A record whose path is non-empty, does not start with `"` and does not end in white space splits back into its checksum, size and path. |
| Manifest.QuotedPathRewritten | ghash/main.go:130 | A file named `"a"` is written raw and read back as `a`. |
| Manifest.EmptyPathPanics | ghash/verify.go:163 | The record of an empty path makes the parser panic. |
| Manifest.RecordLineQuoted | ghash/main.go:130 | The quoting writer writes every path the parser leaves alone raw, and never writes a newline. |
| Manifest.RecordQuotedRoundTrip | ghash/main.go:130 | Every path, whatever its characters, splits back exactly from the quoting writer's record. |
| Verify.HashFile | ghash/hashfile.go:25-46 | Hashing succeeds exactly when the file can be opened and read. It yields the digest of its bytes and their count. |
| Verify.ConstantTimeCompare | ghash/verify.go:210 | The comparison yields 1 exactly for equal strings and 0 otherwise. |
| Verify.VerifyFile | ghash/verify.go:196-215 | Failures carry the datum's prefix. An unhashable file is reported as such. A size mismatch is reported before any digest comparison. A file is accepted exactly when its size matches and the hex of its digest equals the expected text. |
| Verify.AcceptedMeansSameDigest | ghash/verify.go:209-212 | For an accepted file, the expected text is lower-case hex that decodes to the file's digest. |
| Verify.LinePrefix | ghash/verify.go:91 | A line's error prefix is the manifest name, `: `, and then text that reads back as the line number. |
| Verify.CheckLine | ghash/verify.go:89-99 | A line crashes the scan exactly when its split panics. A malformed line yields exactly its parse failure. A line that parses is clean exactly when its datum verifies, and otherwise fails with the failure verification gives. |
| Verify.OutcomeAt | ghash/verify.go:89-90 | The i-th data line is checked under number `num + i`. |
| Verify.Collect | ghash/verify.go:104-114 | The scan crashes exactly when some line crashed. Otherwise at most one failure is collected per line. |
| Verify.CollectAppend | ghash/verify.go:104-114 | Collecting two runs of lines collects the failures of the first, then those of the second. |
| Verify.CollectFailuresInOrder | ghash/verify.go:109-112 | In a scan that did not crash, every failed line's failure is among the collected ones. |
| Verify.LineReported | ghash/verify.go:89-99 | A data line whose check fails has its failure among the errors collected from all data lines. |
| Verify.DoVerify | ghash/verify.go:36-67 | A missing first line and a bad header are fatal before any record is read. A finished run has at most one failure per data line. |
| Verify.MalformedLineReported | ghash/verify.go:89-99 | In a scan that finishes, a malformed line at index k of the file (the header is index 0) has its parse failure among the reported errors, under the prefix `name: k+1`. |
| Verify.ParsedLineReported | ghash/verify.go:89-99 | In a scan that finishes, a line that parses but fails verification has that failure among the reported errors. |
| Verify.ModifiedFileReported | ghash/verify.go:196-215 | In a scan that finishes, a line that parses but whose file no longer hashes to the recorded checksum is reported as a modified file, under the empty prefix `parseLine` leaves. |
| Verify.ExitCodeAsWrittenIsParity | ghash/verify.go:131 | As written, the exit code is the parity of the failure count. |
| Verify.TwoFailuresExitZero | ghash/verify.go:131 | As written, two failures exit with 0. |
| Verify.ExitCode | ghash/verify.go:131 | The corrected exit code is 0 exactly when there is no failure, and 1 otherwise. |
| Verify.RunExitCode | ghash/verify.go:126-131 | Corrected (see ## Findings). A verify run exits 0 exactly when it finished with no failures, and 1 when it finished with some or died with a fatal message. A crash exits 2, the Go runtime's status for an unrecovered panic. |
| Process.IsEntrySeen | ghash/process.go:161-171 | A key is reported seen exactly when it was stored before. A new key stores its record. A stored record is never replaced. |
| Process.FirstWriterWins | ghash/process.go:161-171 | After offering a sequence of records, each key not stored before holds the first record offered under it. |
| Process.Resolve | ghash/process.go:133-152 | An unresolvable link, or a target that does not stat, is a diagnostic naming what failed, and leaves the tracker alone. Otherwise the target is offered to the tracker; a regular target not seen before is the result, and a seen or non-regular target is dropped silently. |
| Process.Classify | ghash/process.go:79-88 | Exactly regular files are enqueued, as given. A directory is reported as `skipping dir`, any other non-regular kind as `skipping non-file`. |
| Process.Decide | ghash/process.go:45-88 | A failed lstat is one diagnostic. A seen inode is skipped silently. A symlink met while following is off is reported. A fresh regular file is enqueued, a fresh directory or other object reported. A followed fresh link reports the resolver's diagnostic, is skipped when dropped, and otherwise enqueues its target. Whatever is enqueued is a regular file seen for the first time. |
| Process.FollowedLinkDropped | ghash/process.go:146-149 | A followed link whose target inode was already seen, or whose target is not a regular file, is skipped silently. |
| Process.Produce | ghash/process.go:42-91 | There is one action per argument, and the loop never stops early. An lstat failure is reported in place. Enqueued records are regular files with pairwise distinct inodes. |
| Process.DecideTouches | ghash/process.go:52-65 | One name adds to the tracker at most its own inode and, for a followed link, its target's. |
| Process.ProduceTouches | ghash/process.go:45-89 | After a run of names, the tracker holds no key that none of them reaches. |
| Process.ProduceAt | ghash/process.go:45-89 | The i-th action is the loop body's decision for the i-th name, with the tracker the earlier names left. |
| Process.FreshArgumentHandled | ghash/process.go:45-88 | A name that is not a link, whose inode no earlier name reaches, is enqueued when it is a regular file, and reported as a directory or non-file otherwise. |
| Process.EnqueuedDistinct | ghash/process.go:52-54 | Across the argument list, each inode is enqueued at most once, and only regular files are enqueued. |
| Process.ApplyErrors | ghash/process.go:109-120 | The workers report nothing exactly when the action succeeds on every enqueued file. |
| Process.ApplyErrorsExact | ghash/process.go:109-120 | The workers report a failure for every enqueued file the action fails on, and nothing else. Their number is the number of such files. |
| Process.ProcessArgs | ghash/process.go:97-126 | The result is nil exactly when no diagnostic and no worker error was sent. Otherwise it is a non-empty list of errors. |
| Process.ProcessArgsJoin | ghash/process.go:97-126 | The error is the join of every diagnostic the producer sent and every failure of the action on an enqueued file. It holds nothing else, and its length is their count. |
| Process.JoinOf | ghash/process.go:103-105 | Joining diagnostics and failures keeps each of them, adds nothing, and is as long as both together. |
| Process.LstatFailureReported | ghash/process.go:45-50 | A name that cannot be lstat'ed is reported at its position, the later names are still processed, and the call fails. |
| Ghash.Generate | ghash/main.go:85-165 | Corrected (see ## Findings): records come from the quoting writer. No argument, or an unknown algorithm, is fatal before anything is written. Otherwise the first line is the header, and the exit status is 1 exactly when the dispatcher reported an error. |
| Ghash.RecordsExact | ghash/main.go:127-135 | Corrected (see ## Findings): records are the quoting writer's. The writer prints the record of every file that hashed and nothing else. Records plus failed files account for every enqueued file. |
| Ghash.GenerateWritesRecords | ghash/main.go:112-135 | Corrected (see ## Findings): records are the quoting writer's. After the header, a generate run writes the record of every enqueued file that hashed, and no other line. |
| Ghash.RecordVerifies | ghash/main.go:130 | Corrected (see ## Findings). The record the quoting writer writes for a regular file passes every check of the verifier, under any line number. |
| Ghash.RecordsVerify | ghash/main.go:129-135 | Corrected (see ## Findings). Every record the quoting writer writes for a run of regular files passes the verifier. |
| Ghash.EnqueuedRegular | ghash/process.go:83-84 | Every file sent to the workers stats as the regular file sent. |
| Ghash.GenerateThenVerify | ghash/main.go:112-130 | Corrected (see ## Findings). Verifying a manifest generated with the quoting writer against the same filesystem finishes with no failure, when every read yields as many bytes as `stat` reports. |
| Hexlify.Write | hexlify/hexlify.go:361-370 | `write` succeeds exactly when the writer reports no error and the full count. A short count is a partial-write error naming the input. |
| Hexlify.FullLine | hexlify/hexlify.go:262-273 | A line of up to 16 bytes starting on a line boundary is `\n\t` followed by the items `, 0xNN`. |
| Hexlify.WriteLines | hexlify/hexlify.go:262-273 | The line loop writes exactly the reference layout of the remaining bytes: 16 per line, each line opened by `\n\t`. |
| Hexlify.CWrite | hexlify/hexlify.go:239-278 | The first write emits `{\n\t  0xNN` for the first byte, then the layout of the rest. Later writes emit the layout only. A first write of nothing panics. When the underlying writer does not take the text, a call with bytes to print fails under the input's name. The dumper counts as started after any call with bytes. |
| Hexlify.CClose | hexlify/hexlify.go:291-295 | Close writes `\n}\n` and fails exactly when that write does. |
| Hexlify.EncLenExact | hexlify/hexlify.go:344-346 | `enclen(m)` is exactly the number of characters the encoder writes. |
| Hexlify.BufferFits | hexlify/hexlify.go:317 | The 3·65536 buffer holds `enclen(m)` characters for every chunk of at most 65536 bytes, in both modes. |
| Hexlify.Chunks | hexlify/hexlify.go:340-353 | The chunks, concatenated, are the input. |
| Hexlify.ChunksShape | hexlify/hexlify.go:343 | Every chunk is non-empty and at most the chunk size, and all but the last are exactly the chunk size. |
| Hexlify.ChunkedHexIsWholeHex | hexlify/hexlify.go:329-353 | Raw-hex output over 65536-byte chunks equals the hex of the whole input. |
| Hexlify.ChunkedB64PadsMidStream | hexlify/hexlify.go:340-353 | As written, a 65537-byte input's base64 output differs from the base64 of the input. |
| Hexlify.ChunkSize | hexlify/hexlify.go:24 | The corrected chunk size is positive, at most 65536, and a multiple of three for base64. |
| Hexlify.ChunkedIsWhole | hexlify/hexlify.go:340-353 | With the corrected chunk size, either mode's output is the encoding of the whole input. |
| Hexlify.FlexWrite | hexlify/hexlify.go:340-354 | Corrected (see ## Findings): chunks of the corrected size. The chunks' encodings are handed to `write` in order, and the first failed write ends the call with its error. Without a failure, every chunk was sent and the output is the encoding of the input. |
| Hexlify.FlexClose | hexlify/hexlify.go:356-359 | Close of the chunked dumper writes one newline and returns no error whatever the writer answers, unlike the C dumper's close. |
| Hexlify.ModeOf | hexlify/hexlify.go:79-99 | The lower-cased mode name selects one of the four dumpers by its listed names. Any other name selects none. |
| Hexlify.ModeCaseInsensitive | hexlify/hexlify.go:79 | Mode selection ignores ASCII case. |
| Godu.U64 | godu/main.go:168 | `uint64(size)` keeps a non-negative size and wraps a negative one to `2^64 + size`. |
| Godu.Hardlinked | godu/main.go:128-144 | A file with one link is never a hard link and changes nothing. Otherwise it is a hard link exactly when its key was met before, and the first name met is stored. |
| Godu.HarvestCountsFirsts | godu/main.go:162-166 | The harvest counts exactly the singly linked files and the first file of each multiply linked inode. The link map names each such inode after its first file. |
| Godu.Owner | godu/main.go:169-175 | The owner is an argument that is a prefix of the path. There is none exactly when no argument is. |
| Godu.OwnerIsLongestPrefix | godu/main.go:114-116 | After the length sort, each file goes to the longest argument that is a textual prefix of its path. |
| Godu.AddToFind | godu/main.go:172 | `sizes[nm] += sz` makes the entry its old value (0 if absent) plus `sz`, modulo 2^64. |
| Godu.AddToKeeps | godu/main.go:172 | Every other entry is unchanged. |
| Godu.TotalsDistinct | godu/main.go:161 | The totals hold at most one row per argument. |
| Godu.TotalsAreOwnedSums | godu/main.go:162-175 | An argument has a total exactly when it owns a counted file. Its total is the 64-bit wrapped sum of the sizes it owns. |
| Godu.SumPermutation | godu/main.go:194 | Reordering the rows does not change their sum. |
| Godu.TotalsSumAttributed | godu/main.go:186-191 | Modulo 2^64, the totals sum to the sizes of all attributed files. |
| Godu.Unsorted | godu/main.go:176-191 | With `-a` there is one row per counted file, with its wrapped size. Otherwise there is one row per argument total. |
| Godu.SizeText | godu/main.go:99-112 | Byte mode prints the size in decimal. Kilobyte mode prints `⌊size/1024⌋`. Human mode prints what the humaniser gives. |
| Godu.Pad12 | godu/main.go:198 | `%12s` right-aligns in at least twelve columns and pads only with spaces. |
| Godu.RowLine | godu/main.go:198 | A row line is the size text right-aligned in twelve columns, a space, and the name. |
| Godu.PrintRows | godu/main.go:193-199 | There is one line per row, in order, and the 64-bit running total is the wrapped sum of the rows. |
| Godu.Output | godu/main.go:193-202 | The listing has one line per row, and with `-t` a final TOTAL line giving the wrapped sum of the printed rows. |
| Godu.Du | godu/main.go:94-202 | No argument is fatal. A walker error is fatal before anything is printed. Otherwise the rows are printed in non-increasing size order, are a permutation of the totals (or files), and the TOTAL line sums them. |
| Godu.ListedTotal | godu/main.go:186-202 | Without `-a`, the rows printed (in any order) sum to the sizes of all attributed files, modulo 2^64. |
| Godu.KilobyteRow | godu/main.go:103-107 | In kilobyte mode, the number printed before the name reads back as `⌊size/1024⌋`. |
| Finddup.SumAll | finddup/finddup.go:75-87 | Checksumming succeeds exactly when every walked file can be checksummed. Each file is then paired with the lower-case hex of its checksum, in walk order. |
| Finddup.SumAllFirstFailure | finddup/finddup.go:77-80 | A checksum error names the first file, in walk order, that cannot be checksummed. |
| Finddup.BucketFind | finddup/finddup.go:82-85 | A file is appended to the entry of its own checksum, which is created empty when new. |
| Finddup.BucketKeeps | finddup/finddup.go:82-85 | No other entry changes. |
| Finddup.GroupAllDistinct | finddup/finddup.go:74 | No two entries of the map share a checksum. |
| Finddup.GroupAllMembers | finddup/finddup.go:82-85 | Each checksum's entry holds exactly the files walked with that checksum, in walk order. A checksum no file has has no entry. |
| Finddup.InMembers | finddup/finddup.go:82-85 | A file is among a checksum's members exactly when it was walked with that checksum. |
| Finddup.FileInOwnGroup | finddup/finddup.go:82-85 | A file in an entry was walked, and the entry's key is the hex of that file's own checksum, so each file is in exactly one entry. |
| Finddup.FileHasGroup | finddup/finddup.go:82-85 | Every walked file is in the entry of its checksum. |
| Finddup.SameSumSameGroup | finddup/finddup.go:82-85 | Two walked files with one checksum share an entry of at least two files. |
| Finddup.Entry | finddup/finddup.go:95-97 | An entry prints nothing exactly when it holds fewer than two files. |
| Finddup.EntryShape | finddup/finddup.go:99-109 | Corrected (see ## Findings): shell lines use the corrected quoting. A reported entry is the header `\n# <hexsum>\n`, then one line per file in newest-first order: shell commands in shell mode, indented names otherwise. |
| Finddup.ShellCommands | finddup/finddup.go:102-106 | Corrected (see ## Findings): paths are quoted so the shell reads them back; for a path with no `'` this is the written `'%s'`. The first (newest) file's removal is commented out as `# rm -f`, and every other file gets `rm -f` and its quoted path. |
| Finddup.ShellLines | finddup/finddup.go:102-106 | For newline-free paths, the shell text splits at newlines into exactly those commands. |
| Finddup.NamesAreLines | finddup/finddup.go:108-124 | `names`, indented and newline-terminated, is one line per path, each indented by four spaces. |
| Finddup.NamesLines | finddup/finddup.go:115-124 | For newline-free paths, the names listing splits at newlines into exactly the indented paths. |
| Finddup.ReportAppend | finddup/finddup.go:93-112 | The report is each entry's text in turn. |
| Finddup.DuplicatesReported | finddup/finddup.go:75-112 | Two walked files with equal checksums sit in one entry. That entry's text is not empty, and the printed output is the report of the entries before it, then its text, then the report of the entries after it. |
| Finddup.Finddup | finddup/finddup.go:63-112 | No argument is fatal. A walk or checksum error is fatal before any output, and the error names a file that cannot be checksummed. Output is printed exactly when neither happens. |
| Finddup.AsWrittenQuoteBreaks | finddup/finddup.go:103-105 | As written, the shell reads `'a'b'` as something other than the path `a'b`. |
| Finddup.QuoteMatchesAsWritten | finddup/finddup.go:103-105 | For paths without a single quote, the corrected quoting is exactly the written `'%s'`. |
| Finddup.QuoteNoNewline | finddup/finddup.go:103-105 | Quoting adds no newline. |
| Finddup.QuoteRoundTrip | finddup/finddup.go:103-105 | The shell reads every quoted path back as exactly that path. |

## Left out

- Concurrency: goroutines, channels, wait groups and the worker pool. Each is replaced by the sequential order of its producer, and every error is collected in that order.
- The external walkers (`go-walk`, `go-fio/walk`), including ghash's `-r` mode. Their output is a list of file records, plus their own errors, passed in as given.
- The hash primitives and `mmap` streaming. A digest is a function parameter over a file's bytes. Opening or reading failures are a missing `contents`.
- Go map iteration order, in finddup's `Range` and godu's `sizes` loop. Entries are kept in insertion order; the properties stated do not depend on that order.
- Flag parsing, usage and version output, `--list-hashes`, safe output-file creation and `AtExit`. None of these affects the modelled logic.
- hexlify's hexdump mode (`hex.Dumper`, a library formatter). `utils.HumanizeSize` is a parameter of godu's human mode.
- hexlify's read loop, `-n` count and mmap path, which feed the dumpers. Each dumper `Write` is modelled for one buffer.
- deadlinks and ifaddr: they are I/O only.
- Sorting.SortDesc: a stable insertion sort stands for Go's unstable `sort.Sort`. The contracts promise only the descending order and the permutation, which every correct `sort.Sort` result meets.
- Text.ParseInt64: Go's syntax and range errors are one failure here. `parseLine` reports both the same way.
- Manifest.Unquote: only single-character escapes are decoded. Octal, `\x`, `\u` and `\U` escapes are treated as failures.
- Hexlify.FlexWrite: covers a single `Write` call. Callers hand `Write` successive buffers whose sizes need not be multiples of three (the read loop's short reads, or the mmap reader's own chunking), so base64 output can still pad mid-stream across two calls even with the corrected chunk size.
- Verify.DoVerify: the manifest's lines are given already split. The model does not strip the trailing carriage return `bufio.Scanner` removes, and it reads every line. The source's scanner stops silently at a line over 64 KiB, and `rd.Err()` is never checked, so the records after such a line are never checked and cannot affect the exit status.
- Verify.DoVerify: opening the named manifest (ghash/verify.go:39-41) is I/O and is not modelled; its fatal message, whose format call also lacks an argument, is left out.
- Verify.RunExitCode: `Die` comes from a utility library that is not part of this model. The model takes its exit status to be 1.
- Ghash.Generate: the record writer never fails in the model. In the source, a failed `Fprintf` makes the writer goroutine return without closing the output (ghash/main.go:128-135). The producers then block once the channel's 16 slots are full, and the exit status never reflects the write error.
- Hexlify.CWrite: the underlying writer either takes everything or fails the call. How much text reached it before a failure, and the buffered writer's sticky error on later calls, are not modelled.
- Strings are sequences of Unicode runes, not bytes. A path or line holding invalid UTF-8 cannot be written down in the model; Go keeps such bytes in a string, and `strconv.Unquote` turns them into U+FFFD.
- Ghash.Generate: the records printed are the corrected quoting writer's (`Manifest.RecordLineQuoted`), not the raw `%x|%d|%s` of ghash/main.go:130; they differ only for a path that is empty, starts with `"`, ends in white space or holds a newline. The raw form is `Manifest.RecordLine`.
- Finddup.ShellCommands: the commands printed use the corrected quoting (`Finddup.Quote`), not the raw `'%s'` of finddup/finddup.go:105; they differ only for a path holding `'`.
- Finddup.GroupAllMembers: holds for the sequential walk the model assumes. If the walker runs callbacks concurrently, two files with one checksum both append to the same slice without a lock (finddup/finddup.go:84-85), and one of them can be lost; the walker is not part of this model, so this cannot be settled here.
- The worker count `min(len(args), 2·NumCPU)` (ghash/process.go:27-36) only sizes the worker pool, which is not modelled; nothing computed depends on it.
- Finddup.SumAll: which error the walker returns when several callbacks fail is the walker's business. The model reports the first failing file in walk order.

## Findings

| source | as written | input that shows it | evidently intended | confidence | as-written member | corrected member |
|---|---|---|---|---|---|---|
| ghash/verify.go:131 | the exit code is `1 & len(errs)` | a manifest with two failing lines exits 0 | exit 1 whenever any line failed | not executed | Verify.TwoFailuresExitZero | Verify.ExitCode |
| ghash/main.go:130 | the record writer prints the path raw, while `parseLine` unquotes a name starting with `"` and trims white space | a file named `"a"` is read back as `a` | the written manifest verifies for every path name | not executed | Manifest.QuotedPathRewritten | Manifest.RecordQuotedRoundTrip |
| hexlify/hexlify.go:343 | base64 chunks are `_BUFSZ` = 65536 bytes, not a multiple of three | a 65537-byte input pads the first chunk with `=` mid-stream | one base64 encoding of the whole input | not executed | Hexlify.ChunkedB64PadsMidStream | Hexlify.ChunkedIsWhole |
| finddup/finddup.go:103-105 | each path is placed between single quotes unescaped | the path `a'b` gives `rm -f 'a'b'`, which the shell does not read as `a'b` | a command that names exactly the file | not executed | Finddup.AsWrittenQuoteBreaks | Finddup.QuoteRoundTrip |

In each row, the rest of the model uses the corrected definition:

- `Verify.RunExitCode` uses `Verify.ExitCode`.
- `Ghash.Generate` writes `Manifest.RecordLineQuoted`.
- `Hexlify.FlexWrite` cuts chunks of `Hexlify.ChunkSize`.
- `Finddup.ShellCommands` uses `Finddup.Quote`.
