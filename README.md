# Streaming a torrent over HTTP: a Dafny model

The repository joins two things:
- a small HTTP/1.0 server (`httpd.cpp`) that serves one file, honouring a `Range: bytes=` header;
- a libtorrent event loop (`torrentd.cpp`) that downloads that file.

The model covers:
- **HTTP, reading:** the server's socket line reader (`SocketHelper`) and the request parser, including the `Range` header.
- **HTTP, responding:** the status line and headers.
- **Serving:** the registry of the ranges clients are currently reading, and the copy loop of `serveFile`, which sends as many bytes as `availableData` allows, at most 1024 per read.
- **torrentd:**
  - where the file sits among the pieces;
  - the vector of piece priorities, which favours ten MiB after every reader's cursor;
  - the `availableData` function, which tells the server how many bytes from an offset are present;
  - the peer figure of the status line;
  - the line parse of the IP blocklist.

Modules, one per concern:

| module | file | models |
|---|---|---|
| `Common` | common.dfy | `Range`, `long long` bounds, C's truncating division |
| `Text` | text.dfy | decimal `strtoll`, NUL-terminated strings, `strchr` |
| `LineReader` | linereader.dfy | `SocketHelper`: ring buffer, `read` in chunks, `getLine` |
| `Request` | request.dfy | `getCommand`, `getRequest`, `parseRange` |
| `Response` | response.dfy | status line, `Content-Length`, `Content-Range` |
| `Registry` | registry.dfy | `insertRange`, `deleteRange`, `getRanges` |
| `Serve` | serve.dfy | `serveFile`, `clientHandler` |
| `Layout` | layout.dfy | `nPieces`, `firstPiece`, `lastPiece` |
| `Priorities` | priorities.dfy | the priority vector |
| `Availability` | availability.dfy | the `availableData` lambda |
| `Peers` | peers.dfy | `nPeers` |
| `Blocklist` | blocklist.dfy | `load_blocklist` |

## How the model is built

**Socket stream.** The socket is the list of chunks successive `read` calls return. An empty chunk is a `read` that returned 0. `SocketHelper.Pending()` is what the program can still read, as a sequence of tokens: bytes, plus an end mark for each empty read. Each method of the class is proved against `ReadLine` and the functions beside it.

**Serving.** A file on disk is a byte sequence. The socket is the sequence of its answers to successive body writes: a write of `n` bytes takes the first `min(answer, n)` of them, and once the answers are used up every write takes none. A copy is recorded as a log of chunks: the cursor and file position each was read at, the bytes read, and the bytes the socket took. The client receives the taken part of each chunk, in order.

**What torrentd publishes.** `setFileInfos` publishes snapshots, given as a sequence with one snapshot for each time the serving loop wakes up. A snapshot holds the path flag, the size and `availableData`.

**Registry.** The registry is a class whose `ranges` field the methods reassign.

**Priorities.** The priority vector is an `array` filled by the three loops of the source, proved against `Priority`.

**The source's own behaviour is kept** where it looks accidental:
- A partial write still moves the cursor and the file position by the whole chunk read, so the client never gets the rest of that chunk. This is the Findings row for httpd.cpp:318-325: `Serve.ShortWriteGap` shows it, and `Serve.ServeChunksFixed` is the corrected loop.
- `lseek` to a negative offset fails and leaves the file position at 0: `Serve.SeekPos` states it, and `Serve.SuffixRangeAsWritten` follows a `bytes=-N` request through.
- A request line needs at least three blank-separated tokens (httpd.cpp:102), so `GET /path` without a version is refused: `Request.ParseCommand` states it.

## Model

| member | source | states |
|---|---|---|
| LineReader.ReadLineStep | httpd.cpp:78-88 | one step of `getLine`: an empty read ends the line; CR LF ends it and is consumed; any other byte, a lone CR included, joins the line |
| LineReader.ReadLine | httpd.cpp:76-89 | `getLine` never reads past the stream, and on a non-empty stream always consumes at least one token, so the loops built on it terminate |
| LineReader.ReadLineToCRLF | httpd.cpp:76-89 | on bytes with no empty read between them, the line is exactly the bytes before the first CR LF; that CR LF is consumed and everything after it is left unread |
| LineReader.ReadLineThrough | httpd.cpp:76-89 | bytes without CR LF, not ending in CR, are a prefix of the line read from them and what follows |
| LineReader.ReadLineAtEnd | httpd.cpp:79-81 | when the peer closes before any CR LF, the line is everything received and the stream is exhausted |
| LineReader.ReadTextLine | httpd.cpp:76-89 | a CR-free line sent with its CR LF is read back exactly, and the rest of the stream is left alone |
| LineReader.CarriageReturnBeforeEmptyRead | httpd.cpp:83-87 | a CR whose look-ahead hits an empty read stays in the line, and the line goes on after that read |
| LineReader.ReadSplit | httpd.cpp:72-73 | a `read` that takes the first `got` bytes of the next chunk keeps the stream's content: those bytes then the rest of the chunk; `got` is 0 exactly when the chunk is empty |
| LineReader.SocketHelper.constructor | httpd.cpp:45 | an empty ring buffer of 1024 bytes; the pending stream is the whole input |
| LineReader.SocketHelper.Pop | httpd.cpp:46-52 | with the buffer empty nothing changes; otherwise one byte leaves the pending stream and the ring index advances modulo 1024 |
| LineReader.SocketHelper.ReadMore | httpd.cpp:68-74 | with the buffer empty, one `read` refills it from the current position, and the buffer stays empty only at an empty read; the pending stream loses only the empty read it used up |
| LineReader.SocketHelper.Read | httpd.cpp:72 | `read` into the free tail of the buffer moves the next chunk's bytes into the buffer, at most the space asked for, and returns 0 exactly at an empty read |
| LineReader.SocketHelper.Next | httpd.cpp:60-66 | gives the next byte without consuming it, or -1 exactly when the buffer stays empty |
| LineReader.SocketHelper.Getc | httpd.cpp:54-58 | gives the next byte (or -1) and consumes it |
| LineReader.SocketHelper.GetLine | httpd.cpp:76-89 | the line returned and the stream left behind are those of `ReadLine` on the stream before the call |
| Text.StrToLL | httpd.cpp:151 | `strtoll` on a decimal prefix: it consumes nothing exactly when no digit follows the optional sign; otherwise it stops before a non-digit; the value is clamped to the `long long` range |
| Text.StrToLLDecimal | httpd.cpp:151 | every `long long` printed in decimal and followed by a non-digit is read back exactly, with its length consumed |
| Text.ValueOfDigits | httpd.cpp:233 | decimal printing of a natural number reads back to the same number |
| Text.CString | httpd.cpp:122-123 | the string a C function sees is the longest NUL-free prefix |
| Text.IndexOf | httpd.cpp:124 | `strchr` finds the first occurrence of the character |
| Request.Split | httpd.cpp:101 | splitting on blanks gives one more token than there are blanks, and no token holds a blank |
| Request.SplitJoin | httpd.cpp:101 | splitting blank-free tokens joined by one blank each, a space or a tab, gives the tokens back |
| Request.CommandOfTokens | httpd.cpp:96-111 | a request line of blank-free tokens separated by single spaces or tabs is an error below three tokens, and otherwise gives the first token as `method` and the second as `file` |
| Request.ParseCommand | httpd.cpp:96-111 | an error exactly when the line has fewer than three tokens; otherwise exactly `method` and `file`, which are the first and second tokens |
| Request.CommandOf | httpd.cpp:107-108 | `GET /path HTTP/1.0`, with each blank a space or a tab, parses to that method and that path |
| Request.HeaderLine | httpd.cpp:122-134 | a line without a `:` before its first NUL is not a header |
| Request.HeaderLineOf | httpd.cpp:130-134 | `key:` and one character, then the value: the key is the text before the colon and the value starts after that character |
| Request.HeaderLineEmptyValue | httpd.cpp:132-133 | `key:` at the end of the line has an empty value |
| Request.ReadHeaders | httpd.cpp:117-136 | the header loop consumes part of the stream and never loses a field it was given |
| Request.ReadHeadersStep | httpd.cpp:118-134 | an empty line ends the headers; a line that is not a header adds the error and stops; a header is added and the loop goes on |
| Request.ReadHeadersText | httpd.cpp:117-136 | plain header lines sent with CR LF and ended by an empty line are all read back as fields, and the rest of the stream is untouched |
| Request.ReadRequestText | httpd.cpp:113-138 | a well-formed request yields the method, the path and every header, and leaves the body unread |
| Request.ReadRequestLines | httpd.cpp:113-138 | a valid request line followed by headers gives the command's fields updated by every header |
| Request.ReadRequest | httpd.cpp:113-138 | consumes at least one token of a non-empty stream; the result is an error or holds `method` and `file`; a bad request line gives exactly the `Invalid protocol` error and no header is read |
| Request.HeaderWithoutColon | httpd.cpp:125-128 | a header line without a colon makes the request an error, and nothing after that line is read |
| Request.GetCommand | httpd.cpp:96-111 | reads one line from the socket and returns `ParseCommand` of it |
| Request.GetRequest | httpd.cpp:113-138 | the fields returned and the stream left behind are those of `ReadRequest` |
| Request.ParseRange | httpd.cpp:140-162 | a value without the `bytes=` prefix gives the whole file, {0, open}; both ends are always in the `long long` range |
| Request.ParseRangeBounded | httpd.cpp:150-161 | `bytes=a-b` gives {a, b} for every pair of `long long` values |
| Request.ParseRangeOpen | httpd.cpp:150-159 | `bytes=a-` followed by anything `strtoll` converts nothing of gives {a, open} |
| Request.ParseRangeNoDash | httpd.cpp:150-154 | `bytes=a` followed by nothing, or by a character that is neither a digit nor `-`, gives {a, open} |
| Request.ParseRangeAbsent | httpd.cpp:144-145 | a missing Range header gives the whole file |
| Response.StatusLine | httpd.cpp:180-183 | 206 Partial Content exactly when the start is not 0, a negative start included; 200 OK exactly when it is 0 |
| Response.ContentLength | httpd.cpp:228-232 | for an open range, the bytes from the start to the end of the file; for a bounded range, the end itself |
| Response.ContentRange | httpd.cpp:239-252 | written exactly when the start is not 0; its numbers are the start, the end (the file size when the end is 0) and the Content-Length |
| Response.Head | httpd.cpp:180-188 | the head begins with the status line and CR LF and ends with the empty line that closes it |
| Response.HeadReadBack | httpd.cpp:180-188 | the head written parses back, with the line reader and header parser above, to the status line, the Content-Length and, exactly for a range not starting at 0, the Content-Range |
| Response.HeadFieldsOf | httpd.cpp:184-187 | `Server`, `Connection`, `Accept-Ranges` and `Content-Length` are always sent; `Content-Range` is sent exactly when the range start is not 0, a negative start included |
| Response.StatusOfRange | httpd.cpp:180-183 | 206 Partial Content exactly when the parsed range start is not 0, a negative start included |
| Response.OpenRangeHead | httpd.cpp:229-250 | for `bytes=a-`, the length is the size minus `a`, and Content-Range is `a--1/(size-a)` |
| Response.BoundedRangeHead | httpd.cpp:229-250 | for `bytes=a-b`, the length is `b`, and Content-Range is `a-b/b` |
| Response.ContentLengthFixed | httpd.cpp:227-234 | the count of bytes from the start to the last byte served, inclusive; for an open range it agrees with the source |
| Response.ContentRangeFixed | httpd.cpp:238-253 | the first and last byte of the range span exactly the Content-Length |
| Response.FixedHeadersAgree | httpd.cpp:227-253 | for a range inside the file, Content-Range is `first-last/size` with `first <= last < size`, and the length fits in the file |
| Response.OpenRangeMiddleField | httpd.cpp:244-247 | `bytes=500000-` of a 1000000-byte file is answered `500000--1/500000`, where `500000-999999/1000000` is meant |
| Response.BoundedRangeLength | httpd.cpp:229-232 | `bytes=100-199` is answered with Content-Length 199, where 100 is meant |
| Registry.RemoveFirst | httpd.cpp:261-270 | removing a present range shortens the list by one; removing an absent one changes nothing |
| Registry.RemoveFirstMultiset | httpd.cpp:261-270 | exactly one copy of the range leaves the registry, the others stay |
| Registry.RemoveFirstAt | httpd.cpp:263-267 | the copy removed is the earliest, and the elements before and after it keep their order |
| Registry.RemoveFirstOfTwo | httpd.cpp:263-267 | of two equal entries, only the first is removed |
| Registry.RemoveAfterAppend | httpd.cpp:256-270 | `insertRange` followed by `deleteRange` of the same range leaves the same ranges, and the same list when the range was absent |
| Registry.RangeRegistry.constructor | httpd.cpp:202 | the registry starts empty |
| Registry.RangeRegistry.Insert | httpd.cpp:256-259 | appends the range |
| Registry.RangeRegistry.Delete | httpd.cpp:261-270 | removes the first equal range, so exactly one copy leaves the multiset |
| Registry.RangeRegistry.Snapshot | httpd.cpp:272-276 | returns the ranges as they are |
| Serve.Int32 | httpd.cpp:307 | the `int` conversion keeps values in range and is congruent to its input modulo 2^32 |
| Serve.ChunkLength | httpd.cpp:307-311 | each read asks for 1 to 1024 bytes, or stops at exactly a zero answer; a negative answer becomes 1024 |
| Serve.SeekPos | httpd.cpp:299 | the file position is the range start when it is not negative, and 0 when `lseek` refuses a negative one |
| Serve.ServeChunks | httpd.cpp:305-326 | each chunk is read where the previous one ended, at the matching file position, as much as the lambda allowed cut to one buffer and to the rest of the file; the socket takes of it as much as its next answer allows, and the client receives exactly those parts in order; cursor and file position move by the whole read; the loop ends without failure at the range end or a zero answer, and fails only at the end of the file or when the socket takes nothing; a copy from past the end reads nothing; a bounded range is overrun by less than one buffer |
| Serve.CopiedStep | httpd.cpp:318-325 | one read and write, a partial one included, extends the copy record: the chunk joins the log, the client gets its written part, and the cursor and the file position move by the whole read |
| Serve.WholeContiguous | httpd.cpp:305-326 | when the socket took every chunk whole, the client received the file from the start position on, exactly as many bytes as the cursor moved |
| Serve.ShortWriteGap | httpd.cpp:318-325 | 2048 bytes available and a socket that takes 500 bytes and then 1024: the copy reaches 2048 without failure, but the client gets bytes 0 to 499 followed by bytes 1024 to 2047 |
| Serve.ServeChunksFixed | httpd.cpp:305-326 | advancing by the bytes the socket took, the client receives the file from the start position on without a gap, as many bytes as the cursor moved, whatever the socket answers; like the source, it ends without failure only at the range end or a zero answer, and fails only before both |
| Serve.ServeFile | httpd.cpp:278-366 | the cursor never goes before the range start; over all passes, the chunks are read one after another from the seek position, each at most one buffer and inside the file, and the client receives the written part of each; when every write was whole, that is the file from the seek position on, as many bytes as the cursor moved; a bounded range is overrun by less than one buffer; when the loop ends the registry holds exactly the ranges it held before; while it waits, exactly one more entry, at the current cursor |
| Serve.MoveEntry | httpd.cpp:327-329 | the registry entry moves from the old cursor to the new one; the other entries are unchanged |
| Serve.PassReplaces | httpd.cpp:327-329 | delete-then-insert swaps one entry and keeps the registry's size |
| Serve.CopyPass | httpd.cpp:296-326 | the file is opened exactly once, when a path first appears; without a path nothing moves |
| Serve.ClientHandler | httpd.cpp:166-192 | a malformed request gets `Protocol fail...` and leaves the registry untouched; a good one gets the head for its Range, then the written part of each chunk, the chunks read one after another from the seek position (the range start, or 0 for a negative start); without a short write that is the file from the seek position on; the registry is unchanged once serving ends |
| Serve.Respond | httpd.cpp:178-190 | the output is the head followed by the written parts of chunks read one after another from the seek position; without a short write, the file from the seek position on |
| Serve.SuffixRangeAsWritten | httpd.cpp:140-253 | `bytes=-N` parses to {-N, open}: the answer is 206 with Content-Length N more than the file size, Content-Range `-N--1/(size+N)`, and the body from position 0 |
| Layout.ComputeLayout | torrentd.cpp:259-267 | `firstPiece` holds the file's first byte; `lastPiece` holds the byte after the file; `nPieces` is the file size in pieces, rounded up |
| Layout.LastPieceOfFile | torrentd.cpp:267 | the piece holding the file's last byte |
| Layout.LastPieceVersusFile | torrentd.cpp:267 | `lastPiece` is the piece of the last byte, or the piece after it exactly when the file ends on a piece boundary |
| Layout.LastFileOfTorrent | torrentd.cpp:260-267 | for the torrent's last file, `lastPiece` is a valid piece exactly when the file does not end on a boundary |
| Layout.AlignedLastPiece | torrentd.cpp:267 | a two-piece file of 32768 bytes gets `lastPiece` 2, where its last byte is in piece 1 |
| Layout.PieceOf | torrentd.cpp:303 | the piece of a file byte, as `pieceN` of a cursor and `start` of the lambda (line 355) compute it: for a byte at or after the torrent's start, the piece whose bytes hold it; before the start, a piece at most 0 |
| Priorities.WindowWidth | torrentd.cpp:300-302 | ten MiB measured in whole pieces, at least 1 |
| Priorities.BasePriority | torrentd.cpp:281-291 | 7 exactly for a valid `lastPiece`; 0 exactly outside the file's pieces; 1 for the rest of the file |
| Priorities.WindowCoversTenMiB | torrentd.cpp:300-302 | the window is the number of whole pieces that fit in ten MiB, or one piece when a piece is larger |
| Priorities.Priority | torrentd.cpp:275-313 | every priority is 0, 1 or 7 |
| Priorities.ComputePriorities | torrentd.cpp:275-313 | a vector of `nTotalPieces` entries, each equal to `Priority` |
| Priorities.BoostedSnoc | torrentd.cpp:297-313 | after one more range, a piece is boosted exactly when it was already boosted or lies in the new range's window |
| Priorities.OrderIndependent | torrentd.cpp:297-313 | the vector depends only on the set of cursors, not on their order or repetitions |
| Priorities.OutsideFileZero | torrentd.cpp:281-313 | pieces outside the file are not downloaded, whatever the cursors in the file are |
| Priorities.FilePiecesWanted | torrentd.cpp:281-291 | every piece of the file that the torrent has gets at least 1, and `lastPiece` gets 7 when the torrent has that piece |
| Priorities.WindowsTop | torrentd.cpp:305-312 | every piece in a cursor's window gets 7; 7 means a window or `lastPiece` |
| Priorities.WindowBytes | torrentd.cpp:300-312 | a piece lies in a cursor's window exactly when it ends after the cursor's byte, begins at most one window width less one piece after it, and is not past `lastPiece` |
| Priorities.NoRanges | torrentd.cpp:275-291 | with no reader the vector is the base one |
| Priorities.AlignedFileWindow | torrentd.cpp:287-311 | a cursor in the last piece of a file ending on a boundary makes the loop write past the vector |
| Priorities.CursorPieceFrom | torrentd.cpp:303 | a cursor inside the file maps to a piece of the file or after it |
| Availability.FirstCredit | torrentd.cpp:360 | the start piece is credited 1 to `pieceLength` bytes, a whole piece when the file starts on a boundary |
| Availability.Scan | torrentd.cpp:362-377 | the credit only grows, except when it becomes the rest of the file at `lastPiece`; it grows only past a downloaded piece |
| Availability.Available | torrentd.cpp:354-382 | 0 when the cursor's piece is missing; never more than asked for |
| Availability.AvailableData | torrentd.cpp:354-382 | the loop computes `Available` |
| Availability.StopsAtFirstMissing | torrentd.cpp:362-381 | the answer is the bytes credited up to the first missing piece, at most the size asked for |
| Availability.ReachesLastPiece | torrentd.cpp:370-373 | when the scan reaches a downloaded `lastPiece`, the answer is the rest of the file, at most the size asked for |
| Availability.AvailableFixed | torrentd.cpp:354-382 | with the first piece credited from the offset and cut at the end of the file, 0 when that piece is missing, and never more than asked for |
| Availability.AvailableFixedSound | torrentd.cpp:354-382 | every byte the corrected answer allows lies in a downloaded piece |
| Availability.AvailableFixedWithinFile | torrentd.cpp:354-382 | the corrected answer never reaches past the end of the file |
| Availability.CreditIgnoresOffset | torrentd.cpp:360 | offset 16000 of a file whose piece 1 is missing gets 1024 bytes although bytes from 16384 on are missing |
| Availability.CreditPastEndOfFile | torrentd.cpp:360 | offset 29000 of a 30000-byte file ending in its start piece gets 1024 bytes, where only 1000 remain; the corrected answer is 1000 |
| Peers.Classify | torrentd.cpp:322-329 | connected exactly when there are peers; otherwise no tracker, no current tracker, or none |
| Peers.PeerCode | torrentd.cpp:322-329 | the count when there are peers; otherwise a sentinel from -2 to 0 |
| Peers.Decode | torrentd.cpp:322-333 | a positive figure is a peer count; any other figure says why there are no peers |
| Peers.DecodePeerCode | torrentd.cpp:322-329 | decoding the printed figure gives back the situation it came from |
| Peers.PeerCodeInjective | torrentd.cpp:322-329 | different situations print different figures |
| Blocklist.LeadingSpaces | torrentd.cpp:162 | `%u` skips exactly the leading white space |
| Blocklist.ToUnsigned | torrentd.cpp:161-162 | the stored value fits in 32 bits and equals the magnitude for an unsigned number that fits |
| Blocklist.ScanUnsigned | torrentd.cpp:162 | a `%u` conversion fails exactly when no digit follows the white space and sign; on success it stops before a non-digit |
| Blocklist.ScanF | torrentd.cpp:162 | `sscanf` assigns at most one value per directive, each fitting in 32 bits |
| Blocklist.ScanDigits | torrentd.cpp:162 | a decimal number followed by a non-digit converts to itself |
| Blocklist.ScanRender | torrentd.cpp:162 | scanning the text a separated format prints gives back the numbers |
| Blocklist.RuleFormatSeparated | torrentd.cpp:162 | `%u.%u.%u.%u-%u.%u.%u.%u` reads back unambiguously |
| Blocklist.RenderRule | torrentd.cpp:162 | the format prints eight numbers as a range of two dotted addresses |
| Blocklist.Pack | torrentd.cpp:165-166 | an address packs into 32 bits |
| Blocklist.PackOctets | torrentd.cpp:165-166 | four octets pack without wrapping and unpack to themselves |
| Blocklist.OctetCarries | torrentd.cpp:165 | a number above 255 carries into the octet before it: `1.300.0.0` packs as `2.44.0.0` |
| Blocklist.RuleOf | torrentd.cpp:157-167 | a line gives a rule only if it has a `:` before its first NUL, with both addresses in 32 bits |
| Blocklist.RuleLine | torrentd.cpp:157-167 | `name:a.b.c.d-e.f.g.h` gives the rule from the packed first address to the packed last one |
| Blocklist.RuleOfFields | torrentd.cpp:157-166 | the rule is read from right after the first `:` |
| Blocklist.NoRule | torrentd.cpp:157-163 | a line without `:` gives no rule, and neither does one with fewer than eight conversions |
| Blocklist.RulesOf | torrentd.cpp:156-168 | a file gives at most one rule per line |
| Blocklist.RulesOfAppend | torrentd.cpp:156-168 | the rules of the whole file are the rules of its parts, in order |
| Blocklist.LoadBlocklist | torrentd.cpp:147-172 | the loop adds the rules of the lines in their order |
| Common.CDiv | torrentd.cpp:355 | C's `/` on `long long`: the Euclidean quotient for a non-negative dividend, and the negated quotient of the magnitude for a negative one |
| Common.CDivOdd | torrentd.cpp:355 | C division agrees with Euclidean division on a non-negative dividend and is symmetric under negation, so it rounds toward 0 |
| Common.CDivNegative | torrentd.cpp:355 | a negative dividend rounds up: `-7 / 2` is -3, where the Euclidean quotient is -4 |

## Left out

- Sockets, `accept`, threads, the mutexes and the condition variable are not modelled. The wait on the condition variable becomes the sequence of wake-ups a serving loop sees. Each wake-up is one probe result plus one `setFileInfos` snapshot, so concurrent interleavings are not modelled.
- giveContentLength's wait for the file info (httpd.cpp:217-224) is not modelled. The file size is a parameter of `ClientHandler`.
- `open` failing and `perror` are not modelled. In the model the file always opens.
- `read` on the socket and on the file never returns -1 in the model, except through the `Failed` probe. Writes of the head lines never fail in the model: the socket's answers apply to the body writes of `serveFile` only, and an answer of 0 stands for both 0 and -1, which the loop treats alike.
- Logging to stderr/stdout and `dumpCurrentRanges` are output only, so they are not modelled.
- Text.StrToLL: decimal only. The source calls `strtoll` with base 0, which also reads `0x` hexadecimal and leading-`0` octal and skips leading white space; none of that is modelled.
- Blocklist.ToUnsigned: assumes glibc behaviour: `%u` converts like `strtoul` and truncates to `unsigned int`. `sscanf`'s EOF return is not distinguished from a short count, because both give no rule.
- Blocklist.LoadBlocklist: the lines are given as a sequence. Two source behaviours are not modelled: `fopen("blocklist")` ignores its path argument, and `add_rule` merges ranges in libtorrent's `ip_filter`. `set_ip_filter` is not modelled either.
- libtorrent itself is not modelled: sessions, alerts, `prioritize_pieces`, adding the torrent, and the other fields of the status line.
- The dead computation of `earliest` (torrentd.cpp:296-299, 316-317) is not modelled, because nothing reads it.
- Priorities.ComputePriorities: requires every window to lie inside the vector. If a window does not, the source writes past the end of a `std::vector`, which is undefined behaviour; `AlignedFileWindow` shows an input where that happens.
- Layout.PieceOf: the truncation of the `long long` quotient to `int` in `pieceN` and `start` is not modelled.
- Layout.ComputeLayout: does not model the truncation of `nPieces`, `firstPiece` and `lastPiece` to `int` (torrentd.cpp:214-219); the model keeps them unbounded.
- Suffix ranges `bytes=-N` (section 2.1 of RFC 7233) are not given their meaning by the source: it reads them as a negative start. The model follows the code; `Serve.SuffixRangeAsWritten` states the answer, and the pieces such a cursor favours are not covered by `OutsideFileZero`, which speaks of cursors at or after the file's start.
- Availability.Available: requires every bitfield lookup to be in range (`ReadsInRange`). The source does not check them.
- Serve.ServeFile: does not model `long long` overflow of the cursor. The sequence of wake-ups is finite, so a connection left waiting is reported through `waiting`.
- LineReader.SocketHelper.GetLine: a byte becomes the `char` of the same code, from 0 to 255. The Android `getline` replacement is not modelled.

## Findings

For each row, the as-written member models the code and shows the discrepancy, and the corrected member states the intended behaviour. The rest of the model follows the code as written, so the as-written value is also what the members that use it see.

| source | as written | input that shows it | evidently intended | confidence | as-written member | corrected member |
|---|---|---|---|---|---|---|
| torrentd.cpp:267 | `lastPiece = (offset + fileSize) / pieceLength`: the piece of the byte just after the file | a 32768-byte file at offset 0, 16384-byte pieces, 2 pieces: `lastPiece` is 2, past the torrent | the piece of the last byte, `(offset + fileSize - 1) / pieceLength`, here 1 | not executed | Layout.AlignedLastPiece | Layout.LastPieceOfFile |
| torrentd.cpp:360 | the start piece is credited `pieceLength - offset % pieceLength`, whatever `off` is | 16384-byte pieces, a 30000-byte file at offset 0, piece 1 missing, `off` 16000, size 1024: the answer is 1024 | credit from `off` to the end of its piece, here 384 | not executed | Availability.CreditIgnoresOffset | Availability.AvailableFixed |
| httpd.cpp:244-247 | Content-Range prints the range's own end, -1 for an open range, and the length as the total | `bytes=500000-` of a 1000000-byte file: `500000--1/500000` | `500000-999999/1000000` | not executed | Response.OpenRangeMiddleField | Response.ContentRangeFixed |
| httpd.cpp:229-232 | Content-Length of a bounded range is its end | `bytes=100-199` of a 1000-byte file: 199 | 100: the inclusive count `end - start + 1` of section 2.1 of RFC 7233, the reading `ContentLengthFixed` takes because `bytes=a-b` names its last byte and the corrected Content-Range prints that byte. The exclusive count `end - start`, 99, would match `serveFile`'s loop bound `currentOffset < range.second` (httpd.cpp:305), which the model keeps as written | not executed | Response.BoundedRangeLength | Response.ContentLengthFixed |
| httpd.cpp:318-325 | after a partial write the cursor and the file position still advance by `res`, the bytes read, and the unwritten rest of the chunk is never sent | 2048 bytes available from offset 0, a socket that takes 500 bytes and then 1024: the client gets bytes 0-499 then 1024-2047, and the loop ends as if all 2048 were sent | advance by `res2`, the bytes written, and read the rest again | not executed | Serve.ShortWriteGap | Serve.ServeChunksFixed |
| torrentd.cpp:360 | the start piece is credited up to the end of the piece, even when the file ends before it | 16384-byte pieces, a 30000-byte file at offset 0, both pieces present, `off` 29000, size 1024: the answer is 1024 | credit up to the end of the file, here 1000 | not executed | Availability.CreditPastEndOfFile | Availability.AvailableFixedWithinFile |
