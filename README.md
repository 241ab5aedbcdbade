# libpixelflut in Dafny

libpixelflut is a small C client library for the Pixelflut protocol. Pixelflut
is a line-based text protocol for a shared canvas:

- `PX x y rrggbb\n` (or `rrggbbaa`) sets a pixel;
- `PX x y\n` asks for a pixel's colour, and the server answers `PX x y rrggbb`;
- `SIZE\n` asks for the canvas size, and the server answers `SIZE w h`.

The library keeps a connection (`struct pf_conn`: a socket descriptor and two
pixel counters). It offers single-pixel operations (`pf_put_rgb`,
`pf_put_rgba`, `pf_get`, `pf_get_size`) and buffered bulk operations
(`pf_put_rgb_many`, `pf_put_rgba_many`, `pf_get_many`) that work through a
buffer the caller owns. Replies are framed by a newline scanner
(`line_advance`) that fails once it holds more than `PF_MIN_BUFFER_SIZE` (32)
bytes with no newline among them. A longer line still gets through when
one read brings it together with its newline, so whether a line of more
than 32 bytes is accepted depends on how the peer's bytes are chunked;
that is why chunking independence is proved for lines of at most 32 bytes.
Every failure after the argument checks closes the connection, and the
counters move only on success.

The model has one module per concern:

- `Types` (`types.dfy`): the vocabulary of `pixelflut.h`:
  - `enum pf_result` as `PfResult`, with its integer codes;
  - `struct pixel` as `Pixel`;
  - `PF_MIN_BUFFER_SIZE`;
  - `pf_error_msg` as `ErrorMsg`.
- `Wire` (`wire.dfy`): the formatting and parsing as pure functions:
  - the `sprintf` formats of the three commands;
  - the `sscanf` formats of the two replies;
  - the bound and echo checks applied to replies;
  - the port check of `pf_connect_raw`.
- `Env` (`env.dfy`): the peer behind the socket, as environment state:
  - the bytes the peer will send;
  - a script saying how each write(2) and read(2) call behaves (error, short transfer, zero);
  - a ghost log of every byte written;
  - a ghost record with one mark per byte read: how many bytes had been written when read(2) returned it.
- `Framing` (`framing.dfy`): reference definitions, as functions of the peer's state:
  - `write_all`, `line_advance` and `get_single_line`;
  - the reply loop of `pf_get_many_recv`;
  - their properties: conservation of bytes, independence from chunking, the anti-stall bound, colouring.
- `Buffers` (`buffers.dfy`): `struct pf_buf` as a class over a caller-owned array:
  - `BUF_VALID` is its invariant;
  - the imperative `write_all`, `do_flush`, `add_to_buffer`, `line_advance` and `get_single_line` are proved against the `Framing` functions.
- `Batching` (`batching.dfy`): how `pf_get_many` cuts `n` requests into batches of `batch_limit` requests.
- `Pixelflut` (`pixelflut.dfy`): `struct pf_conn` as the class `Conn`, with every public operation as a method:
  - the bulk loops keep the source's indices, and `pf_get_many_recv` writes the caller's pixel array in place;
  - `pf_get_many` uses one storage array for both the write buffer and the read buffer, as the code does.
- `Scenarios` (`scenarios.dfy`): concrete exchanges, computed from the definitions.

## Model

| member | source | states |
|---|---|---|
| Types.WithColour | pixelflut.c:294-297 | after a read, the pixel keeps its coordinates, takes the server's three channels, and has alpha 0xff |
| Types.Code | pixelflut.h:11-41 | every result code is below 16, and the code is 0 exactly for `PF_OK`, so testing a result for nonzero tests for an error |
| Types.FromCode | pixelflut.h:11-41 | an integer names an enumerator exactly when it lies in 0..15, and then that enumerator has this code |
| Types.CodeRoundTrip | pixelflut.h:11-41 | decoding the code of any result gives that result back |
| Types.Message | pixelflut.c:308-326 | the description is "OK" exactly for `PF_OK` |
| Types.ErrorMsg | pixelflut.c:307-329 | `pf_error_msg` is total: "OK" exactly for code 0, and "?" exactly for integers that name no enumerator |
| Wire.DigitValue | pixelflut.c:132-134 | a decimal digit's value is below 10 |
| Wire.DigitChar | pixelflut.c:132-134 | the digit written for a value below 10 is a decimal digit of that value |
| Wire.Decimal | pixelflut.c:132-134 | `%d` of a natural number is a non-empty run of decimal digits |
| Wire.DecimalRoundTrip | pixelflut.c:285 | reading back the decimal text of any number gives the number |
| Wire.DecimalWidth | pixelflut.h:71-78 | a number below 10^k is written in at most k digits |
| Wire.CoordinateWidth | pixelflut.h:71-78 | a 16-bit coordinate is written in 1 to 5 digits |
| Wire.DigitRun | pixelflut.c:285 | the length of the run of leading digits is at most the input's, and every byte in it is a digit |
| Wire.DigitRunOfDigits | pixelflut.c:285 | the digit run of digits followed by a non-digit is exactly those digits |
| Wire.ParseUnsignedDecimal | pixelflut.c:285 | `%u` over the decimal text of n, not followed by a digit, reads n and leaves the rest |
| Wire.HexValue | pixelflut.c:285 | a hex digit's value is below 16 |
| Wire.HexChar | pixelflut.c:132-134 | the digit written for a value below 16 is a hex digit of that value, and it is `0`-`9` or lowercase `a`-`f` |
| Wire.Hex2 | pixelflut.c:132-134 | `%02x` of a channel is exactly two bytes, each `0`-`9` or lowercase `a`-`f` |
| Wire.Hex2RoundTrip | pixelflut.c:285 | two hex digits of any channel read back as that channel, leaving the rest |
| Wire.Literal | pixelflut.c:285 | matching literal text succeeds exactly when the input starts with it, and leaves the rest |
| Wire.LiteralPrefix | pixelflut.c:285 | literal text followed by anything matches, and leaves what follows |
| Wire.Channels | pixelflut.c:132-134 | the channel field is six bytes, or eight with alpha |
| Wire.DigitsAreNotNewlines | pixelflut.c:132-134 | decimal text contains no newline |
| Wire.PutCommandFits | pixelflut.c:131-135 | every set command is one newline-terminated line of at most 24 bytes, so it fits the 32-byte print buffer and any buffer that passed the size check |
| Wire.GetCommandFits | pixelflut.c:276 | every read request is one newline-terminated line of at most 15 bytes |
| Wire.PutCommandIsReplyLine | pixelflut.c:134 | without alpha, the set command is the server's reply line for that pixel, followed by a newline |
| Wire.PutStreamSnoc | pixelflut.c:387-398 | the commands for one more pixel are the earlier commands followed by its command |
| Wire.RequestStreamSnoc | pixelflut.c:491-496 | the requests for one more pixel are the earlier requests followed by its request |
| Wire.PutStreamPrefix | pixelflut.c:387-398 | the commands for the first k pixels are a prefix of those for all pixels |
| Wire.RequestStreamPrefix | pixelflut.c:491-496 | the requests for the first k pixels are a prefix of those for all pixels |
| Wire.PutStreamBound | pixelflut.c:387-398 | the commands for n pixels take at most 24·n bytes |
| Wire.RequestStreamCoordinates | pixelflut.h:134 | pixel arrays with equal coordinates give the same requests, whatever their colours |
| Wire.JoinLinesAppend | pixelflut.c:440-459 | the lines of two batches, joined, are the joined lines of each batch in turn |
| Wire.JoinLinesSnoc | pixelflut.c:440-459 | one more line adds that line and its newline at the end |
| Wire.Scan | pixelflut.c:285 | a successful scan stores exactly as many values as the format has conversions |
| Wire.Truncate8 | pixelflut.c:294-296 | a value below 256 is stored unchanged in its byte |
| Wire.CheckSizeReply | pixelflut.c:247-251 | a size reply is accepted exactly when it scans to two fields that are both within 16 bits, and then yields them; any other line is a protocol error |
| Wire.CheckPxReply | pixelflut.c:285-293 | an accepted reply scans to the requested coordinates and the colour returned, with y within the bound; any failure is a protocol error or a coordinate mismatch; it succeeds exactly when the reply scans, echoes the requested coordinates and the requested y is within the bound; it is a mismatch exactly when a well-formed reply within the bounds names other coordinates |
| Wire.ScanText | pixelflut.c:285 | literal text that is present is scanned and leaves the rest |
| Wire.ScanUnsigned | pixelflut.c:285 | a `%u` of decimal text not followed by a digit stores its value |
| Wire.ScanHexPair | pixelflut.c:285 | a `%02x` of two hex digits stores the channel |
| Wire.PxReplyRoundTrip | pixelflut.c:285 | the canonical reply `PX x y rrggbb` scans back to x, y and the colour, whatever follows |
| Wire.ParsePxFields | pixelflut.c:285 | a line whose scan stores five values parses to the reply of those values |
| Wire.SizeReplyRoundTrip | pixelflut.c:247 | the canonical reply `SIZE w h` scans back to w and h when nothing after it extends h |
| Wire.CheckEchoedReply | pixelflut.c:285-293 | a canonical reply within the bounds is accepted exactly when it echoes the requested coordinates, and then yields its colour; otherwise the result is a coordinate mismatch |
| Wire.GetRejectsEchoedLargeY | pixelflut.c:286 | with `pf_get`'s bound, a reply that correctly echoes a requested y above 0xff is rejected as a protocol error |
| Wire.GetRejectsEchoOf300 | pixelflut.c:286 | a request for (3, 300) answered by `PX 3 300 00ff00` is a protocol error in `pf_get` |
| Wire.RecvAcceptsEchoedReply | pixelflut.c:448-453 | with the 16-bit bound, every reply that correctly echoes 16-bit coordinates is accepted with its colour |
| Wire.PutThenGetRoundTrip | pixelflut.c:134 | a server that answers a read with the client's own set command, minus its newline, gives back the pixel's colour |
| Wire.CheckCanonicalSizeReply | pixelflut.c:247-251 | a canonical size reply with 16-bit fields is accepted with those fields |
| Wire.ParsePort | pixelflut.c:39-43 | an accepted port string consists only of digits and gives their decimal value; a string of digits whose value exceeds 0xffff is refused |
| Wire.PortRoundTrip | pixelflut.c:39-43 | the decimal text of every 16-bit port is accepted as that port |
| Wire.PortRejectsLarge | pixelflut.c:39-43 | the decimal text of every number above 0xffff is refused |
| Env.WriteCall | pixelflut.c:80-90 | a write(2) returns -1, or at most the requested count |
| Env.ReadCall | pixelflut.c:93-103 | a read(2) returns -1 and stores nothing, or stores exactly as many bytes as it returns, at most the count; the bytes it stores come off the front of the peer's stream |
| Env.ReliableReadProgresses | pixelflut.c:200-206 | against a reliable peer with bytes left, a read of a non-empty range returns data, and the peer stays reliable |
| Env.Socket.Write | pixelflut.c:80-90 | the bytes the call takes are appended to the log of bytes sent; nothing else changes |
| Env.Socket.Read | pixelflut.c:93-103 | the bytes read land at the given offset, and the rest of the array is unchanged; the record of reads gains one mark per byte taken, each the number of bytes written so far |
| Env.Socket.Close | pixelflut.c:16 | the descriptor is released; the peer's state is unchanged |
| Framing.Transmit | pixelflut.c:107-120 | `PF_OK` exactly when every byte was taken; otherwise `PF_SYS_WRITE` or `PF_SYS_WRITE_RETURNED_ZERO`, having taken fewer bytes |
| Framing.TransmitPass | pixelflut.c:110-118 | one pass of the loop and the rest: the same guarantee as `Transmit` (`PF_OK` exactly when every byte was taken, otherwise a write error) |
| Framing.CooperativePeerTakesAll | pixelflut.c:107-120 | against a peer that never fails a write and always takes a byte, `write_all` succeeds, and the peer stays so |
| Framing.FirstNewline | pixelflut.c:182-188 | the index found is at most the length, and no terminator comes before it |
| Framing.FirstNewlineAt | pixelflut.c:182-188 | when a terminator is present, the index found holds one |
| Framing.FirstNewlineExtends | pixelflut.c:189-198 | after bytes known to hold no terminator, more bytes appended leave the first terminator no earlier than their end, so the search can resume there |
| Framing.Advance | pixelflut.c:172-208 | the result is `PF_OK`, `PF_PROTOCOL_ERROR`, `PF_SYS_READ` or `PF_SYS_READ_RETURNED_ZERO`; the bytes held stay within the capacity; a line and the bytes held after it fit in less than the capacity; a failure returns no line |
| Framing.AdvancePass | pixelflut.c:180-207 | one pass of the loop and the rest, with the same guarantee as `Advance` |
| Framing.AdvanceConserves | pixelflut.c:172-208 | no byte is lost or invented: held bytes plus stream equal line, newline, bytes still held and stream left; a protocol error means more than 32 bytes held with no terminator |
| Framing.AdvanceFound | pixelflut.c:182-187 | a held terminator gives the line before it, and the bytes after it stay held |
| Framing.AdvanceTooLong | pixelflut.c:189-193 | more than 32 held bytes with no terminator give `PF_PROTOCOL_ERROR` with no read |
| Framing.AdvanceReadFails | pixelflut.c:200-205 | a read that returns -1 gives `PF_SYS_READ`, and one that returns 0 gives `PF_SYS_READ_RETURNED_ZERO` |
| Framing.AdvanceReadStep | pixelflut.c:195-206 | after compaction and a successful read, the result is that of the search over the held bytes followed by the bytes read |
| Framing.ShortLineFramed | pixelflut.c:172-208 | a reliable peer gets through any line of at most 32 bytes that is shorter than the capacity, however the peer splits its stream into reads; the bytes after its terminator are held or still to come |
| Framing.FragmentationIndependent | pixelflut.c:172-208 | two reliable peers that send the same stream in different chunks give the same line and leave the same bytes |
| Framing.UnterminatedLineRejected | pixelflut.c:189-206 | more than `cap` unterminated bytes give `PF_PROTOCOL_ERROR` when the capacity exceeds 32; at exactly 32 they give a read of zero bytes, so `PF_SYS_READ_RETURNED_ZERO` |
| Framing.SingleLineExact | pixelflut.c:213-230 | a successful single read took exactly one line and its newline from the peer's stream |
| Framing.SingleLineAccepted | pixelflut.c:213-230 | a reliable peer whose stream is one line shorter than 32 bytes is read correctly, whatever its chunking |
| Framing.Answers | pixelflut.c:440-459 | the accepted lines extend the earlier ones by at most one per pixel; the result is `PF_OK` exactly when every pixel got a line; any other result is a framing error, a protocol error or a coordinate mismatch |
| Framing.Answer | pixelflut.c:441-458 | the same guarantee, for the pass of the loop that handles pixel i |
| Framing.AnsweredFromStep | pixelflut.c:455-458 | colouring the next pixel from an accepted line extends the answered pixels by one |
| Framing.AnswersColour | pixelflut.c:440-459 | the pixels are coloured from the accepted lines exactly as far as the lines go, and every other pixel is unchanged |
| Framing.ColourStops | pixelflut.c:442-453 | a line that cannot be framed, or a rejected reply, ends the loop with nothing more changed |
| Framing.ColourStep | pixelflut.c:451-458 | for a pixel whose reply is accepted, the colouring through it extends the colouring through the pixels before it |
| Framing.AnswersConserve | pixelflut.c:440-459 | on success, the accepted lines with their newlines, the bytes held and the stream left make up what was held and sent before |
| Framing.ConserveStep | pixelflut.c:442-444 | one accepted line keeps that conservation |
| Framing.JoinStep | pixelflut.c:442-444 | taking one more line and its terminator off the front of the rest adds that line to the joined lines |
| Framing.AnswersTake | pixelflut.c:455-458 | the loop's step for an accepted reply continues with the next pixel, the line accepted |
| Framing.AnswersAdvanceFails | pixelflut.c:442-444 | a line that cannot be framed ends the loop with the framing's code |
| Framing.AnswersRejected | pixelflut.c:447-453 | a rejected reply ends the loop with `PF_PROTOCOL_ERROR` or `PF_GET_UNEXPECTED_COORDS` |
| Framing.RecvBatchFinal | pixelflut.c:460-463 | a batch whose pixels were all answered with bytes still held is `PF_READ_TOO_MUCH` |
| Framing.RecvBatchColours | pixelflut.c:440-459 | the pixels of a batch are coloured from the accepted replies as far as those go, and no other pixel changes |
| Framing.RecvBatchResult | pixelflut.c:440-463 | a batch ends in `PF_OK` or `PF_READ_TOO_MUCH` exactly when every reply was accepted, and in `PF_READ_TOO_MUCH` exactly when bytes then remain |
| Framing.AnswersConserveFromStart | pixelflut.c:435-459 | conservation holds for a batch started on an empty buffer |
| Framing.RecvBatchOk | pixelflut.c:460-463 | a batch ending in `PF_OK` answered every pixel and left nothing held |
| Framing.RecvBatchConserves | pixelflut.c:440-463 | on `PF_OK`, the peer's stream was exactly the accepted lines, each with its newline, followed by what is left |
| Framing.ColouredIff | pixelflut.c:451-458 | a batch is coloured from its lines exactly when every pixel has its own answer |
| Framing.ColouredIffStep | pixelflut.c:451-458 | the step of that proof, from the pixels before the last to all of them |
| Framing.ColouredSameCoordinates | pixelflut.c:455-458 | colouring keeps every coordinate |
| Framing.ColouredConcat | pixelflut.c:497-513 | two batches coloured one after the other colour the pixels of both |
| Framing.SameCoordinatesConcat | pixelflut.c:497-513 | coordinates kept batch by batch are kept overall |
| Framing.BatchMeaning | pixelflut.c:425-464 | the pixels outside the batch are untouched, and those inside keep their coordinates; on `PF_OK`, each pixel of the batch was coloured from one accepted line, and the stream was those lines followed by what is left |
| Framing.BatchFrames | pixelflut.c:426 | the pixels before and after the batch keep their values |
| Framing.BatchCoordinates | pixelflut.c:455-458 | the pixels of the batch keep their coordinates |
| Framing.BatchColoured | pixelflut.c:440-463 | the pixels of a batch that succeeds are coloured from its lines |
| Buffers.WriteAll | pixelflut.c:107-120 | the result and the bytes taken are those of `Transmit`; on `PF_OK` the log grew by exactly the bytes, in order |
| Buffers.TransmitStep | pixelflut.c:110-117 | a write of -1 or 0 decides the result, and a partial write leaves the rest to the bytes after it |
| Buffers.SentStep | pixelflut.c:117 | the bytes written so far grow by the prefix that the write took |
| Buffers.Buffer.constructor | pixelflut.c:379-384 | a fresh buffer over the caller's storage is valid and empty, with the given capacity |
| Buffers.Buffer.Compact | pixelflut.c:195-198 | the unread bytes move to the front, the read position becomes 0, and the unread bytes are unchanged |
| Buffers.Buffer.Append | pixelflut.c:360-361 | the queued bytes are the old ones followed by the new bytes; the free space beyond is untouched |
| Buffers.DoFlush | pixelflut.c:332-345 | the queued bytes are written as by `write_all`; on success the buffer is empty |
| Buffers.AddToBuffer | pixelflut.c:347-363 | flushes exactly when the free space is less than n; on success the bytes sent and queued are the earlier ones followed by the new bytes, and on failure they are a prefix of that |
| Buffers.FindNewline | pixelflut.c:182-188 | the scan stops at the first terminator after the resume point, or at the end |
| Buffers.Refill | pixelflut.c:195-206 | after compaction, one read into the whole free space; the unread bytes, now at the front, grow by exactly the bytes read, and do not change on a failed or empty read |
| Buffers.TakeLine | pixelflut.c:183-186 | the line runs from the read position to the terminator, and the read position moves past the terminator |
| Buffers.ReadPass | pixelflut.c:195-206 | the read either ends the search with its failure or extends the bytes held |
| Buffers.AdvancePass | pixelflut.c:180-207 | a pass either decides the result, as `Framing.AdvancePass` does, or reads more and resumes the search past the bytes already searched |
| Buffers.LineAdvance | pixelflut.c:172-208 | the result, the line and the new buffer and peer state are those of `Framing.Advance`; `BUF_VALID` is kept; no byte is written meanwhile, and every byte read is marked with that same count of bytes written |
| Buffers.GetSingleLine | pixelflut.c:213-230 | the result and the line are those of `Framing.SingleLine`; on success exactly the line and its newline were read; no byte is written meanwhile, and every byte read is marked with that same count of bytes written |
| Batching.BatchesPartition | pixelflut.c:489-514 | the batches cover the n requests exactly, each batch is non-empty, and none exceeds a non-zero limit |
| Batching.BatchCount | pixelflut.h:132 | with limit 0 there is one batch (none for n = 0); otherwise the number of batches is n divided by the limit, rounded up |
| Batching.BatchesFull | pixelflut.h:138-143 | every batch but the last holds exactly `batch_limit` requests |
| Batching.BatchesStep | pixelflut.c:497-505 | a full batch is followed by the batches of the remaining requests |
| Batching.BatchesAfterFull | pixelflut.c:497-505 | after the batches already answered, a full batch is the next one |
| Batching.BatchesLast | pixelflut.c:507-514 | fewer requests than a non-zero limit, or any number with no limit, form one batch |
| Batching.BatchesFinish | pixelflut.c:507-514 | the requests left after the loop form at most one last batch |
| Batching.SumSnoc | pixelflut.c:504 | the total of the batch sizes grows by the size of the batch added |
| Pixelflut.ConverseMeaning | pixelflut.c:277-282 | a failed write takes less than the whole command and reads nothing; a successful exchange took the whole command and exactly one line and its newline |
| Pixelflut.ConverseAnswered | pixelflut.c:277-282 | a cooperative, reliable peer that sends one line shorter than 32 bytes makes the exchange succeed with that line |
| Pixelflut.Ask | pixelflut.c:275-282 | sending a command and reading its reply give the `Converse` exchange, and the log grows by the bytes taken; every byte read was read after the whole command had been written |
| Pixelflut.AskPixel | pixelflut.c:275-293 | the result is that of the exchange followed by the reply check with the y bound 0xff; on success the colour is the reply's; every byte read was read after the whole request had been written |
| Pixelflut.GetAnswered | pixelflut.h:98-103 | a cooperative, reliable server that answers the canonical reply for a pixel with y up to 0xff gives that colour to `pf_get` |
| Pixelflut.SizeAnswered | pixelflut.c:239-257 | a cooperative, reliable server that answers `SIZE w h` gives (w, h) to `pf_get_size` |
| Pixelflut.Conn.constructor | pixelflut.c:27-28 | a zeroed connection with descriptor -1 is valid and not open |
| Pixelflut.Conn.DoClose | pixelflut.c:14-19 | afterwards the connection is not open; an open descriptor is released, and on a closed connection nothing changes, so closing twice is harmless |
| Pixelflut.Conn.ConnectRaw | pixelflut.c:22-68 | a NULL argument gives `PF_NULL_ARG` with nothing changed; otherwise the counters are zeroed, the result follows the order of the address, port, socket and connect checks, and the connection is open exactly on `PF_OK` |
| Pixelflut.Conn.PutGeneral | pixelflut.c:123-146 | a closed connection gives `PF_CONN_INVALID_STATE` with nothing changed; otherwise the command is written as by `write_all`; on success the written counter increments, and on failure the connection closes with the counter unchanged |
| Pixelflut.Conn.PutRgb | pixelflut.c:148-151 | the same, for the command without alpha |
| Pixelflut.Conn.PutRgba | pixelflut.c:153-156 | the same, for the command with alpha |
| Pixelflut.Conn.GetSize | pixelflut.c:232-264 | the result is that of `SIZE\n` followed by the size-reply check; a dimension is reported only on success and only when asked for; on failure the connection closes |
| Pixelflut.Conn.Get | pixelflut.c:266-305 | closed gives `PF_CONN_INVALID_STATE`, and NULL gives `PF_NULL_ARG`; otherwise the result is the exchange and check for the pixel; on success the pixel takes the colour with alpha 0xff and the read counter increments; on failure the pixel is unchanged and the connection closes |
| Pixelflut.Conn.PutGeneralMany | pixelflut.c:366-407 | closed, NULL and short-buffer cases fail with their codes and change nothing; otherwise the bytes sent are always a prefix of the commands in order; on success they are exactly the commands, and the written counter grows by n; on failure it is a write error, the connection closes and the counter is unchanged; a cooperative peer always gives success |
| Pixelflut.Conn.PutRgbMany | pixelflut.c:409-414 | the same, for commands without alpha |
| Pixelflut.Conn.PutRgbaMany | pixelflut.c:416-421 | the same, for commands with alpha |
| Pixelflut.Conn.GetMany | pixelflut.c:466-521 | closed, NULL and short-buffer cases fail with their codes and change nothing; otherwise, on success, exactly the requests were written, the stream began with the reply lines in order, each pixel is coloured from its own echoing reply, the batches follow `Batches`, the socket's record of reads grew by `Schedule` of the replies, so that (by `ReadsFollowRequests`) every byte of the replies to batch k was read when exactly the requests through the end of batch k had been written, and the read counter grows by n; on failure the bytes written are a prefix of the requests, every pixel keeps its coordinates, and the connection closes; with n = 0 no I/O happens |
| Pixelflut.QueueAll | pixelflut.c:387-398 | on success the bytes sent and queued are the earlier ones followed by every pixel's command; on failure the bytes sent are a prefix of that |
| Pixelflut.QueueStep | pixelflut.c:387-398 | the commands through pixel i are those before it followed by its own, within the commands of all pixels |
| Pixelflut.Enqueue | pixelflut.c:391-397 | `add_to_buffer` of one command extends the bytes sent and queued toward a target, or leaves a prefix of it sent |
| Pixelflut.GetManyRecv | pixelflut.c:425-464 | the result and the pixel array are those of `Framing.RecvBatch` applied to the batch, through a fresh buffer over the same storage; no byte is written meanwhile, and every byte read is marked with that same count of bytes written |
| Pixelflut.RecvAll | pixelflut.c:440-459 | the loop's result, lines and pixels are those of `Framing.Answers`; no byte is written meanwhile, and every byte read is marked with that same count of bytes written |
| Pixelflut.RecvOne | pixelflut.c:441-458 | one pass frames a line, checks it and colours pixel i: on success the rest of the loop is `Framing.Answers` from pixel i + 1 with that line accepted, and on failure the loop ends with the code |
| Pixelflut.FinishBatch | pixelflut.c:498-503 | flushes the queued requests, then receives the batch's answers; on success the requests and the answers are both complete, and every byte of the answers was read after all the requests had been written |
| Pixelflut.RequestAll | pixelflut.c:489-514 | the `while (idx < n)` loop keeps `Progress` and keeps the socket's record of reads equal to `Schedule` of the batches answered, so the requests, the batches, the colouring and the bytes written when each batch's replies were read are as `GetMany` states |
| Pixelflut.RequestStep | pixelflut.c:492-505 | one pass queues pixel idx's request, and ends the batch when it is full, keeping `Progress` and the record of reads as `Schedule` |
| Pixelflut.ProgressQueued | pixelflut.c:492-496 | queueing one request inside a batch that is not full keeps `Progress` |
| Pixelflut.ProgressBatched | pixelflut.c:497-505 | the request that fills a batch, once that batch is answered, keeps `Progress` with the batch start moved |
| Pixelflut.LastBatch | pixelflut.c:507-514 | the remaining requests form the last batch; with no requests left, nothing happens |
| Pixelflut.EndBatch | pixelflut.c:497-513 | ending a batch flushes, receives and accounts for exactly that batch's answers; the record of reads stays `Schedule` of the batches answered |
| Pixelflut.BatchMarks | pixelflut.c:497-504 | the reads of one more batch, all made after its requests were written, extend `Schedule` by that batch |
| Pixelflut.InboundAppend | pixelflut.c:501-511 | one batch's reply lines come off the stream after those of the batches before |
| Pixelflut.BatchFails | pixelflut.c:501-503 | a failed batch leaves a prefix of the requests written, and every pixel keeps its coordinates |
| Pixelflut.BatchDone | pixelflut.c:501-504 | an answered batch adds its lines, its size and the bytes written before its replies |
| Pixelflut.RequestQueued | pixelflut.c:492 | the requests through pixel i are those before it followed by its own, within the requests of all pixels |
| Pixelflut.CollectedStart | pixelflut.c:489-490 | at the start no pixel is answered |
| Pixelflut.CollectedStep | pixelflut.c:501-504 | a batch answered after the ones before extends the coloured pixels |
| Pixelflut.CollectedFails | pixelflut.c:501-503 | a failed batch keeps every coordinate |
| Pixelflut.CollectedCoordinates | pixelflut.c:493-494 | a failure before a batch ends keeps every coordinate |
| Pixelflut.SentBeforeSnoc | pixelflut.c:498-501 | one more batch awaited records exactly the requests through its end |
| Pixelflut.ScheduleSnoc | pixelflut.c:497-504 | answering one more batch appends one mark per byte of its reply lines, each the count of bytes written when it was awaited |
| Pixelflut.ScheduleLength | pixelflut.c:489-514 | `Schedule` has exactly one mark per byte of the reply lines |
| Pixelflut.ScheduleBatch | pixelflut.c:489-514 | the bytes of batch k's reply lines, placed after those of the earlier batches, all carry the mark `sentAt[k]` |
| Pixelflut.ReadsFollowRequests | pixelflut.h:138-143 | every byte of the replies to batch k was read when exactly the requests up to the end of batch k had been written: those of batch k were all sent, and none of a later batch |
| Pixelflut.Disconnect | pixelflut.c:70-75 | a NULL connection is left alone (the frame is empty); a non-null connection is afterwards not open, and an open descriptor is released |
| Scenarios.ScenarioPut | pixelflut.c:134 | setting (3, 4) to red writes exactly `PX 3 4 ff0000\n` |
| Scenarios.ScenarioReplyLines | pixelflut.c:285 | the concrete replies used below are the canonical reply lines for those pixels |
| Scenarios.ScenarioGet | pixelflut.c:285-297 | reading (3, 4) against `PX 3 4 00ff00` gives green |
| Scenarios.ScenarioGetMismatch | pixelflut.c:290-292 | reading (3, 4) against `PX 9 9 00ff00` is `PF_GET_UNEXPECTED_COORDS` |
| Scenarios.ScenarioSize | pixelflut.c:247-257 | the reply `SIZE 100 100` gives a 100 by 100 canvas |

## Left out

- Byte: a C `char` is modelled as a Dafny `char`, whose range is not restricted; every property holds for any character, so also for the 256 byte values.
- Pixelflut.Conn.ConnectRaw: `inet_aton`, `socket()` and `connect()` are foreign calls, and appear as the parameters `addrParses`, `fd` and `connects`; the socket that `fd` designates is passed in. `sin_port`/`htons` build only the foreign address and are not modelled.
- Pixelflut.Conn: a NULL `conn` is not modelled for the operations that would return `PF_CONN_INVALID_STATE` or `PF_NULL_ARG` on it, because a Dafny `Conn` is never null. `Disconnect` takes a nullable connection, as `pf_disconnect` does. The constructor gives the zeroed state and designates an unused socket, since `sockfd == -1` designates none.
- Pixelflut.Conn: `num_pixels_written` and `num_pixels_read` are `size_t` in C and would wrap past 2^64; the model counts with unbounded naturals.
- `PF_BUG` checks: the checks in `line_advance`, `do_flush`, `add_to_buffer` and `pf_get_many_recv` are preconditions of the corresponding members, which every caller meets. The `PF_BUG` code exists in `PfResult` and `ErrorMsg`, but no operation returns it.
- `MONITOR_SYSCALLS` diagnostics (`perror`/`fprintf` in `do_write_single`/`do_read_single`) are output only, and are left out.
- Blocking, timeouts and signals: each write(2) and read(2) returns at once with the next step of a script fixed in advance. Concurrency is left out.
- Wire.Scan: simplified from `sscanf`. A space directive matches exactly one space, while `sscanf` matches any run of whitespace, possibly empty. `%u` takes no leading whitespace or sign. `%02x` takes exactly two hex digits, while `sscanf` also accepts one. A number too large for `unsigned int`/`unsigned long` is read as its true value rather than as the C library would read it. So the model rejects some non-canonical replies that the C code accepts. It agrees on every canonical reply.
- Wire.Scan: whether the reply in the stack buffer is NUL-terminated is left out. The scan sees the line without its newline, and the bytes after the line are not consulted.
- Wire.ParsePort: `strtoul`'s leading whitespace and sign are left out; the string must be all digits. The empty string is accepted as port 0, and `errno` overflow is covered by the unbounded value exceeding 0xffff.
- Types.Message: the contract states only that the text is "OK" exactly for `PF_OK` and is at least two characters long; the individual strings are the function's definition.
- Pixelflut.Conn.GetMany: on failure the contract states that every pixel keeps its coordinates, but not which pixels of the failing batch were already coloured; `Framing.RecvBatchColours` states that part for a single batch.
- minimal.c is a demo program that only consumes the library, and is not part of this model.

## Findings

| source | as written | input that shows it | evidently intended | confidence | as-written member | corrected member |
|---|---|---|---|---|---|---|
| pixelflut.c:286 | `pf_get` rejects a reply whose echoed y is above 0xff, although y is a 16-bit coordinate | `pf_get` of pixel (3, 300), answered by the correct reply `PX 3 300 00ff00`, gives `PF_PROTOCOL_ERROR` and closes the connection | the 16-bit bound 0xffff that `pf_get_many_recv` applies at pixelflut.c:448 | not executed | Wire.GetRejectsEchoOf300 | Wire.RecvAcceptsEchoedReply |

`Pixelflut.Conn.Get` follows the code as written, with the bound 0xff
(`GetYBound`). `Wire.GetRejectsEchoedLargeY` states that every correctly
echoed y above 0xff is rejected. With the bound 0xffff (`RecvYBound`, used
by `pf_get_many`), `Wire.RecvAcceptsEchoedReply` proves that every correct
echo is accepted with its colour.
