# astrovideoguide: client framing and capture control, modelled in Dafny

This project models two sides of a small frame-grabbing tool.

The **client** (client.c):
- It sends a format name (`png`, `raw` or `jpg`) to a frame server.
- It collects the answer in a receive buffer that grows in steps of `BUFSIZE` (20480) bytes.
- `SaveFrame` takes the answer `"<format>\n<decimal size>\n<payload>"` apart and writes the payload to `frameNNN.<format>`.
- `capture_frames` asks for `N` frames in a row and numbers the answers it gets.

The **capture side** (capture.c):
- It selects the v4l2 input channel.
- It prepares an ffmpeg decoder on the first video stream of the device.
- It grabs a frame with at most `MAX_READING_TRIES` (10) reads.
- It lists the device's inputs.
- It encodes RGB frames to PNG (through an in-memory sink) or JPEG, one row of `3 * w` bytes at a time.

Every foreign call is an input to the model, not something it computes. That covers sockets, `select`, the filesystem, v4l2 ioctls, ffmpeg, libpng and libjpeg. Concretely:
- A socket is the sequence of events it will deliver: arrivals of bytes, pauses longer than the `select` timeout, a close, or a read error. It also holds the outcome of each coming `write`: the whole request sent, only part of it, or an error.
- `prepare_videodev` sees the success or failure of each library call.
- `av_read_frame` is a sequence of results.
- The encoders are the bytes they produce.

Modules:
- `Common` holds bytes, `Option`, ASCII literals, C `tolower` and concatenation of chunks.
- `ClientFrame` holds `SaveFrame`, with a faithful `strtol`, and the format whitelist of `main`.
- `ClientSession` holds the socket, the growing receive buffer, client `capture_frame` and `capture_frames`.
- `CaptureDevice` holds `grab_set_chan`, the stream search, the `videodev_prepared` lifecycle, `capture_frame` and `list_all_inputs`.
- `CaptureEncode` holds `my_png_write_data` and the row loops of `getpng` and `getjpg`.

`prepare_videodev` is modelled with `grab_set_chan` as written, stale `input` included (`PrepareStage`, `VideoDevice.Prepare`). The corrected `GrabSetChan` stands beside it, and `PreparesMissingChannel` shows where the two lead `prepare_videodev` apart.

Code and design disagree in two places. The model follows the code in both:
- The server answers a `raw` request with a size field `<width>x<height>`. The client's `SaveFrame` accepts only a decimal size followed by `\n`, so it rejects such an answer (`RawDimensionsRejected`).
- The server understands `jpeg` as well as `jpg`. The client's whitelist does not contain `jpeg` (`JpegNotKnown`).

Some behaviours of `strtol` carry over into `SaveFrame` and are kept as the code has them:
- `strtol` skips leading white space, including `\n`. So `"png\n\n5\n..."` reads the size 5 from the third line (`BlankLineBeforeSizeSkipped`).
- An empty field followed by something that is not a number gives size 0, and that answer is saved as an empty file (`EmptySizeField`).
- The receive buffer is not NUL-terminated. The C string functions it is given to may read past the received bytes. The model treats anything past the end of the answer as absent.

## Model

| member | source | states |
|---|---|---|
| ClientFrame.FindNewline | client.c:134-137 | what `strchr` finds is a `\n` with no `\n` and no NUL before it |
| ClientFrame.FindNewlineAt | client.c:134-137 | conversely, a `\n` with no `\n` and no NUL before it is what `strchr` finds |
| ClientFrame.FindNewlineNone | client.c:134-137 | `strchr` finds nothing exactly when every `\n` has a NUL in front of it (or there is none) |
| ClientFrame.StrToL | client.c:139 | base-10 `strtol`: the value is within `long`; when `end` does not move the value is 0; otherwise `end` stops right after the last digit and before any further digit |
| ClientFrame.Convert | client.c:139 | `strtol` resumed inside its leading white space: the same bounds on the value and `end` as `StrToL` |
| ClientFrame.SpaceEnd | client.c:139 | the white space `strtol` skips: every byte before the result is C `isspace`, the byte at it is not |
| ClientFrame.SignEnd | client.c:139 | the optional sign `strtol` accepts: one `+` or `-` is passed over, anything else is not |
| ClientFrame.ClampLong | client.c:139 | `strtol` saturates: the value is kept inside the `long` range and clamped to `LONG_MIN` or `LONG_MAX` outside it |
| ClientFrame.ConvertValue | client.c:139 | from inside the white space, `strtol` gives 0 and leaves `end` at the start when no digit follows the white space and sign, and otherwise the signed, clamped value of the digits with `end` just past them |
| ClientFrame.StrToLValue | client.c:139 | no digit after the white space and the optional sign: the value is 0 and `end` stays at the start; otherwise the value is that of the digits, negated after `-`, clamped to `long`, and `end` is just past the digits |
| ClientFrame.DecimalValue | client.c:139 | the decimal digits written for `n` are read back by the digit conversion as `n` |
| ClientFrame.DigitsConversion | client.c:139 | `strtol` skips white space, reads a run of digits denoting `n`, and leaves `end` on the byte after them |
| ClientFrame.ParseHeader | client.c:130-143 | the header is rejected for a wrong format exactly when the answer does not begin with the format name ignoring case; an accepted header has its payload start just after a `\n` at least two bytes past the first newline, and its length within `long` |
| ClientFrame.ParsedHeaderFields | client.c:134-144 | conversely, an accepted header comes from its size field: after the first newline, white space, an optional sign and digits whose signed, clamped value is the length, ended by the `\n` before the payload; or no number at all, the field's first byte being that `\n` and the length 0 |
| ClientFrame.FormatPrefix | client.c:130 | `strncasecmp(G.format, answer, strlen(G.format)) == 0`: the answer begins with the format name, ignoring case |
| ClientFrame.SaveFrameAsWritten | client.c:124-146 | as written: a file that cannot be created fails first; otherwise the result is exactly the header check, with no bound against the bytes received |
| ClientFrame.SaveFrame | client.c:120-157 | a frame is saved exactly when the header is accepted, its length is not negative and the payload fits in the answer; the payload is then exactly the `length` bytes after the second newline; every header rejection is passed on |
| ClientFrame.NoNewlineRejected | client.c:134-138 | an answer without any `\n` is rejected, and nothing is saved |
| ClientFrame.HeaderAccepted | client.c:130-143 | the header is accepted, with `strtol`'s value as its length and the payload from after `end`, once the prefix matches, a newline is found and `strtol` stops on a `\n` |
| ClientFrame.ParsedAt | client.c:130-143 | after the first newline, optional white space, a decimal `L` and `\n` give the header of length `L` whose payload starts after that `\n` |
| ClientFrame.PayloadSaved | client.c:144-146 | a header whose payload runs to the end of the answer is saved with the rest of the answer |
| ClientFrame.FramedHeader | client.c:130-143 | `"<fmt>\n<white space><decimal L>\n..."` has a header of length `L` starting after the second `\n` |
| ClientFrame.SavedFramed | client.c:130-146 | `"<fmt>\n<white space><decimal length>\n<payload>"` is saved with exactly the payload |
| ClientFrame.PrefixMatches | client.c:130-133 | an answer that starts with the format name byte for byte passes the case-insensitive prefix test |
| ClientFrame.SaveFrameRoundTrip | client.c:117-146 | `SaveFrame` on `"<fmt>\n<decimal length of the payload>\n<payload>"` saves exactly the payload |
| ClientFrame.SizeFieldNeedsNewline | client.c:139-143 | a size field whose digits are followed by anything but `\n` is rejected |
| ClientFrame.RawDimensionsRejected | client.c:139-143 | the answer `raw\n640x480\n...` is rejected with a bad length |
| ClientFrame.EmptySizeField | client.c:139-146 | two consecutive newlines followed by a non-number give length 0, and an empty payload is saved |
| ClientFrame.BlankLineBeforeSizeSkipped | client.c:139-143 | a blank line before the size field is skipped by `strtol`, and the framed payload behind it is saved |
| ClientFrame.AsWrittenWritesPastAnswer | client.c:144-146 | `jpg\n9\nab` passes every check of the source, which then writes 9 bytes where 2 were received; the corrected `SaveFrame` rejects it as truncated |
| ClientFrame.NineByteHeader | client.c:130-143 | the header of `jpg\n9\nab` declares 9 bytes starting at index 6 |
| ClientFrame.FormatStatus | client.c:281-285 | `main` returns -1 exactly when the format is none of `png`, `raw`, `jpg` in any case |
| ClientFrame.EqualIgnoreCase | client.c:281-282 | `strcasecmp(a, b) == 0`: the same length and the same bytes after C `tolower` |
| ClientFrame.KnownFormat | client.c:281-282 | the whitelist test of `main`: the format equals `png`, `raw` or `jpg` ignoring case |
| ClientFrame.EqualIgnoreCaseLower | client.c:281-282 | against a lower-case name, `strcasecmp` equality is equality after folding to lower case |
| ClientFrame.KnownFormatIff | client.c:281-282 | a format is accepted exactly when its lower-case form is `png`, `raw` or `jpg` |
| ClientFrame.JpegNotKnown | client.c:281-285 | `jpeg` is refused, while `JPG` and `Raw` are accepted |
| ClientSession.ReadStep | client.c:241-246 | one `read` returns at most the free space, returns -1 exactly on a read error and 0 only on a close or an empty arrival, and otherwise returns the number of bytes delivered |
| ClientSession.WriteCount | client.c:226-227 | what `write` returns: -1 exactly on an error, never more than the request's length, and the whole length exactly when the outcome lets every byte through |
| ClientSession.SentBytes | client.c:226 | the bytes that reach the peer are the first ones of the request, as many as `write` returns, and none on an error |
| ClientSession.Socket.Write | client.c:226 | each `write` takes the next outcome, returns its count, and records exactly the bytes that went out |
| ClientSession.Readable | client.c:164-182 | `select` reports the socket readable unless the next event is a pause or nothing more comes |
| ClientSession.AfterWait | client.c:164-182 | a pause `waittoread` waits out is used up; otherwise nothing is consumed |
| ClientSession.Socket.WaitToRead | client.c:164-182 | `waittoread` reports data unless nothing comes before the timeout; a pause it waits out is used up |
| ClientSession.Socket.Read | client.c:241 | the bytes read land at `&buf[off]` and the rest of the buffer is unchanged |
| ClientSession.RecvBuf.constructor | client.c:222-223 | the buffer starts with `BUFSIZE` bytes allocated and none filled |
| ClientSession.RecvBuf.MakeRoom | client.c:235-240 | the buffer grows by exactly `BUFSIZE` only when it is full, keeps its contents, keeps `offset <= bufsz` with `bufsz` a positive multiple of `BUFSIZE`, and afterwards has room |
| ClientSession.RecvBuf.Fill | client.c:241-247 | the bytes a read returns are appended to the contents; `offset` moves only when bytes came |
| ClientSession.Drain | client.c:234-248 | the functional meaning of the receive loop: an empty answer only when the first read returns 0, and never more left to come than before |
| ClientSession.Capture | client.c:221-256 | an answer is returned only if the request went out whole, and it is then non-empty, readable and collected by the read loop; a request not sent whole returns NULL and consumes no event |
| ClientSession.Answer | client.c:229-255 | after the send: an answer only when the socket is readable and the read loop collects a non-empty answer |
| ClientSession.CaptureFrame | client.c:221-256 | one `write` outcome is used up, exactly the bytes it let through are sent, and the answer and the events left are those of `Capture` |
| ClientSession.ReceiveAnswer | client.c:229-255 | the wait and the read loop into the growing buffer produce exactly `Answer` of the socket's events |
| ClientSession.DrainAfterRead | client.c:241-248 | after a read that returns bytes, the bytes so far and what the loop still collects make up what it collects from before the read; less is left to come |
| ClientSession.DrainSplit | client.c:241 | an arrival read in two parts, because the buffer was full, collects the same bytes as one read |
| ClientSession.DrainUntilPause | client.c:234-248 | chunks followed by a pause are received whole and in order |
| ClientSession.DrainUntilClose | client.c:242 | a zero-length read ends the loop and keeps the chunks read before it |
| ClientSession.DrainUntilFail | client.c:243-246 | a read error loses the whole answer |
| ClientSession.CaptureWholeAnswer | client.c:249-255 | the returned answer, whose length goes to `*sz`, is the concatenation of the chunks |
| ClientSession.CaptureClosedEmpty | client.c:249-252 | a connection closed before any byte arrived gives no answer |
| ClientSession.ClientSavesFramedAnswer | client.c:221-256 | a framed answer, however it is split into chunks, is received whole and saved with exactly its payload |
| ClientSession.Attempts | client.c:268-273 | `k` requests give at most `k` answers, all non-empty |
| ClientSession.CaptureFrames | client.c:264-275 | `saved` is the number of answers of `N` requests (none for `N <= 0`), at most `N`; answer `j` is numbered `istart + j` and handed to `SaveFrame` whether or not saving then succeeds; the bytes sent, the write outcomes and the events used are those of the `N` requests |
| ClientSession.AttemptsUnsent | client.c:226-227 | when none of the first `k` requests is sent whole, no frame is counted and no event is consumed |
| ClientSession.AttemptsAllSent | client.c:226-227 | when every `write` sends everything, the request goes out `k` times |
| ClientSession.SendFailsThenRecovers | client.c:268-273 | a request whose `write` failed is followed by one that is answered as if the failure had not happened |
| CaptureDevice.GrabSetChanAsWritten | capture.c:120-158 | as written: success needs the stat, the character-device and the open checks; if the input read differs from the requested channel, the channel must also exist and be selected |
| CaptureDevice.GrabSetChan | capture.c:120-158 | corrected: success exactly when the device checks pass and the current input is known to be the channel, or the channel exists and is selected |
| CaptureDevice.GrabSetChanAgrees | capture.c:141-145 | both agree whenever `VIDIOC_G_INPUT` succeeds |
| CaptureDevice.StaleInputAcceptsMissingChannel | capture.c:141-145 | as written, a failed `VIDIOC_G_INPUT` whose stale `input` equals the channel reports success for a channel that does not exist |
| CaptureDevice.HasVideo | capture.c:215-222 | some stream has the video media type |
| CaptureDevice.PrepareStage | capture.c:182-244 | the exit `prepare_videodev` takes: no v4l2 support exactly when it is not found; past the channel step exactly when v4l2 is found and `grab_set_chan` as written succeeds; success exactly when every check passes, a video stream among them |
| CaptureDevice.PreparesMissingChannel | capture.c:141-196 | through the stale `input`, `prepare_videodev` goes on and can succeed on a channel that does not exist, where the corrected channel check fails |
| CaptureDevice.FindVideoStream | capture.c:215-226 | the result is the smallest index of a video stream, or -1 exactly when there is none |
| CaptureDevice.ReadLoop | capture.c:301-308 | the read loop ends with at most `MAX_READING_TRIES` calls |
| CaptureDevice.ReadLoopStops | capture.c:301-308 | the loop stops at the first non-negative result, after errors only, having used up exactly what it read; if nothing but errors comes, it makes all 10 attempts |
| CaptureDevice.Grab | capture.c:289-357 | at most 10 reads; a returned frame has the codec's width and height |
| CaptureDevice.GrabReturnsVideoFrames | capture.c:289-357 | an unprepared device returns NULL without reading; a frame is returned only for a finished decode of a video-stream packet read after errors only; 10 failed reads return NULL |
| CaptureDevice.VideoDevice.constructor | capture.c:42-51 | at program start nothing is prepared or open |
| CaptureDevice.VideoDevice.Prepare | capture.c:166-281 | the flag is set exactly on the final success path, with the channel chosen by `grab_set_chan` as written; every early exit leaves the flag alone; an exit after the open leaves the input open; the stream found is the first video stream; once it is found, the codec context (its width and height) is that stream's, unopened until `avcodec_open2` succeeds |
| CaptureDevice.VideoDevice.ReadFrame | capture.c:302 | one `av_read_frame` consumes the next result, or gives an error when nothing is left |
| CaptureDevice.VideoDevice.CaptureFrame | capture.c:289-357 | the frame, the results consumed and the number of reads are exactly those of `Grab` |
| CaptureDevice.VideoDevice.Free | capture.c:362-376 | does nothing when the flag is 0; otherwise it closes the input and codec and leaves the flag at 0 |
| CaptureDevice.FailedPrepareKeepsInputOpen | capture.c:203-244 | a preparation failing after the open, followed by `free_videodev`, leaves the input open |
| CaptureDevice.HasInput | capture.c:63-70 | `check_input`: `VIDIOC_ENUMINPUT` succeeds for the index |
| CaptureDevice.ListAllInputs | capture.c:103-112 | nothing is listed when the device cannot be opened; otherwise inputs 0, 1, 2, ... are listed in order, each accepted by `check_input`, up to the first index `check_input` rejects |
| CaptureEncode.OffsetIsProduct | capture.c:421-422 | advancing the row pointer `k` times by the stride reaches byte `stride * k` |
| CaptureEncode.RowAt | capture.c:421-423 | row `k` is the `stride` bytes from where the pointer is after `k` rows |
| CaptureEncode.RowsCover | capture.c:421-423 | the rows, concatenated, are exactly the bytes up to the pointer after the last row |
| CaptureEncode.RowsOfFrame | capture.c:421-423 | `h` rows, row `k` at the pointer after `k` rows, together the bytes up to the pointer after the last row |
| CaptureEncode.MemEncode.constructor | capture.c:400-402 | the sink starts empty |
| CaptureEncode.MemEncode.WriteData | capture.c:385-394 | `size` grows by `length` and the buffer is the old contents followed by `data` |
| CaptureEncode.WriteChunks | capture.c:410-424 | every write the encoder makes through the callback is appended to the sink in order |
| CaptureEncode.WriteRows | capture.c:421-423 | the row loop of `getpng` hands over the frame's rows in order |
| CaptureEncode.GetPng | capture.c:396-432 | on an early failure `*size` is 0, the result is NULL and no row is written; otherwise exactly `h` rows are handed over, row `k` from where the row pointer is after `k` steps of `3 * w` bytes (byte `3 * w * k`, by `OffsetIsProduct`), together every byte up to the pointer after the last row; `*size` is the number of bytes the encoder wrote and the result is a copy of them (NULL if that copy's allocation fails) |
| CaptureEncode.GetJpg | capture.c:434-462 | the same rows as `getpng` are handed over; the result and `*size` are what the memory destination holds |

## Left out

- The contents of files. The model stops at the parse result and does not model `open`, `write`, `close` or their failures after the header checks. The `frame%03d.%s` file name produced by `snprintf` is not modelled either; `SaveFrame` only gets whether the file could be created.
- Resource leaks: the file descriptor `F` on `SaveFrame`'s failure paths; `recvBuff` on the send, no-data and read-error exits of client `capture_frame`; `grab_fd` on the failing `list_input` and `VIDIOC_S_INPUT` paths of `grab_set_chan`; the descriptor `list_all_inputs` opens and never closes; and the JPEG compressor, which `getjpg` never destroys. The model has no descriptors and no manual memory.
- Socket.Write: a `write` after the peer has closed the connection raises SIGPIPE, and client.c installs no handler, so the real client ends there. The model instead gives each `write` the outcome listed for it (whole, short or failed) and goes on, so `CaptureFrames` always makes `N` requests. Once the listed outcomes run out, every `write` sends the whole request.
- VideoDevice.Prepare: a second `prepare_videodev` without `free_videodev` in between opens a new input over the old one and abandons the old frames, buffer and scaling context. The model only tracks whether an input and a codec context are open, so it does not show those leaks.
- ListAllInputs: `enumInput` is a finite list of `VIDIOC_ENUMINPUT` outcomes. The source loops for as long as the ioctl succeeds, so the model does not cover a driver that accepts every index.
- `ToLower` and `IsSpace` follow the "C" locale. Client `main` first calls `initial_setup()` (client.c:278), whose body is not part of this model, so any locale it sets is not taken into account.
- The test `!(++pFrame)` in `SaveFrame`. It can never be true, and the model has no branch for it.
- A size field of `-1`. The source casts it to `size_t` and asks `write` for `SIZE_MAX` bytes, which fails. Like every other negative size, the corrected `SaveFrame` rejects it as a bad length.
- `realloc` failure: the client's `assert(recvBuff)` and the `png_error` (longjmp) path of `my_png_write_data`. Allocation always succeeds in the model.
- Sockets: `open_socket`, `getaddrinfo`, `connect` and the `select` timeout value. A connected socket is the sequence of events it delivers.
- The v4l2 ioctls, the ffmpeg calls of `prepare_videodev`, `avcodec_decode_video2` and `sws_scale`. Each is an input: the success or failure of the call, the streams' media types, and the decoder's outcome for each packet.
- The pixel conversion and the fact that `capture_frame` returns a pointer into `pFrameRGB`, reused by the next call. `Frame` is a value, so this aliasing is not modelled.
- `list_input`'s printing. Its own `VIDIOC_ENUMINPUT` is taken to succeed whenever `check_input`'s did.
- The `exit(EXIT_FAILURE)` on a NULL device name in `grab_set_chan`. Device names are not modelled.
- The `usleep(50000)` between read attempts.
- The libpng and libjpeg encoders. Their output is given as data, and `GetPng` replays the callback writes after the rows rather than interleaved with them.
- `GetPng`, `GetJpg`: require `0 < w`, `0 < h` and a frame of at least `3*w*h` bytes. libpng and libjpeg abort on invalid dimensions, and the row loop reads that many bytes. The `int` product `w *= 3` is unbounded here, so its overflow is not modelled.
- `FindVideoStream`: `nb_streams` is taken as the length of the stream list.
- The `long` result of `strtol` is modelled with its 64-bit clamp. `errno` is not modelled.
- main.c (logging and locale setup), cmdlnopts.c (argument parsing through an external library), main.h and capture.h (macros and prototypes) are not part of this model. Only `MAX_READING_TRIES` is taken from capture.h.
- The frame server, its frame store, its request handlers and its supervisor are not part of this model. No source for them is present here.

## Findings

| source | as written | input that shows it | evidently intended | confidence | as-written member | corrected member |
|---|---|---|---|---|---|---|
| client.c:144-146 | `SaveFrame` writes `L` bytes from the end of the header without comparing `L` with the received size `sz` | the answer `jpg\n9\nab` (8 bytes received, 9 announced) | reject an answer whose payload is shorter than announced | not executed | ClientFrame.SaveFrameAsWritten | ClientFrame.SaveFrame |
| capture.c:141-145 | when `VIDIOC_G_INPUT` fails, the uninitialised `input` is compared with the requested channel | `VIDIOC_G_INPUT` fails, the stale `input` equals the requested channel 2, and channel 2 does not exist | treat an unknown current input as different, so the channel is checked and selected | not executed | CaptureDevice.GrabSetChanAsWritten | CaptureDevice.GrabSetChan |
