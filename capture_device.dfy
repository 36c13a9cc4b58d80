/**
 * The capture side's control logic (capture.c): choosing the input channel
 * (`grab_set_chan`), preparing the device and finding its first video stream
 * (`prepare_videodev`), grabbing one frame with a bounded number of read
 * attempts (`capture_frame`), releasing the device (`free_videodev`) and
 * listing the inputs (`list_all_inputs`).
 *
 * Every call into v4l2 and ffmpeg is replaced by its result, given to the
 * model as data: a `ChanEnv` for the ioctls on the device file, a
 * `DeviceEnv` for the ffmpeg set-up calls and a sequence of `ReadResult`s for
 * what `av_read_frame` returns.
 */
module CaptureDevice {
  import opened Common

  /** `MAX_READING_TRIES` (capture.h). */
  const MAX_READING_TRIES: nat := 10

  // ---------------------------------------------------------------------
  // grab_set_chan

  /** The results of the system calls `grab_set_chan` makes on the device file. */
  datatype ChanEnv = ChanEnv(
    statOk: bool,               // stat(devname) succeeds
    isCharDevice: bool,         // S_ISCHR(st.st_mode)
    openOk: bool,               // open(devname, O_RDWR | O_NONBLOCK) succeeds
    currentInput: Option<int>,  // VIDIOC_G_INPUT: the current input, None when the ioctl fails
    stale: int,                 // what the uninitialised `input` holds when VIDIOC_G_INPUT fails
    channelExists: bool,        // VIDIOC_ENUMINPUT on the requested channel succeeds (list_input)
    selectOk: bool)             // VIDIOC_S_INPUT succeeds

  /** The value the source compares with the requested channel. */
  function InputAsRead(env: ChanEnv): int
  {
    match env.currentInput
    case Some(i) => i
    case None => env.stale
  }

  /**
   * `grab_set_chan` as written: when VIDIOC_G_INPUT fails, the uninitialised
   * `input` is compared with the requested channel.
   */
  function GrabSetChanAsWritten(env: ChanEnv, ch: int): (ok: bool)
    ensures ok ==> env.statOk && env.isCharDevice && env.openOk
    ensures ok && InputAsRead(env) != ch ==> env.channelExists && env.selectOk
  {
    if !env.statOk || !env.isCharDevice || !env.openOk then false
    else if InputAsRead(env) != ch then env.channelExists && env.selectOk
    else true
  }

  /**
   * `grab_set_chan` with an unknown current input treated as "not the
   * requested one": the channel is then listed and selected.
   */
  function GrabSetChan(env: ChanEnv, ch: int): (ok: bool)
    ensures ok <==>
      && env.statOk && env.isCharDevice && env.openOk
      && (env.currentInput == Some(ch) || (env.channelExists && env.selectOk))
  {
    if !env.statOk || !env.isCharDevice || !env.openOk then false
    else if env.currentInput != Some(ch) then env.channelExists && env.selectOk
    else true
  }

  /** The two agree whenever VIDIOC_G_INPUT succeeds. */
  lemma GrabSetChanAgrees(env: ChanEnv, ch: int)
    requires env.currentInput.Some?
    ensures GrabSetChanAsWritten(env, ch) == GrabSetChan(env, ch)
  {
  }

  /**
   * As written, a failed VIDIOC_G_INPUT whose stale `input` happens to equal
   * the requested channel reports success for a channel that does not exist
   * and was never selected.
   */
  lemma StaleInputAcceptsMissingChannel()
    ensures var env := ChanEnv(true, true, true, None, 2, false, false);
      GrabSetChanAsWritten(env, 2) && !GrabSetChan(env, 2)
  {
  }

  // ---------------------------------------------------------------------
  // Streams, packets and frames

  /** `codec_type` of a stream. */
  datatype MediaType = VideoMedia | AudioMedia | OtherMedia

  /** What `avcodec_decode_video2` makes of a packet. */
  datatype Decoded = DecodeError | Unfinished | Finished(pixels: seq<byte>)

  /** One `av_read_frame` call: a negative result, or a packet of some stream. */
  datatype ReadResult = ReadError | Packet(streamIndex: int, decoded: Decoded)

  /** A decoded RGB frame with the codec's dimensions. */
  datatype Frame = Frame(pixels: seq<byte>, width: int, height: int)

  /** `idx` is the smallest index of a video stream, or -1 when there is none. */
  ghost predicate IsFirstVideo(streams: seq<MediaType>, idx: int)
  {
    && -1 <= idx < |streams|
    && (idx == -1 <==> forall i :: 0 <= i < |streams| ==> streams[i] != VideoMedia)
    && (idx >= 0 ==> streams[idx] == VideoMedia && forall i :: 0 <= i < idx ==> streams[i] != VideoMedia)
  }

  /** The stream search loop of `prepare_videodev`. */
  method FindVideoStream(streams: seq<MediaType>) returns (videoStream: int)
    ensures -1 <= videoStream < |streams|
    ensures videoStream == -1 <==> forall i :: 0 <= i < |streams| ==> streams[i] != VideoMedia
    ensures videoStream >= 0 ==>
      streams[videoStream] == VideoMedia && forall i :: 0 <= i < videoStream ==> streams[i] != VideoMedia
  {
    videoStream := -1;
    var i := 0;
    while i < |streams|
      invariant 0 <= i <= |streams|
      invariant forall j :: 0 <= j < i ==> streams[j] != VideoMedia
    {
      if streams[i] == VideoMedia {
        videoStream := i;
        return;
      }
      i := i + 1;
    }
  }

  /** The results of the ffmpeg calls `prepare_videodev` makes. */
  datatype DeviceEnv = DeviceEnv(
    v4l2Found: bool,              // av_find_input_format("video4linux2")
    chan: ChanEnv,                // the calls of grab_set_chan
    openOk: bool,                 // avformat_open_input
    infoOk: bool,                 // avformat_find_stream_info
    streams: seq<MediaType>,      // the codec type of each stream
    decoderFound: bool,           // avcodec_find_decoder
    codecOk: bool,                // avcodec_open2
    width: int,                   // the codec context's width ...
    height: int,                  // ... and height
    packets: seq<ReadResult>)     // what av_read_frame will return on the opened input

  /** Where `prepare_videodev` stops. */
  datatype Stage = NoV4l2 | ChannelFailed | OpenFailed | NoStreamInfo | NoVideoStream | NoDecoder | CodecFailed | Ready

  /** Some stream is a video stream. */
  predicate HasVideo(streams: seq<MediaType>)
  {
    exists i :: 0 <= i < |streams| && streams[i] == VideoMedia
  }

  /**
   * The exit `prepare_videodev` takes: its checks in the order of the source,
   * the channel selected by `grab_set_chan` as written.
   */
  function PrepareStage(env: DeviceEnv, channel: int): (s: Stage)
    ensures s == NoV4l2 <==> !env.v4l2Found
    ensures s !in {NoV4l2, ChannelFailed} <==> env.v4l2Found && GrabSetChanAsWritten(env.chan, channel)
    ensures s !in {NoV4l2, ChannelFailed, OpenFailed, NoStreamInfo, NoVideoStream} ==> HasVideo(env.streams)
    ensures s == Ready <==>
      && env.v4l2Found && GrabSetChanAsWritten(env.chan, channel) && env.openOk && env.infoOk
      && HasVideo(env.streams) && env.decoderFound && env.codecOk
  {
    if !env.v4l2Found then NoV4l2
    else if !GrabSetChanAsWritten(env.chan, channel) then ChannelFailed
    else if !env.openOk then OpenFailed
    else if !env.infoOk then NoStreamInfo
    else if !HasVideo(env.streams) then NoVideoStream
    else if !env.decoderFound then NoDecoder
    else if !env.codecOk then CodecFailed
    else Ready
  }

  /**
   * Through the stale `input` of `grab_set_chan`, `prepare_videodev` goes on
   * to open the device and can succeed although the requested channel does not
   * exist and was never selected.
   */
  lemma PreparesMissingChannel(streams: seq<MediaType>, w: int, h: int, packets: seq<ReadResult>)
    requires HasVideo(streams)
    ensures var chan := ChanEnv(true, true, true, None, 2, false, false);
      && !GrabSetChan(chan, 2)
      && PrepareStage(DeviceEnv(true, chan, true, true, streams, true, true, w, h, packets), 2) == Ready
  {
  }

  // ---------------------------------------------------------------------
  // capture_frame

  /** One `av_read_frame`: the next result, or a negative one (end of input) once nothing is left. */
  function NextRead(packets: seq<ReadResult>): (ReadResult, seq<ReadResult>)
  {
    if packets == [] then (ReadError, []) else (packets[0], packets[1..])
  }

  /**
   * The read loop of `capture_frame` from the state `(i, r)`: it reads again
   * while fewer than `MAX_READING_TRIES` calls were made and the last result
   * was negative. The result is the last read, the results left, and the
   * final count of `av_read_frame` calls.
   */
  function ReadLoop(packets: seq<ReadResult>, i: nat, r: ReadResult): (out: (ReadResult, seq<ReadResult>, nat))
    requires i <= MAX_READING_TRIES
    ensures i <= out.2 <= MAX_READING_TRIES
    decreases MAX_READING_TRIES - i
  {
    if i < MAX_READING_TRIES && r.ReadError? then
      var (next, rest) := NextRead(packets);
      ReadLoop(rest, i + 1, next)
    else (r, packets, i)
  }

  /**
   * `capture_frame(&w, &h)` on a device in the given state: the frame, the
   * results left, and the number of `av_read_frame` calls.
   */
  function Grab(prepared: bool, videoStream: int, width: int, height: int, packets: seq<ReadResult>)
    : (r: (Option<Frame>, seq<ReadResult>, nat))
    ensures r.2 <= MAX_READING_TRIES
    ensures r.0.Some? ==> r.0.value.width == width && r.0.value.height == height
  {
    if !prepared then (None, packets, 0)
    else
      var (res, rest, calls) := ReadLoop(packets, 0, ReadError);
      match res
      case ReadError => (None, rest, calls)
      case Packet(idx, dec) =>
        if idx == videoStream && dec.Finished? then (Some(Frame(dec.pixels, width, height)), rest, calls)
        else (None, rest, calls)
  }

  /**
   * The read loop stops at the first packet, after errors only, and uses up
   * exactly what it read; when it finds none it has made every attempt.
   */
  lemma {:induction false} ReadLoopStops(packets: seq<ReadResult>, i: nat)
    requires i < MAX_READING_TRIES
    ensures var (res, rest, calls) := ReadLoop(packets, i, ReadError);
      && i < calls
      && (res.Packet? ==>
           && calls - i <= |packets| && packets[calls - i - 1] == res && rest == packets[calls - i..]
           && forall j :: 0 <= j < calls - i - 1 ==> packets[j].ReadError?)
      && (res.ReadError? ==>
           && calls == MAX_READING_TRIES
           && forall j :: 0 <= j < |packets| && j < MAX_READING_TRIES - i ==> packets[j].ReadError?)
    decreases MAX_READING_TRIES - i
  {
    var (next, rest) := NextRead(packets);
    if next.ReadError? && i + 1 < MAX_READING_TRIES {
      ReadLoopStops(rest, i + 1);
      var (res, left, calls) := ReadLoop(rest, i + 1, ReadError);
      if res.Packet? {
        assert rest[calls - i - 2] == packets[calls - i - 1];
        assert rest[calls - i - 1..] == packets[calls - i..];
      } else {
        forall j | 0 <= j < |packets| && j < MAX_READING_TRIES - i ensures packets[j].ReadError? {
          if j > 0 {
            assert rest[j - 1] == packets[j];
          }
        }
      }
    }
  }

  /**
   * `capture_frame` returns a frame only for a finished decode of a packet
   * of the video stream, read after errors only; when every attempt fails
   * it returns nothing after exactly `MAX_READING_TRIES` calls.
   */
  lemma GrabReturnsVideoFrames(prepared: bool, videoStream: int, width: int, height: int, packets: seq<ReadResult>)
    ensures var (f, rest, calls) := Grab(prepared, videoStream, width, height, packets);
      && (!prepared ==> f.None? && rest == packets && calls == 0)
      && (f.Some? ==>
           && 1 <= calls <= |packets| && rest == packets[calls..]
           && packets[calls - 1] == Packet(videoStream, Finished(f.value.pixels))
           && forall j :: 0 <= j < calls - 1 ==> packets[j].ReadError?)
      && (prepared && (forall j :: 0 <= j < |packets| && j < MAX_READING_TRIES ==> packets[j].ReadError?) ==>
           f.None? && calls == MAX_READING_TRIES)
  {
    if prepared {
      ReadLoopStops(packets, 0);
      var (res, rest, calls) := ReadLoop(packets, 0, ReadError);
      if res.Packet? {
        assert packets[calls - 1].Packet?;
      }
    }
  }

  // ---------------------------------------------------------------------
  // The device

  /** The module-level state of capture.c. */
  class VideoDevice {
    /** `videodev_prepared`. */
    var prepared: bool
    /** `videoStream`. */
    var videoStream: int
    /** `pFormatCtx != NULL`: the input is open. */
    var inputOpen: bool
    /** The codec context has been opened with `avcodec_open2`. */
    var codecOpen: bool
    /** `pCodecCtx->width` and `pCodecCtx->height`. */
    var width: int
    var height: int
    /** What `av_read_frame` will return on the open input. */
    var packets: seq<ReadResult>
    /** The number of `av_read_frame` calls made so far. */
    ghost var readCalls: nat

    /** The state at program start: the globals are zero. */
    constructor ()
      ensures !prepared && !inputOpen && !codecOpen
      ensures videoStream == 0 && width == 0 && height == 0 && packets == [] && readCalls == 0
    {
      prepared, inputOpen, codecOpen := false, false, false;
      videoStream, width, height := 0, 0, 0;
      packets := [];
      readCalls := 0;
    }

    /**
     * `prepare_videodev(videodev, channel)`. Once a video stream is found the
     * codec context is that stream's, not yet opened, whatever the outcome of
     * the decoder and codec checks that follow.
     */
    method Prepare(env: DeviceEnv, channel: int) returns (ok: bool)
      modifies this
      ensures ok <==> PrepareStage(env, channel) == Ready
      ensures ok ==> prepared && inputOpen && codecOpen
      ensures !ok ==> prepared == old(prepared)
      ensures PrepareStage(env, channel) in {NoV4l2, ChannelFailed, OpenFailed, NoStreamInfo, NoVideoStream} ==>
        codecOpen == old(codecOpen) && width == old(width) && height == old(height)
      ensures PrepareStage(env, channel) in {NoDecoder, CodecFailed, Ready} ==>
        width == env.width && height == env.height
      ensures PrepareStage(env, channel) in {NoDecoder, CodecFailed} ==> !codecOpen
      ensures PrepareStage(env, channel) in {NoV4l2, ChannelFailed} ==>
        inputOpen == old(inputOpen) && packets == old(packets) && videoStream == old(videoStream)
      ensures PrepareStage(env, channel) == OpenFailed ==>
        !inputOpen && packets == old(packets) && videoStream == old(videoStream)
      ensures PrepareStage(env, channel) !in {NoV4l2, ChannelFailed, OpenFailed} ==>
        inputOpen && packets == env.packets
      ensures PrepareStage(env, channel) == NoStreamInfo ==> videoStream == old(videoStream)
      ensures PrepareStage(env, channel) !in {NoV4l2, ChannelFailed, OpenFailed, NoStreamInfo} ==>
        IsFirstVideo(env.streams, videoStream)
      ensures readCalls == old(readCalls)
    {
      if !env.v4l2Found {
        return false;
      }
      if !GrabSetChanAsWritten(env.chan, channel) {
        return false;
      }
      if !env.openOk {
        // avformat_open_input frees the context and sets it to NULL on failure
        inputOpen := false;
        return false;
      }
      inputOpen, packets := true, env.packets;
      if !env.infoOk {
        return false;
      }
      videoStream := FindVideoStream(env.streams);
      if videoStream == -1 {
        return false;
      }
      codecOpen, width, height := false, env.width, env.height;
      if !env.decoderFound {
        return false;
      }
      if !env.codecOk {
        return false;
      }
      codecOpen := true;
      prepared := true;
      return true;
    }

    /** `av_read_frame(pFormatCtx, &packet)`. */
    method ReadFrame() returns (r: ReadResult)
      modifies this`packets, this`readCalls
      ensures (r, packets) == NextRead(old(packets))
      ensures readCalls == old(readCalls) + 1
    {
      readCalls := readCalls + 1;
      if packets == [] {
        return ReadError;
      }
      r := packets[0];
      packets := packets[1..];
    }

    /** `capture_frame(&w, &h)`: the frame, whose size is what `*w` and `*h` receive. */
    method CaptureFrame() returns (f: Option<Frame>)
      modifies this`packets, this`readCalls
      ensures var (g, rest, calls) := Grab(prepared, videoStream, width, height, old(packets));
        f == g && packets == rest && readCalls == old(readCalls) + calls
    {
      if !prepared {
        return None;
      }
      var i, r := 0, ReadError;
      while i < MAX_READING_TRIES && r.ReadError?
        invariant 0 <= i <= MAX_READING_TRIES
        invariant readCalls == old(readCalls) + i
        invariant ReadLoop(packets, i, r) == ReadLoop(old(packets), 0, ReadError)
        decreases MAX_READING_TRIES - i
      {
        r := ReadFrame();
        i := i + 1;
      }
      if r.ReadError? {
        return None;
      }
      if r.streamIndex == videoStream && r.decoded.Finished? {
        f := Some(Frame(r.decoded.pixels, width, height));
      } else {
        f := None;
      }
    }

    /** `free_videodev()`. */
    method Free()
      modifies this
      ensures !old(prepared) ==> prepared == old(prepared) && inputOpen == old(inputOpen) && codecOpen == old(codecOpen)
      ensures !prepared
      ensures old(prepared) ==> !inputOpen && !codecOpen
      ensures videoStream == old(videoStream) && width == old(width) && height == old(height)
      ensures packets == old(packets) && readCalls == old(readCalls)
    {
      if !prepared {
        return;
      }
      inputOpen, codecOpen := false, false;
      prepared := false;
    }
  }

  /**
   * A preparation that fails after the input was opened leaves the flag at 0,
   * so `free_videodev` does nothing and the input stays open.
   */
  method FailedPrepareKeepsInputOpen(env: DeviceEnv, channel: int) returns (stillOpen: bool)
    requires PrepareStage(env, channel) in {NoStreamInfo, NoVideoStream, NoDecoder, CodecFailed}
    ensures stillOpen
  {
    var dev := new VideoDevice();
    var ok := dev.Prepare(env, channel);
    dev.Free();
    stillOpen := dev.inputOpen;
  }

  // ---------------------------------------------------------------------
  // list_all_inputs

  /** `check_input(fd, i)`: VIDIOC_ENUMINPUT succeeds for index `i`. */
  predicate HasInput(enumInput: seq<bool>, i: int)
  {
    0 <= i < |enumInput| && enumInput[i]
  }

  /**
   * `list_all_inputs(dev)`: the indices passed to `list_input`, in order.
   * Nothing is listed when the device cannot be opened; otherwise the
   * indices 0, 1, 2, ... up to the first one that `check_input` rejects.
   */
  method ListAllInputs(openOk: bool, enumInput: seq<bool>) returns (listed: seq<int>)
    ensures !openOk ==> listed == []
    ensures forall j :: 0 <= j < |listed| ==> listed[j] == j && HasInput(enumInput, j)
    ensures openOk ==> !HasInput(enumInput, |listed|)
  {
    listed := [];
    if !openOk {
      return;
    }
    var i, l := 0, true;
    while l
      invariant 0 <= i <= |enumInput|
      invariant |listed| == i
      invariant forall j :: 0 <= j < i ==> listed[j] == j && HasInput(enumInput, j)
      invariant !l ==> !HasInput(enumInput, i)
      decreases |enumInput| - i + (if l then 1 else 0)
    {
      l := HasInput(enumInput, i);
      if l {
        listed := listed + [i];
        i := i + 1;
      }
    }
  }
}
