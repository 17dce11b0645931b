/** The per-call session of the bridge: the state one caller-leg connection
    keeps (streamSid, the inbound chunk list buf16 and its counter frames,
    the outbound buffer out16), the inbound commit cadence toward the
    speech service and the outbound 160-sample frame pacing toward the
    caller. Each socket is reduced to its ready state and the list of
    messages written to it; each event handler runs to completion as one
    method call. */
module Bridge {
  import opened Pcm
  import opened MuLaw
  import opened Resample

  /** Inbound media units per commit cycle. */
  const CommitThreshold := 25
  /** Samples per outbound frame (20 ms at 8 kHz). */
  const FrameSamples := 160

  /** A socket's readyState. */
  datatype LegState = Connecting | Open | Closing | Closed

  /** The readyState after close(): a socket that is connecting or open
      starts closing; one already closing or closed is left as it is. */
  function RequestClose(st: LegState): LegState
  {
    match st
    case Connecting => Closing
    case Open => Closing
    case Closing => Closing
    case Closed => Closed
  }

  /** A parsed caller-leg message. Media carries the bytes of a non-empty
      base64 payload; Start carries the stream identifier, "" when it is
      missing. Anything else (another event, a media event without a
      payload, unparsable text) is CallerOther. */
  datatype CallerEvent = Start(sid: string) | Media(payload: seq<Byte>) | Stop | CallerOther

  /** A parsed speech-service message: an audio delta with the bytes of its
      non-empty base64 text, or anything else. */
  datatype ServiceEvent = AudioDelta(delta: seq<Byte>) | ServiceOther

  /** Messages the session writes to the speech service: the configuration
      (its content comes from the environment), the audio append with the
      bytes of its base64 PCM, the buffer commit and the response request. */
  datatype ServiceMsg = SessionUpdate | AudioAppend(audio: seq<Byte>) | AudioCommit | ResponseCreate

  /** A media message to the caller leg, with the bytes of its base64 payload. */
  datatype CallerMsg = MediaFrame(streamSid: string, payload: seq<Byte>)

  /** The samples carried by the audio appends of a service log, in order. */
  function SentAudio(log: seq<ServiceMsg>): seq<Sample>
  {
    if log == [] then []
    else
      SentAudio(log[..|log| - 1]) +
      match log[|log| - 1]
      case AudioAppend(a) => FromLE(a)
      case _ => []
  }

  /** One commit cycle: append, commit, response request. */
  function Cycle(audio: seq<Byte>): seq<ServiceMsg>
  {
    [AudioAppend(audio), AudioCommit, ResponseCreate]
  }

  /** A run of whole commit cycles. */
  predicate CommitCycles(c: seq<ServiceMsg>)
  {
    c == [] ||
    (|c| >= 3 && c[|c| - 3].AudioAppend? && c[|c| - 2] == AudioCommit && c[|c| - 1] == ResponseCreate &&
     CommitCycles(c[..|c| - 3]))
  }

  /** The service log: nothing, or the configuration followed by whole
      commit cycles. */
  predicate ServiceLogShape(log: seq<ServiceMsg>)
  {
    log == [] || (log[0] == SessionUpdate && CommitCycles(log[1..]))
  }

  /** One more message adds the audio it carries. */
  lemma SentAudioPush(log: seq<ServiceMsg>, m: ServiceMsg)
    ensures SentAudio(log + [m]) == SentAudio(log) + if m.AudioAppend? then FromLE(m.audio) else []
  {
    assert (log + [m])[..|log|] == log;
  }

  /** A commit cycle adds exactly the audio of its append. */
  lemma CycleAudio(log: seq<ServiceMsg>, audio: seq<Byte>)
    ensures SentAudio(log + Cycle(audio)) == SentAudio(log) + FromLE(audio)
  {
    var l1 := log + [AudioAppend(audio)];
    var l2 := l1 + [AudioCommit];
    assert log + Cycle(audio) == l2 + [ResponseCreate];
    SentAudioPush(log, AudioAppend(audio));
    SentAudioPush(l1, AudioCommit);
    SentAudioPush(l2, ResponseCreate);
  }

  /** A commit cycle extends a well-shaped, started log. */
  lemma CycleShape(log: seq<ServiceMsg>, audio: seq<Byte>)
    requires ServiceLogShape(log) && log != []
    ensures ServiceLogShape(log + Cycle(audio))
  {
    var c := log[1..] + Cycle(audio);
    assert (log + Cycle(audio))[1..] == c;
    assert c[..|c| - 3] == log[1..];
    assert CommitCycles(c);
  }

  /** Buffering one more chunk keeps the audio accounting. */
  lemma BufferStep(sent: seq<Sample>, buf: seq<seq<Sample>>, captured: seq<Sample>, chunk: seq<Sample>)
    requires sent + Flatten(buf) == captured
    ensures sent + Flatten(buf + [chunk]) == captured + chunk
  {
    FlattenPush(buf, chunk);
  }

  /** A flush of the whole buffer as one cycle keeps the audio accounting
      with an empty buffer. */
  lemma FlushStep(log: seq<ServiceMsg>, buf: seq<seq<Sample>>, captured: seq<Sample>, joined: seq<Sample>, audio: seq<Byte>)
    requires ServiceLogShape(log) && log != []
    requires SentAudio(log) + Flatten(buf) == captured
    requires joined == Flatten(buf) && audio == ToLE(joined)
    ensures ServiceLogShape(log + Cycle(audio))
    ensures SentAudio(log + Cycle(audio)) + Flatten([]) == captured
  {
    CycleAudio(log, audio);
    CycleShape(log, audio);
    SamplesRoundTrip(joined);
  }

  /** The inbound path of a media unit: mu-law decode, then up8to16. */
  method InboundChunk(payload: seq<Byte>) returns (pcm16: seq<Sample>)
    ensures pcm16 == Upsample(DecodeAll(payload))
  {
    var pcm8 := MulawDecode(payload);
    pcm16 := Up8To16(pcm8);
  }

  /** The 160-sample frames of an 8 kHz view, in order. */
  function FrameSlices(pcm8: seq<Sample>): seq<seq<Sample>>
  {
    seq(|pcm8| / FrameSamples, f requires 0 <= f < |pcm8| / FrameSamples =>
      pcm8[FrameSamples * f .. FrameSamples * (f + 1)])
  }

  /** The media messages one pacing pass sends: each frame companded and
      tagged with the stream identifier. */
  function PacedFrames(sid: string, pcm8: seq<Sample>): seq<CallerMsg>
  {
    var slices := FrameSlices(pcm8);
    seq(|slices|, f requires 0 <= f < |slices| => MediaFrame(sid, CompandAll(slices[f])))
  }

  /** Every caller frame is 160 bytes and carries a stream identifier. */
  ghost predicate FramesWellFormed(log: seq<CallerMsg>)
  {
    forall m :: m in log ==> |m.payload| == FrameSamples && m.streamSid != ""
  }

  /** Every paced frame is 160 bytes and carries the stream identifier. */
  lemma PacedShape(sid: string, pcm8: seq<Sample>)
    ensures |PacedFrames(sid, pcm8)| == |pcm8| / FrameSamples
    ensures forall m :: m in PacedFrames(sid, pcm8) ==> |m.payload| == FrameSamples && m.streamSid == sid
  {
  }

  /** A pacing pass under a set stream identifier keeps the caller log
      well formed. */
  lemma PacedKeepsFrames(log: seq<CallerMsg>, sid: string, pcm8: seq<Sample>)
    requires FramesWellFormed(log) && sid != ""
    ensures FramesWellFormed(log + PacedFrames(sid, pcm8))
  {
    PacedShape(sid, pcm8);
  }

  /** The pacing loop of the delta handler: frame f is samples 160f to
      160f+159 of the 8 kHz view, companded, sent in order. */
  method PaceFrames(sid: string, pcm8: seq<Sample>) returns (batch: seq<CallerMsg>)
    ensures batch == PacedFrames(sid, pcm8)
  {
    var n := |pcm8| / FrameSamples;
    ghost var paced := PacedFrames(sid, pcm8);
    batch := [];
    for f := 0 to n
      invariant batch == paced[..f]
    {
      var frame := pcm8[f * FrameSamples .. (f + 1) * FrameSamples];
      var ulaw := MulawEncode(frame);
      assert paced[..f + 1] == paced[..f] + [MediaFrame(sid, ulaw)];
      batch := batch + [MediaFrame(sid, ulaw)];
    }
    assert paced[..n] == paced;
  }

  /** The first n frames laid end to end are the first 160n samples. */
  lemma {:induction false} SlicesPrefix(pcm8: seq<Sample>, n: nat)
    requires n <= |pcm8| / FrameSamples
    ensures Flatten(FrameSlices(pcm8)[..n]) == pcm8[..FrameSamples * n]
  {
    var sl := FrameSlices(pcm8);
    if n == 0 {
      assert sl[..0] == [];
    } else {
      SlicesPrefix(pcm8, n - 1);
      assert sl[..n][..n - 1] == sl[..n - 1];
      assert pcm8[..FrameSamples * n] == pcm8[..FrameSamples * (n - 1)] + sl[n - 1];
    }
  }

  /** Pacing splits the 8 kHz view exactly: floor(k/160) frames of 160
      samples, then a remainder of k mod 160 samples, which together give
      back the view in order. */
  lemma PacingPartition(pcm8: seq<Sample>)
    ensures |FrameSlices(pcm8)| == |pcm8| / FrameSamples
    ensures forall f :: 0 <= f < |FrameSlices(pcm8)| ==> |FrameSlices(pcm8)[f]| == FrameSamples
    ensures |pcm8[FrameSamples * (|pcm8| / FrameSamples)..]| == |pcm8| % FrameSamples
    ensures Flatten(FrameSlices(pcm8)) + pcm8[FrameSamples * (|pcm8| / FrameSamples)..] == pcm8
  {
    var n := |pcm8| / FrameSamples;
    SlicesPrefix(pcm8, n);
    assert FrameSlices(pcm8)[..n] == FrameSlices(pcm8);
    assert pcm8[..FrameSamples * n] + pcm8[FrameSamples * n..] == pcm8;
  }

  /** After a pass that sent frames, out16 is up8to16 of the 8 kHz
      remainder, so the next delta's 8 kHz view is that remainder with its
      last sample replaced by 0, followed by the new chunk decimated. */
  lemma NextPlayoutView(tail8: seq<Sample>, chunk16: seq<Sample>)
    ensures Downsample(Upsample(tail8) + chunk16) ==
            (if tail8 == [] then [] else tail8[..|tail8| - 1] + [0]) + Downsample(chunk16)
  {
    DownsampleAppend(Upsample(tail8), chunk16);
    DownUp(tail8);
  }

  class Session {
    /** The caller leg's stream identifier; "" until a start event sets it
        (null, undefined and "" are all falsy in the source). */
    var streamSid: string
    /** Upsampled inbound chunks awaiting a commit. */
    var buf16: seq<seq<Sample>>
    /** Inbound media units since the last commit. */
    var frames: nat
    /** 16 kHz outbound samples not yet sent. */
    var out16: seq<Sample>
    /** readyState of the speech-service socket and of the caller socket. */
    var service: LegState
    var caller: LegState
    /** Messages written to each socket, in order. */
    var serviceSent: seq<ServiceMsg>
    var callerSent: seq<CallerMsg>
    /** All inbound audio the session has accepted, upsampled. */
    ghost var captured: seq<Sample>

    /** The session invariant: the counter counts the buffered chunks; the
        service log is the configuration followed by whole commit cycles,
        started exactly when the service leg opened; no inbound audio is
        lost or duplicated (what was appended plus what is buffered is what
        was captured); every caller frame is 160 bytes with a stream id. */
    ghost predicate Valid()
      reads this
    {
      && frames == |buf16|
      && (service == Connecting ==> serviceSent == [])
      && (service == Open ==> serviceSent != [])
      && ServiceLogShape(serviceSent)
      && SentAudio(serviceSent) + Flatten(buf16) == captured
      && FramesWellFormed(callerSent)
    }

    /** A caller-leg connection is accepted: its socket is open and the
        speech-service socket is being opened. */
    constructor ()
      ensures Valid()
      ensures streamSid == "" && buf16 == [] && frames == 0 && out16 == []
      ensures service == Connecting && caller == Open
      ensures serviceSent == [] && callerSent == [] && captured == []
    {
      streamSid, buf16, frames, out16 := "", [], 0, [];
      service, caller := Connecting, Open;
      serviceSent, callerSent := [], [];
      captured := [];
    }

    /** The speech-service socket opens: the configuration is sent. */
    method OnServiceOpen()
      requires Valid() && service == Connecting
      modifies this
      ensures Valid()
      ensures service == Open && serviceSent == [SessionUpdate]
      ensures streamSid == old(streamSid) && buf16 == old(buf16) && frames == old(frames)
      ensures out16 == old(out16) && caller == old(caller) && callerSent == old(callerSent)
      ensures captured == old(captured)
    {
      service := Open;
      serviceSent := serviceSent + [SessionUpdate];
      assert [SessionUpdate][..0] == [];
    }

    /** The effect of one media unit: its audio is decoded, upsampled and
        captured; on the 25th or later buffered unit, and only while the
        service leg is open, the whole buffer goes out as one append
        followed by a commit and a response request, and the buffer and
        counter are reset; otherwise the chunk is buffered and nothing is
        sent, whatever the service leg's state. */
    twostate predicate MediaStep(payload: seq<Byte>)
      reads this
    {
      var pcm16 := Upsample(DecodeAll(payload));
      && captured == old(captured) + pcm16
      && if old(frames) + 1 >= CommitThreshold && service == Open then
           && serviceSent == old(serviceSent) + Cycle(ToLE(Flatten(old(buf16) + [pcm16])))
           && buf16 == [] && frames == 0
         else
           && serviceSent == old(serviceSent)
           && buf16 == old(buf16) + [pcm16] && frames == old(frames) + 1
    }

    /** Buffers one upsampled chunk and counts it. */
    method Buffer(pcm16: seq<Sample>)
      requires Valid()
      modifies this
      ensures Valid()
      ensures buf16 == old(buf16) + [pcm16] && frames == old(frames) + 1
      ensures captured == old(captured) + pcm16
      ensures streamSid == old(streamSid) && service == old(service) && caller == old(caller)
      ensures out16 == old(out16) && serviceSent == old(serviceSent) && callerSent == old(callerSent)
    {
      BufferStep(SentAudio(serviceSent), buf16, captured, pcm16);
      buf16 := buf16 + [pcm16];
      frames := frames + 1;
      captured := captured + pcm16;
    }

    /** Sends everything buffered as one append, then a commit and a
        response request, and resets the buffer and the counter. */
    method Flush()
      requires Valid() && service == Open
      modifies this
      ensures Valid()
      ensures serviceSent == old(serviceSent) + Cycle(ToLE(Flatten(old(buf16))))
      ensures buf16 == [] && frames == 0
      ensures captured == old(captured)
      ensures streamSid == old(streamSid) && service == old(service) && caller == old(caller)
      ensures out16 == old(out16) && callerSent == old(callerSent)
    {
      var joined := CatI16(buf16);
      var audio := I16ToB64(joined);
      FlushStep(serviceSent, buf16, captured, joined, audio);
      serviceSent := serviceSent + Cycle(audio);
      buf16, frames := [], 0;
    }

    /** A media unit from the caller leg. */
    method OnMedia(payload: seq<Byte>)
      requires Valid()
      modifies this
      ensures Valid()
      ensures MediaStep(payload)
      ensures streamSid == old(streamSid) && service == old(service) && caller == old(caller)
      ensures out16 == old(out16) && callerSent == old(callerSent)
    {
      var pcm16 := InboundChunk(payload);
      Buffer(pcm16);
      if frames >= CommitThreshold && service == Open {
        Flush();
      }
    }

    /** A message on the caller leg. Start records the stream identifier,
        Media is handled as above, Stop closes the service leg, and anything
        else is ignored. Nothing is sent to the caller leg. */
    method OnCallerMessage(e: CallerEvent)
      requires Valid()
      modifies this
      ensures Valid()
      ensures out16 == old(out16) && caller == old(caller) && callerSent == old(callerSent)
      ensures streamSid == if e.Start? then e.sid else old(streamSid)
      ensures service == if e.Stop? then RequestClose(old(service)) else old(service)
      ensures !e.Media? ==>
                buf16 == old(buf16) && frames == old(frames) &&
                serviceSent == old(serviceSent) && captured == old(captured)
      ensures e.Media? ==> MediaStep(e.payload)
    {
      match e
      case Start(sid) =>
        streamSid := sid;
      case Media(payload) =>
        OnMedia(payload);
      case Stop =>
        service := RequestClose(service);
      case CallerOther =>
    }

    /** The caller socket closes: the service leg is closed too. */
    method OnCallerClose()
      requires Valid()
      modifies this
      ensures Valid()
      ensures caller == Closed && service == RequestClose(old(service))
      ensures streamSid == old(streamSid) && buf16 == old(buf16) && frames == old(frames)
      ensures out16 == old(out16) && serviceSent == old(serviceSent) && callerSent == old(callerSent)
      ensures captured == old(captured)
    {
      caller := Closed;
      service := RequestClose(service);
    }

    /** Sends every complete frame of the 8 kHz view and keeps the
        remainder, upsampled, as the new outbound buffer. */
    method SendFrames(pcm8: seq<Sample>)
      requires Valid() && streamSid != ""
      modifies this
      ensures Valid()
      ensures callerSent == old(callerSent) + PacedFrames(streamSid, pcm8)
      ensures out16 == Upsample(pcm8[FrameSamples * (|pcm8| / FrameSamples)..])
      ensures |out16| == 2 * (|pcm8| % FrameSamples)
      ensures streamSid == old(streamSid) && buf16 == old(buf16) && frames == old(frames)
      ensures service == old(service) && caller == old(caller) && serviceSent == old(serviceSent)
      ensures captured == old(captured)
    {
      var n := |pcm8| / FrameSamples;
      var batch := PaceFrames(streamSid, pcm8);
      PacedKeepsFrames(callerSent, streamSid, pcm8);
      callerSent := callerSent + batch;
      var remain := |pcm8| - n * FrameSamples;
      assert |pcm8| - remain == FrameSamples * n;
      var tail8 := pcm8[|pcm8| - remain..];
      out16 := Up8To16(tail8);
    }

    /** A message on the speech-service leg. An audio delta is appended to
        out16 and the whole buffer is decimated to 8 kHz. When at least one
        160-sample frame fits, the stream identifier is set and the caller
        leg is open, every complete frame is sent in order, companded and
        tagged, and out16 becomes up8to16 of the 8 kHz remainder; otherwise
        nothing is sent and out16 keeps the whole concatenation. */
    method OnServiceMessage(e: ServiceEvent)
      requires Valid()
      modifies this
      ensures Valid()
      ensures streamSid == old(streamSid) && buf16 == old(buf16) && frames == old(frames)
      ensures service == old(service) && caller == old(caller) && serviceSent == old(serviceSent)
      ensures captured == old(captured)
      ensures e.ServiceOther? ==> out16 == old(out16) && callerSent == old(callerSent)
      ensures e.AudioDelta? ==>
                var pcm8 := Downsample(old(out16) + FromLE(e.delta));
                var n := |pcm8| / FrameSamples;
                if n > 0 && streamSid != "" && caller == Open then
                  && callerSent == old(callerSent) + PacedFrames(streamSid, pcm8)
                  && out16 == Upsample(pcm8[FrameSamples * n..])
                else
                  && callerSent == old(callerSent)
                  && out16 == old(out16) + FromLE(e.delta)
    {
      match e
      case AudioDelta(delta) =>
        var chunk16 := B64ToI16(delta);
        var joined := CatI16([out16, chunk16]);
        FlattenOne(out16);
        FlattenPush([out16], chunk16);
        out16 := joined;
        var pcm8 := Down16To8(out16);
        var n := |pcm8| / FrameSamples;
        if n > 0 && streamSid != "" && caller == Open {
          SendFrames(pcm8);
        }
      case ServiceOther =>
    }

    /** The speech-service socket closes: only its state changes (the
        source logs the event and does not close the caller leg). */
    method OnServiceClose()
      requires Valid()
      modifies this
      ensures Valid()
      ensures service == Closed
      ensures streamSid == old(streamSid) && buf16 == old(buf16) && frames == old(frames)
      ensures out16 == old(out16) && caller == old(caller)
      ensures serviceSent == old(serviceSent) && callerSent == old(callerSent)
      ensures captured == old(captured)
    {
      service := Closed;
    }
  }

  /** Feeds count media units to a session whose service leg is open:
      nothing is sent and each unit buffers its upsampled audio. */
  method FeedUnits(s: Session, unit: seq<Byte>, count: nat)
    requires s.Valid() && s.service == Open && s.frames + count < CommitThreshold
    modifies s
    ensures s.Valid() && s.service == Open && s.frames == old(s.frames) + count
    ensures s.serviceSent == old(s.serviceSent) && s.callerSent == old(s.callerSent)
    ensures |Flatten(s.buf16)| == |Flatten(old(s.buf16))| + count * (2 * |unit|)
    ensures s.buf16 == old(s.buf16) + seq(count, _ => Upsample(DecodeAll(unit)))
    ensures s.streamSid == old(s.streamSid) && s.out16 == old(s.out16) && s.caller == old(s.caller)
  {
    ghost var chunk: seq<Sample> := Upsample(DecodeAll(unit));
    assert |chunk| == 2 * |unit|;
    var i := 0;
    while i < count
      invariant 0 <= i <= count
      invariant s.Valid() && s.service == Open && s.frames == old(s.frames) + i
      invariant s.serviceSent == old(s.serviceSent) && s.callerSent == old(s.callerSent)
      invariant |Flatten(s.buf16)| == |Flatten(old(s.buf16))| + i * |chunk|
      invariant s.buf16 == old(s.buf16) + seq(i, _ => chunk)
      invariant s.streamSid == old(s.streamSid) && s.out16 == old(s.out16) && s.caller == old(s.caller)
    {
      ghost var before := s.buf16;
      s.OnCallerMessage(Media(unit));
      assert s.buf16 == before + [chunk];
      FlattenAppend(before, [chunk]);
      assert [chunk][..0] == [];
      assert (i + 1) * |chunk| == i * |chunk| + |chunk|;
      assert seq(i + 1, _ => chunk) == seq(i, _ => chunk) + [chunk];
      i := i + 1;
    }
  }

  /** n copies of a chunk, then one more: n + 1 copies, laid end to end
      in (n + 1) times the chunk's length. */
  lemma CadenceAudio(chunk: seq<Sample>, before: seq<seq<Sample>>, n: nat)
    requires before == seq(n, _ => chunk) && |Flatten(before)| == n * |chunk|
    ensures before + [chunk] == seq(n + 1, _ => chunk)
    ensures |Flatten(before + [chunk])| == (n + 1) * |chunk|
  {
    assert forall i | 0 <= i < n + 1 :: (before + [chunk])[i] == chunk;
    FlattenPush(before, chunk);
    assert (n + 1) * |chunk| == n * |chunk| + |chunk|;
  }

  /** Twenty-five media units of k bytes each after the service leg opens:
      the configuration, then one append carrying the 25 upsampled units
      in order (25 * 2k samples, 4 bytes per caller byte), one commit and
      one response request; nothing is left
      buffered and nothing goes to the caller. */
  method CommitCadence(unit: seq<Byte>) returns (sent: seq<ServiceMsg>, buffered: nat, toCaller: nat)
    ensures |sent| == 4 && sent[0] == SessionUpdate && sent[1].AudioAppend?
    ensures sent[2] == AudioCommit && sent[3] == ResponseCreate
    ensures |sent[1].audio| == CommitThreshold * 4 * |unit|
    ensures sent[1].audio == ToLE(Flatten(seq(CommitThreshold, _ => Upsample(DecodeAll(unit)))))
    ensures buffered == 0 && toCaller == 0
  {
    var s := new Session();
    s.OnServiceOpen();
    FeedUnits(s, unit, CommitThreshold - 1);
    ghost var before := s.buf16;
    ghost var chunk: seq<Sample> := Upsample(DecodeAll(unit));
    s.OnCallerMessage(Media(unit));
    assert s.serviceSent == [SessionUpdate] + Cycle(ToLE(Flatten(before + [chunk])));
    assert before == seq(CommitThreshold - 1, _ => chunk);
    CadenceAudio(chunk, before, CommitThreshold - 1);
    sent := s.serviceSent;
    buffered := |s.buf16|;
    toCaller := |s.callerSent|;
  }
}
