/**
 * The raw AAC scanner: get_aacinfo skips an ID3v2 tag at the start of the
 * file, scans byte by byte for the first ADTS syncword, and hands the rest of
 * the file to aac_parse_adts, which walks the ADTS frames one after another,
 * counting them and adding up their lengths.
 *
 * The file is a byte sequence. The source's Buffer is an index into it: the
 * bytes from the index to the end of the file are the buffered bytes, so a
 * request for n bytes succeeds exactly when n bytes remain, and consuming n
 * bytes moves the index on by n.
 *
 * ParseAdts is the corrected frame walk, proved against the specification
 * function Walk: it stops where fewer than six header bytes remain and at a
 * zero frame length. AsWrittenPass models one pass of the source's loop as
 * written, with the two ways it goes wrong.
 */
module Aac {
  import opened Wrappers
  import opened ByteOrder
  import opened AacHeaders

  // ---------------------------------------------------------------------
  // The frame walk as a specification
  // ---------------------------------------------------------------------

  /** A complete six-byte ADTS header starting with a syncword lies at pos. */
  predicate HeaderAt(data: seq<byte>, pos: nat)
  {
    pos + AdtsHeaderBytes <= |data| && SyncAt(data, pos)
  }

  /**
   * The 13-bit frame_length field of the header at pos, taken from its
   * bytes 3, 4 and 5 as the header decoder takes it.
   */
  function FrameLengthAt(data: seq<byte>, pos: nat): (len: nat)
    requires pos + AdtsHeaderBytes <= |data|
    ensures len < Two13
  {
    FrameLengthField(data[pos + 3], data[pos + 4], data[pos + 5])
  }

  /** An accepted frame lies at pos: a header whose nonzero length fits in the rest of the file. */
  predicate FrameAt(data: seq<byte>, pos: nat)
  {
    HeaderAt(data, pos) && 0 < FrameLengthAt(data, pos) <= |data| - pos
  }

  /** The lengths of the frames accepted one after another from pos on. */
  function Frames(data: seq<byte>, pos: nat): seq<nat>
    decreases |data| - pos
  {
    if FrameAt(data, pos) then
      [FrameLengthAt(data, pos)] + Frames(data, pos + FrameLengthAt(data, pos))
    else
      []
  }

  /** The sum of a sequence of lengths. */
  function Sum(s: seq<nat>): nat
  {
    if s == [] then 0 else s[0] + Sum(s[1..])
  }

  /**
   * The length added to t_framelength for the header at which the walk
   * stops: the rejected frame's length when a header is there, else nothing.
   */
  function RejectedLength(data: seq<byte>, pos: nat): nat
  {
    if HeaderAt(data, pos) then FrameLengthAt(data, pos) else 0
  }

  /** The position, the frames counted and t_framelength of a walk in progress. */
  datatype WalkState = WalkState(offset: nat, frames: nat, totalFrameLength: nat)

  /**
   * The corrected frame walk from state s to its end: while a frame is
   * accepted, count it, add its length and move past it; at the first place
   * where none is, add the rejected frame's length and stop.
   */
  function Walk(data: seq<byte>, s: WalkState): WalkState
    decreases |data| - s.offset
  {
    if FrameAt(data, s.offset) then
      var len := FrameLengthAt(data, s.offset);
      Walk(data, WalkState(s.offset + len, s.frames + 1, s.totalFrameLength + len))
    else
      s.(totalFrameLength := s.totalFrameLength + RejectedLength(data, s.offset))
  }

  /** Where a frame is accepted, the walk counts it and goes on after it. */
  lemma WalkStep(data: seq<byte>, s: WalkState)
    requires FrameAt(data, s.offset)
    ensures var len := FrameLengthAt(data, s.offset);
            Walk(data, s) == Walk(data, WalkState(s.offset + len, s.frames + 1, s.totalFrameLength + len))
  {
  }

  /** Where no frame is accepted, the walk ends, adding the rejected frame's length. */
  lemma WalkStop(data: seq<byte>, s: WalkState)
    requires !FrameAt(data, s.offset)
    ensures Walk(data, s) == WalkState(s.offset, s.frames, s.totalFrameLength + RejectedLength(data, s.offset))
  {
  }

  /** The walk counts exactly the frames of Frames and adds up exactly their lengths. */
  lemma {:induction false} WalkFrames(data: seq<byte>, s: WalkState)
    ensures WalkMatchesFrames(data, s)
    decreases |data| - s.offset
  {
    if FrameAt(data, s.offset) {
      var len := FrameLengthAt(data, s.offset);
      WalkFrames(data, WalkState(s.offset + len, s.frames + 1, s.totalFrameLength + len));
      WalkFramesStep(data, s);
    } else {
      WalkStop(data, s);
      assert Frames(data, s.offset) == [];
    }
  }

  /** The end of the walk from s, as read off the list of frames from s.offset. */
  predicate WalkMatchesFrames(data: seq<byte>, s: WalkState)
  {
    var lens := Frames(data, s.offset);
    var stop := s.offset + Sum(lens);
    Walk(data, s) == WalkState(stop, s.frames + |lens|, s.totalFrameLength + Sum(lens) + RejectedLength(data, stop))
  }

  /** WalkMatchesFrames carries back over one accepted frame. */
  lemma WalkFramesStep(data: seq<byte>, s: WalkState)
    requires FrameAt(data, s.offset)
    requires var len := FrameLengthAt(data, s.offset);
             WalkMatchesFrames(data, WalkState(s.offset + len, s.frames + 1, s.totalFrameLength + len))
    ensures WalkMatchesFrames(data, s)
  {
    var len := FrameLengthAt(data, s.offset);
    var t := WalkState(s.offset + len, s.frames + 1, s.totalFrameLength + len);
    var rest := Frames(data, t.offset);
    FramesUnfold(data, s.offset);
    WalkStep(data, s);
    CountsStep(s, len, rest, Frames(data, s.offset), RejectedLength(data, t.offset + Sum(rest)));
  }

  /**
   * The counts after one frame of length len and then the frames rest are
   * the counts after the frames [len] + rest.
   */
  lemma CountsStep(s: WalkState, len: nat, rest: seq<nat>, lens: seq<nat>, rejected: nat)
    requires lens == [len] + rest
    ensures var t := WalkState(s.offset + len, s.frames + 1, s.totalFrameLength + len);
            WalkState(t.offset + Sum(rest), t.frames + |rest|, t.totalFrameLength + Sum(rest) + rejected)
            == WalkState(s.offset + Sum(lens), s.frames + |lens|, s.totalFrameLength + Sum(lens) + rejected)
  {
    SumCons(len, rest);
  }

  /** Where a frame is accepted, Frames lists it before the frames after it. */
  lemma FramesUnfold(data: seq<byte>, pos: nat)
    requires FrameAt(data, pos)
    ensures Frames(data, pos) == [FrameLengthAt(data, pos)] + Frames(data, pos + FrameLengthAt(data, pos))
  {
  }

  /** The sum of a length followed by more lengths. */
  lemma SumCons(len: nat, rest: seq<nat>)
    ensures Sum([len] + rest) == len + Sum(rest) && |[len] + rest| == 1 + |rest|
  {
    assert ([len] + rest)[1..] == rest;
  }

  /**
   * What aac_parse_adts leaves behind: the frames counted, t_framelength,
   * the audio_size left, the index where it stopped and the fields of the
   * first header (profile, sampling-frequency index, channels), if any.
   */
  datatype AdtsScan = AdtsScan(frames: nat, totalFrameLength: nat, audioSize: int, offset: nat,
                               first: Option<AdtsHeader>)

  /** The fields of the header at start, if a header is there. */
  function FirstHeader(data: seq<byte>, start: nat): (h: Option<AdtsHeader>)
    ensures h.Some? <==> HeaderAt(data, start)
    ensures h.Some? ==> FieldsInRange(h.value)
  {
    if HeaderAt(data, start) then Some(DecodeAdtsHeader(data[start..start + AdtsHeaderBytes])) else None
  }

  /** The outcome of the corrected frame walk started at start. */
  function AdtsOutcome(data: seq<byte>, start: nat): (r: AdtsScan)
    ensures r.first.Some? <==> HeaderAt(data, start)
  {
    var e := Walk(data, WalkState(start, 0, 0));
    AdtsScan(e.frames, e.totalFrameLength, |data| - e.offset, e.offset, FirstHeader(data, start))
  }

  /** Where the walk from start has reached a state at which no frame is accepted, its outcome is known. */
  lemma OutcomeAtStop(data: seq<byte>, start: nat, s: WalkState)
    requires Walk(data, WalkState(start, 0, 0)) == Walk(data, s) && !FrameAt(data, s.offset)
    ensures AdtsOutcome(data, start)
            == AdtsScan(s.frames, s.totalFrameLength + RejectedLength(data, s.offset), |data| - s.offset, s.offset,
                        FirstHeader(data, start))
  {
    WalkStop(data, s);
  }

  /**
   * Every frame the walk accepts starts, right after the frames before it,
   * with a syncword and has the length its header gives, between 1 and 8191.
   */
  lemma {:induction false} FramesAreFrames(data: seq<byte>, pos: nat, i: nat)
    requires i < |Frames(data, pos)|
    ensures var lens := Frames(data, pos);
            var at := pos + Sum(lens[..i]);
            FrameAt(data, at) && FrameLengthAt(data, at) == lens[i] && 0 < lens[i] < Two13
    decreases i
  {
    var lens := Frames(data, pos);
    assert FrameAt(data, pos);
    var len := FrameLengthAt(data, pos);
    var rest := Frames(data, pos + len);
    assert lens == [len] + rest;
    if i > 0 {
      FramesAreFrames(data, pos + len, i - 1);
      assert lens[..i] == [len] + rest[..i - 1];
      assert lens[..i][1..] == rest[..i - 1];
    }
  }

  /**
   * The walk ends inside the file, at a position where no frame is accepted:
   * no header there, a zero frame length, or a frame longer than what is left.
   */
  lemma {:induction false} FramesEnd(data: seq<byte>, pos: nat)
    requires pos <= |data|
    ensures pos + Sum(Frames(data, pos)) <= |data|
    ensures !FrameAt(data, pos + Sum(Frames(data, pos)))
    decreases |data| - pos
  {
    if FrameAt(data, pos) {
      var len := FrameLengthAt(data, pos);
      var lens := Frames(data, pos);
      assert lens[1..] == Frames(data, pos + len);
      FramesEnd(data, pos + len);
    }
  }

  /**
   * The properties of aac_parse_adts's counts: the walk consumes exactly the
   * accepted frames, audio_size falls by the same amount, and t_framelength
   * is that amount plus the length of the rejected frame (if a header was
   * read there, and then it is longer than what remains or zero).
   */
  lemma AdtsOutcomeMeaning(data: seq<byte>, start: nat)
    requires start <= |data|
    ensures var r := AdtsOutcome(data, start);
            && r.frames == |Frames(data, start)|
            && start <= r.offset <= |data|
            && r.offset - start == Sum(Frames(data, start))
            && r.audioSize == (|data| - start) - (r.offset - start)
            && !FrameAt(data, r.offset)
            && r.totalFrameLength == (r.offset - start) + RejectedLength(data, r.offset)
            && (RejectedLength(data, r.offset) > 0 ==>
                  HeaderAt(data, r.offset) && RejectedLength(data, r.offset) > |data| - r.offset)
  {
    WalkFrames(data, WalkState(start, 0, 0));
    FramesEnd(data, start);
  }

  /**
   * The fields come from the first header only: they are reported exactly
   * when a header is at the start, and its frame length is the first frame's.
   */
  lemma AdtsFirstHeader(data: seq<byte>, start: nat)
    requires start <= |data|
    ensures var r := AdtsOutcome(data, start);
            && (r.first.Some? <==> HeaderAt(data, start))
            && (r.first.Some? ==> r.first.value == DecodeAdtsHeader(data[start..start + AdtsHeaderBytes]))
            && (r.frames > 0 ==> r.first.Some? && r.first.value.frameLength == Frames(data, start)[0])
  {
    WalkFrames(data, WalkState(start, 0, 0));
    if FrameAt(data, start) {
      FramesUnfold(data, start);
    }
  }

  // ---------------------------------------------------------------------
  // The frame walk (aac_parse_adts, corrected)
  // ---------------------------------------------------------------------

  /**
   * aac_parse_adts on the file from start on (audio_size is the rest of the
   * file): one pass per frame, reading the header, taking the fields of the
   * first one, adding its length to t_framelength and consuming it. The
   * corrected loop asks for the six header bytes before reading them and
   * stops at a zero frame length.
   */
  method ParseAdts(data: seq<byte>, start: nat) returns (r: AdtsScan)
    requires start <= |data|
    ensures r == AdtsOutcome(data, start)
  {
    var pos := start;
    var audioSize: int := |data| - start;
    var frames: nat := 0;
    var totalFrameLength: nat := 0;
    var first: Option<AdtsHeader> := None;
    ghost var before := WalkState(pos, frames, totalFrameLength);
    while true
      invariant start <= pos <= |data|
      invariant Walk(data, WalkState(start, 0, 0)) == Walk(data, WalkState(pos, frames, totalFrameLength))
      invariant audioSize == |data| - pos
      invariant frames == 0 ==> pos == start && first == None && totalFrameLength == 0
      invariant frames > 0 ==> first == FirstHeader(data, start)
      decreases |data| - pos
    {
      before := WalkState(pos, frames, totalFrameLength);
      var available := |data| - pos;
      if available < AdtsHeaderBytes {
        break;
      }
      if !(data[pos] == 0xFF && SyncSecondByte(data[pos + 1])) {
        break;
      }
      if frames == 0 {
        first := Some(DecodeAdtsHeader(data[pos..pos + AdtsHeaderBytes]));
      }
      var frameLength := FrameLengthAt(data, pos);
      totalFrameLength := totalFrameLength + frameLength;
      if frameLength > available || frameLength == 0 {
        break;
      }
      pos := pos + frameLength;
      audioSize := audioSize - frameLength;
      frames := frames + 1;
      WalkStep(data, before);
    }
    OutcomeAtStop(data, start, before);
    r := AdtsScan(frames, totalFrameLength, audioSize, pos, first);
  }

  // ---------------------------------------------------------------------
  // get_aacinfo: the ID3 skip and the sync scan
  // ---------------------------------------------------------------------

  /** Bytes get_aacinfo asks for at the start of the file and again after an ID3 tag. */
  const LeadBytes: nat := 10

  /** get_aacinfo's only failure: fewer than ten bytes where it needs them. */
  datatype AacError = TruncatedInput

  /**
   * What get_aacinfo finds: the file size, the ID3 header at the start if
   * any, audio_offset (where the first ADTS syncword is, or where the scan
   * gave up) and the frame walk's results if a syncword was found.
   */
  datatype AacInfo = AacInfo(fileSize: nat, id3: Option<Id3Header>, audioOffset: nat, adts: Option<AdtsScan>)

  /**
   * The sync scan from pos: the first position, at pos or later, holding an
   * ADTS header, or the first position from which fewer than six bytes
   * remain.
   */
  function SyncScan(data: seq<byte>, pos: nat): (p: nat)
    ensures pos <= p && (pos <= |data| ==> p <= |data|)
    ensures p + AdtsHeaderBytes <= |data| ==> HeaderAt(data, p)
    decreases |data| - pos
  {
    if pos + AdtsHeaderBytes > |data| || SyncAt(data, pos) then pos else SyncScan(data, pos + 1)
  }

  /**
   * The scan skips only positions without a header, and stops at a header or,
   * when there is none, six bytes before the end of the file (or at once if
   * fewer than six bytes remain).
   */
  lemma {:induction false} SyncScanMeaning(data: seq<byte>, pos: nat)
    requires pos <= |data|
    ensures var p := SyncScan(data, pos);
            && pos <= p <= |data|
            && (forall q :: pos <= q < p ==> !HeaderAt(data, q))
            && (HeaderAt(data, p) || p == (if pos + AdtsHeaderBytes > |data| then pos else |data| - (AdtsHeaderBytes - 1)))
    decreases |data| - pos
  {
    if !(pos + AdtsHeaderBytes > |data| || SyncAt(data, pos)) {
      SyncScanMeaning(data, pos + 1);
    }
  }

  /** Where the audio starts being scanned: after the ID3 tag if there is one, else at 0. */
  function AudioStart(id3: Option<Id3Header>): nat
  {
    if id3.Some? then id3.value.tagSize else 0
  }

  /** The outcome of get_aacinfo on a whole file. */
  function AacInfoOf(data: seq<byte>): (r: Result<AacInfo, AacError>)
    ensures |data| < LeadBytes ==> r.Failure?
    ensures r.Success? ==> r.value.fileSize == |data| && AudioStart(r.value.id3) <= r.value.audioOffset <= |data|
    ensures r.Success? ==> (r.value.adts.Some? <==> HeaderAt(data, r.value.audioOffset))
  {
    if |data| < LeadBytes then
      Failure(TruncatedInput)
    else
      var id3 := ParseId3Header(data[..Id3HeaderBytes]);
      var skip := AudioStart(id3);
      if |data| < skip + LeadBytes then
        Failure(TruncatedInput)
      else
        var offset := SyncScan(data, skip);
        Success(AacInfo(|data|, id3, offset, if HeaderAt(data, offset) then Some(AdtsOutcome(data, offset)) else None))
  }

  /**
   * The properties of get_aacinfo: it fails exactly when the file is shorter
   * than ten bytes or than the ID3 tag plus ten bytes; otherwise it reports
   * the tag, audio_offset is the tag size plus the bytes skipped by the scan,
   * none of which starts a header, and the frame walk runs exactly when the
   * scan found a header, from that header.
   */
  lemma AacInfoMeaning(data: seq<byte>)
    ensures var r := AacInfoOf(data);
            && (r.Failure? <==> |data| < LeadBytes
                                || (ParseId3Header(data[..Id3HeaderBytes]).Some?
                                    && |data| < ParseId3Header(data[..Id3HeaderBytes]).value.tagSize + LeadBytes))
            && (r.Success? ==>
                  var skip := AudioStart(r.value.id3);
                  && r.value.fileSize == |data|
                  && r.value.id3 == ParseId3Header(data[..Id3HeaderBytes])
                  && (r.value.id3.Some? ==> IsId3Header(data[..Id3HeaderBytes]))
                  && skip <= r.value.audioOffset <= |data| - (AdtsHeaderBytes - 1)
                  && (forall q :: skip <= q < r.value.audioOffset ==> !HeaderAt(data, q))
                  && (r.value.adts.Some? <==> HeaderAt(data, r.value.audioOffset))
                  && (r.value.adts.None? ==> r.value.audioOffset == |data| - (AdtsHeaderBytes - 1))
                  && (r.value.adts.Some? ==> r.value.adts.value == AdtsOutcome(data, r.value.audioOffset)))
  {
    if |data| >= LeadBytes {
      var skip := AudioStart(ParseId3Header(data[..Id3HeaderBytes]));
      if |data| >= skip + LeadBytes {
        SyncScanMeaning(data, skip);
      }
    }
  }

  /**
   * get_aacinfo on a whole file: ask for ten bytes, skip an ID3 tag and ask
   * for ten bytes after it, then look for a syncword one byte at a time
   * while at least six bytes remain, and walk the frames from the first one.
   * The buffer's read position is audio_offset throughout.
   */
  method GetAacInfo(data: seq<byte>) returns (r: Result<AacInfo, AacError>)
    ensures r == AacInfoOf(data)
  {
    if |data| < LeadBytes {
      return Failure(TruncatedInput);
    }
    var id3 := ParseId3Header(data[..Id3HeaderBytes]);
    var audioOffset := 0;
    if id3.Some? {
      audioOffset := id3.value.tagSize;
      if |data| < audioOffset + LeadBytes {
        return Failure(TruncatedInput);
      }
    }
    ghost var skip := audioOffset;
    var adts: Option<AdtsScan> := None;
    while |data| - audioOffset >= AdtsHeaderBytes
      invariant skip <= audioOffset <= |data|
      invariant SyncScan(data, skip) == SyncScan(data, audioOffset)
      invariant adts == None
      decreases |data| - audioOffset
    {
      if data[audioOffset] == 0xFF && SyncSecondByte(data[audioOffset + 1]) {
        var scan := ParseAdts(data, audioOffset);
        adts := Some(scan);
        break;
      }
      audioOffset := audioOffset + 1;
    }
    r := Success(AacInfo(|data|, id3, audioOffset, adts));
  }

  // ---------------------------------------------------------------------
  // The frame walk as written
  // ---------------------------------------------------------------------

  /** The end of one pass of the source's loop. */
  datatype Pass = Stopped(state: WalkState) | Continued(state: WalkState) | ReadsPastEnd

  /**
   * One pass of aac_parse_adts's loop as written. The refill asks only for
   * min(audio_size, block) bytes, so with fewer than six bytes left it still
   * goes on to read header bytes: the pass reads past the buffered bytes
   * exactly when one of the bytes it inspects is missing. A zero frame length
   * passes the length check and leaves the position where it was.
   */
  function AsWrittenPass(data: seq<byte>, s: WalkState): (p: Pass)
    requires s.offset <= |data|
    ensures p.Continued? ==> s.offset <= p.state.offset <= |data| && p.state.frames == s.frames + 1
    ensures p.Stopped? ==> p.state.offset == s.offset && p.state.frames == s.frames
  {
    var available := |data| - s.offset;
    if available == 0 then ReadsPastEnd
    else if data[s.offset] != 0xFF then Stopped(s)
    else if available == 1 then ReadsPastEnd
    else if !SyncSecondByte(data[s.offset + 1]) then Stopped(s)
    else if available < AdtsHeaderBytes then ReadsPastEnd
    else
      var len := FrameLengthAt(data, s.offset);
      if len > available then Stopped(s.(totalFrameLength := s.totalFrameLength + len))
      else Continued(WalkState(s.offset + len, s.frames + 1, s.totalFrameLength + len))
  }

  /** n passes of the loop as written, or the pass that ended it. */
  function AsWrittenRun(data: seq<byte>, s: WalkState, n: nat): (p: Pass)
    requires s.offset <= |data|
    ensures p.Continued? ==> s.offset <= p.state.offset <= |data| && p.state.frames == s.frames + n
    ensures p.Stopped? ==> s.offset <= p.state.offset <= |data| && s.frames <= p.state.frames < s.frames + n
    decreases n
  {
    if n == 0 then Continued(s)
    else
      match AsWrittenPass(data, s)
      case Continued(t) => AsWrittenRun(data, t, n - 1)
      case other => other
  }

  /**
   * Where six bytes remain and the frame length is not zero, a pass as written
   * agrees with the corrected walk: it goes on exactly when a frame is
   * accepted, to the same state, and when it stops, it stops where the
   * corrected walk ends, with the same counts.
   */
  lemma AsWrittenPassAgrees(data: seq<byte>, s: WalkState)
    requires s.offset + AdtsHeaderBytes <= |data|
    requires FrameLengthAt(data, s.offset) != 0
    ensures AsWrittenPass(data, s) != ReadsPastEnd
    ensures AsWrittenPass(data, s).Continued? <==> FrameAt(data, s.offset)
    ensures AsWrittenPass(data, s).Continued? ==>
              Walk(data, AsWrittenPass(data, s).state) == Walk(data, s)
    ensures AsWrittenPass(data, s).Stopped? ==> AsWrittenPass(data, s).state == Walk(data, s)
  {
  }

  /**
   * A header with frame length zero makes the loop as written go round for
   * ever: after any number of passes it is still at the same position,
   * having counted one more frame per pass.
   */
  lemma {:induction false} ZeroLengthNeverStops(data: seq<byte>, s: WalkState, n: nat)
    requires HeaderAt(data, s.offset) && FrameLengthAt(data, s.offset) == 0
    ensures AsWrittenRun(data, s, n) == Continued(WalkState(s.offset, s.frames + n, s.totalFrameLength))
    decreases n
  {
    if n > 0 {
      var t := WalkState(s.offset, s.frames + 1, s.totalFrameLength);
      assert AsWrittenPass(data, s) == Continued(t);
      ZeroLengthNeverStops(data, t, n - 1);
    }
  }

  /**
   * After a frame that ends exactly at the end of the file, the loop as
   * written asks for zero bytes, gets them, and reads the syncword byte that
   * is not there.
   */
  lemma LastFrameReadsPastEnd(data: seq<byte>, s: WalkState)
    requires FrameAt(data, s.offset) && s.offset + FrameLengthAt(data, s.offset) == |data|
    ensures AsWrittenRun(data, s, 2) == ReadsPastEnd
  {
    var t := WalkState(|data|, s.frames + 1, s.totalFrameLength + FrameLengthAt(data, s.offset));
    assert AsWrittenPass(data, s) == Continued(t);
    assert AsWrittenRun(data, t, 1) == ReadsPastEnd;
  }

  /**
   * A ten-byte file starting with a header of frame length 0: get_aacinfo
   * finds the header at offset 0 and the corrected walk stops there at once
   * with no frame, while the loop as written stays at offset 0 for ever.
   */
  lemma ZeroLengthExample(zero: seq<byte>, n: nat)
    requires zero == [0xFF, 0xF1, 0x50, 0x80, 0x00, 0x00, 0x00, 0x00, 0x00, 0x00]
    ensures AacInfoOf(zero) == Success(AacInfo(10, None, 0, Some(AdtsScan(0, 0, 10, 0, Some(AdtsHeader(1, 4, 2, 0))))))
    ensures AsWrittenRun(zero, WalkState(0, 0, 0), n) == Continued(WalkState(0, n, 0))
  {
    ZeroLengthOutcome(zero);
    ZeroLengthNeverStops(zero, WalkState(0, 0, 0), n);
  }

  /** On the file of ZeroLengthExample the corrected walk stops at once. */
  lemma ZeroLengthOutcome(zero: seq<byte>)
    requires zero == [0xFF, 0xF1, 0x50, 0x80, 0x00, 0x00, 0x00, 0x00, 0x00, 0x00]
    ensures HeaderAt(zero, 0) && FrameLengthAt(zero, 0) == 0
    ensures AacInfoOf(zero) == Success(AacInfo(10, None, 0, Some(AdtsScan(0, 0, 10, 0, Some(AdtsHeader(1, 4, 2, 0))))))
  {
    ExampleInfo(zero);
    ExampleHeader(zero);
    assert zero[3] == 0x80 && zero[4] == 0 && zero[5] == 0;
    OutcomeAtStop(zero, 0, WalkState(0, 0, 0));
  }

  /**
   * A ten-byte file holding one frame of length 10: get_aacinfo counts that
   * one frame, while the loop as written goes on to read past the end.
   */
  lemma LastFrameExample(one: seq<byte>)
    requires one == [0xFF, 0xF1, 0x50, 0x80, 0x01, 0x40, 0x00, 0x00, 0x00, 0x00]
    ensures AacInfoOf(one) == Success(AacInfo(10, None, 0, Some(AdtsScan(1, 10, 0, 10, Some(AdtsHeader(1, 4, 2, 10))))))
    ensures AsWrittenRun(one, WalkState(0, 0, 0), 2) == ReadsPastEnd
  {
    LastFrameOutcome(one);
    LastFrameReadsPastEnd(one, WalkState(0, 0, 0));
  }

  /** On the file of LastFrameExample the corrected walk counts the one frame. */
  lemma LastFrameOutcome(one: seq<byte>)
    requires one == [0xFF, 0xF1, 0x50, 0x80, 0x01, 0x40, 0x00, 0x00, 0x00, 0x00]
    ensures FrameAt(one, 0) && FrameLengthAt(one, 0) == |one|
    ensures AacInfoOf(one) == Success(AacInfo(10, None, 0, Some(AdtsScan(1, 10, 0, 10, Some(AdtsHeader(1, 4, 2, 10))))))
  {
    ExampleInfo(one);
    ExampleHeader(one);
    assert one[3] == 0x80 && one[4] == 1 && one[5] == 0x40;
    WalkStep(one, WalkState(0, 0, 0));
    WalkStop(one, WalkState(10, 1, 10));
  }

  /**
   * A ten-byte file without an ID3 tag, with a header at offset 0 whose
   * byte 2 is 0x50 and byte 3 is 0x80: get_aacinfo scans from 0 and finds it
   * there at once, with profile 1, sampling-frequency index 4 and 2 channels.
   */
  lemma ExampleInfo(data: seq<byte>)
    requires |data| == 10 && data[..4] == [0xFF, 0xF1, 0x50, 0x80]
    ensures AacInfoOf(data) == Success(AacInfo(10, None, 0, Some(AdtsOutcome(data, 0))))
  {
    assert data[0] == 0xFF;
    assert !IsId3Header(data[..Id3HeaderBytes]);
    ExampleHeader(data);
  }

  /** The header at the start of the example files: profile 1, index 4, 2 channels. */
  lemma ExampleHeader(data: seq<byte>)
    requires |data| == 10 && data[..4] == [0xFF, 0xF1, 0x50, 0x80]
    ensures HeaderAt(data, 0)
    ensures FirstHeader(data, 0) == Some(AdtsHeader(1, 4, 2, FrameLengthAt(data, 0)))
  {
    assert data[0] == 0xFF && data[1] == 0xF1 && data[2] == 0x50 && data[3] == 0x80;
    assert SyncAt(data, 0);
  }
}
