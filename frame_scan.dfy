/** What one pass of the frame reader (IO/Manager.cpp, readFrames) computes
    from the unconsumed buffer: how many bytes it consumes, which frames it
    emits, and the checksum-mode flag it leaves behind. */
module FrameScan {
  import opened Bytes
  import opened QtSeq
  import opened Integrity

  datatype ScanResult = ScanResult(consumed: nat, frames: seq<seq<byte>>, crcEnabled: bool)

  /** The outcome of one iteration of the reader's loop: no start/finish pair
      left; a frame whose trailer is incomplete (the pass stops there); or a
      frame with a verdict, after which the reader goes on `skip` bytes later. */
  datatype Step =
    | NoPair
    | Held(crcEnabled: bool)
    | Taken(skip: nat, frame: seq<byte>, status: Status, crcEnabled: bool)

  /** One iteration: skip past the first start sequence, take everything up to
      the next finish sequence as the frame (Qt's left(-1) makes it empty when
      no finish sequence follows), check its trailer, and continue after the
      finish sequence and whatever the check consumed. */
  function FirstStep(cursor: seq<byte>, start: seq<byte>, finish: seq<byte>, crcOn: bool, crc: Checksums): (st: Step)
    requires |start| > 0 && |finish| > 0
    ensures st.NoPair? <==> !(Contains(cursor, start) && Contains(cursor, finish))
    ensures st.Held? && crcOn ==> st.crcEnabled
    ensures st.Taken? ==> st.status != ChecksumIncomplete && st.skip > 0
    ensures st.Taken? && crcOn ==> st.crcEnabled
  {
    if !(Contains(cursor, start) && Contains(cursor, finish)) then NoPair
    else
      var sIndex := IndexOf(cursor, start);
      var body := Mid(cursor, sIndex + |start|);
      var fIndex := IndexOf(body, finish);
      var frame := Left(body, fIndex);
      var v := Validate(frame, body, finish, crcOn, crc);
      if v.status == ChecksumIncomplete then Held(v.crcEnabled)
      else Taken(sIndex + |start| + fIndex + v.extra, frame, v.status, v.crcEnabled)
  }

  /** One pass over `cursor`: iterate while the cursor holds both delimiters.
      An incomplete trailer ends the pass and consumes nothing from that frame
      on; a checksum mismatch drops the frame but consumes it. The consumed
      count can exceed |cursor| (the header is searched anywhere, its length
      counted from the finish sequence). */
  function Scan(cursor: seq<byte>, start: seq<byte>, finish: seq<byte>, crcOn: bool, crc: Checksums): (r: ScanResult)
    requires |start| > 0 && |finish| > 0
    ensures crcOn ==> r.crcEnabled
    ensures |r.frames| <= |cursor|
    ensures r.consumed == 0 ==> r.frames == []
    decreases |cursor|
  {
    match FirstStep(cursor, start, finish, crcOn, crc)
    case NoPair => ScanResult(0, [], crcOn)
    case Held(flag) => ScanResult(0, [], flag)
    case Taken(skip, frame, status, flag) =>
      var rest := Scan(Mid(cursor, skip), start, finish, flag, crc);
      var emitted := if status == FrameOk then [frame] else [];
      ScanResult(skip + rest.consumed, emitted + rest.frames, rest.crcEnabled)
  }

  /** The first iteration on a cursor holding both delimiters, spelled out as
      the loop performs it. */
  lemma FirstStepOfPair(cursor: seq<byte>, start: seq<byte>, finish: seq<byte>, crcOn: bool, crc: Checksums)
    requires |start| > 0 && |finish| > 0
    requires Contains(cursor, start) && Contains(cursor, finish)
    ensures var sIndex := IndexOf(cursor, start);
      var body := Mid(cursor, sIndex + |start|);
      var fIndex := IndexOf(body, finish);
      var frame := Left(body, fIndex);
      var v := Validate(frame, body, finish, crcOn, crc);
      FirstStep(cursor, start, finish, crcOn, crc) ==
        if v.status == ChecksumIncomplete then Held(v.crcEnabled)
        else Taken(sIndex + |start| + fIndex + v.extra, frame, v.status, v.crcEnabled)
  {
    hide Validate;
  }

  /** A pass whose first iteration stalls consumes and emits nothing. */
  lemma ScanHeld(cursor: seq<byte>, start: seq<byte>, finish: seq<byte>, crcOn: bool, crc: Checksums, flag: bool)
    requires |start| > 0 && |finish| > 0
    requires FirstStep(cursor, start, finish, crcOn, crc) == Held(flag)
    ensures Scan(cursor, start, finish, crcOn, crc) == ScanResult(0, [], flag)
  {
    hide FirstStep;
  }

  /** A pass whose first iteration takes a frame goes on `skip` bytes later. */
  lemma ScanSkips(cursor: seq<byte>, start: seq<byte>, finish: seq<byte>, crcOn: bool, crc: Checksums,
                  skip: nat, frame: seq<byte>, status: Status, flag: bool)
    requires |start| > 0 && |finish| > 0
    requires FirstStep(cursor, start, finish, crcOn, crc) == Taken(skip, frame, status, flag)
    ensures var rest := Scan(Mid(cursor, skip), start, finish, flag, crc);
      Scan(cursor, start, finish, crcOn, crc) ==
        ScanResult(skip + rest.consumed, (if status == FrameOk then [frame] else []) + rest.frames, rest.crcEnabled)
  {
    hide FirstStep;
  }

  /** The same, with the skip measured in the body after the start sequence, as
      the reader's loop measures it. */
  lemma ScanTaken(cursor: seq<byte>, start: seq<byte>, finish: seq<byte>, crcOn: bool, crc: Checksums,
                  sIndex: nat, body: seq<byte>, fIndex: int, frame: seq<byte>, v: Verdict)
    requires |start| > 0 && |finish| > 0
    requires fIndex + v.extra >= 0
    requires body == Mid(cursor, sIndex + |start|)
    requires FirstStep(cursor, start, finish, crcOn, crc) == Taken(sIndex + |start| + fIndex + v.extra, frame, v.status, v.crcEnabled)
    ensures var rest := Scan(Mid(body, fIndex + v.extra), start, finish, v.crcEnabled, crc);
      Scan(cursor, start, finish, crcOn, crc) ==
        ScanResult(sIndex + |start| + fIndex + v.extra + rest.consumed,
          (if v.status == FrameOk then [frame] else []) + rest.frames, rest.crcEnabled)
  {
    hide FirstStep, Validate, Scan;
    var skip := sIndex + |start| + fIndex + v.extra;
    ScanSkips(cursor, start, finish, crcOn, crc, skip, frame, v.status, v.crcEnabled);
    assert Mid(cursor, skip) == Mid(body, fIndex + v.extra) by {
      MidMid(cursor, sIndex + |start|, fIndex + v.extra);
    }
  }

  /** One iteration of the reader's loop, spelled out as the loop performs it:
      the frame is cut from the body after the start sequence, and the pass
      goes on in that body after the finish sequence and the trailer. The
      loop's own values are passed in, tied to the cursor by the requires. */
  lemma ScanOneFrame(cursor: seq<byte>, start: seq<byte>, finish: seq<byte>, crcOn: bool, crc: Checksums,
                     sIndex: int, body: seq<byte>, fIndex: int, frame: seq<byte>, v: Verdict)
    requires |start| > 0 && |finish| > 0
    requires Contains(cursor, start) && Contains(cursor, finish)
    requires sIndex == IndexOf(cursor, start)
    requires body == Mid(cursor, sIndex + |start|)
    requires fIndex == IndexOf(body, finish)
    requires frame == Left(body, fIndex)
    requires v == Validate(frame, body, finish, crcOn, crc)
    ensures sIndex >= 0
    ensures v.status != ChecksumIncomplete ==> fIndex + v.extra >= 0 && sIndex + |start| + fIndex + v.extra > 0
    ensures var r := Scan(cursor, start, finish, crcOn, crc);
      if v.status == ChecksumIncomplete then r == ScanResult(0, [], v.crcEnabled)
      else
        var rest := Scan(Mid(body, fIndex + v.extra), start, finish, v.crcEnabled, crc);
        r == ScanResult(sIndex + |start| + fIndex + v.extra + rest.consumed,
          (if v.status == FrameOk then [frame] else []) + rest.frames, rest.crcEnabled)
  {
    FirstStepOfPair(cursor, start, finish, crcOn, crc);
    if v.status == ChecksumIncomplete {
      ScanHeld(cursor, start, finish, crcOn, crc, v.crcEnabled);
    } else {
      ScanTaken(cursor, start, finish, crcOn, crc, sIndex, body, fIndex, frame, v);
    }
  }

  /** A cursor without both delimiters ends the pass. */
  lemma ScanNoPair(cursor: seq<byte>, start: seq<byte>, finish: seq<byte>, crcOn: bool, crc: Checksums)
    requires |start| > 0 && |finish| > 0
    requires !(Contains(cursor, start) && Contains(cursor, finish))
    ensures Scan(cursor, start, finish, crcOn, crc) == ScanResult(0, [], crcOn)
  {
  }

  /** What is left of the buffer after a pass removes the consumed bytes from
      its front and wipes it if it is still larger than `maxSize`. */
  function Remaining(buf: seq<byte>, consumed: nat, maxSize: int): (rest: seq<byte>)
    ensures rest == [] || |rest| <= maxSize
    ensures |rest| <= |buf|
    ensures rest != [] ==> consumed < |buf| && rest == buf[consumed..]
    ensures |RemovePrefix(buf, consumed)| <= maxSize ==> rest == RemovePrefix(buf, consumed)
    ensures |RemovePrefix(buf, consumed)| > maxSize ==> rest == []
  {
    var kept := RemovePrefix(buf, consumed);
    if |kept| > maxSize then [] else kept
  }

  /** The iteration the reader stalls on stalls again when repeated with the
      flag it latched: an incomplete verdict does not depend on that flag. */
  lemma HeldIsStable(cursor: seq<byte>, start: seq<byte>, finish: seq<byte>, crcOn: bool, crc: Checksums)
    requires |start| > 0 && |finish| > 0
    requires FirstStep(cursor, start, finish, crcOn, crc).Held?
    ensures var f := FirstStep(cursor, start, finish, crcOn, crc).crcEnabled;
      FirstStep(cursor, start, finish, f, crc) == Held(f)
  {
  }

  /** A pass leaves behind no frame that a second pass could take: scanning
      what remains, with the flag the first pass left, consumes nothing, emits
      nothing and changes no flag. So running the reader twice without new
      data is the same as running it once. */
  lemma {:induction false} ScanLeavesNoFrame(cursor: seq<byte>, start: seq<byte>, finish: seq<byte>, crcOn: bool, crc: Checksums)
    requires |start| > 0 && |finish| > 0
    ensures var r := Scan(cursor, start, finish, crcOn, crc);
      Scan(RemovePrefix(cursor, r.consumed), start, finish, r.crcEnabled, crc) == ScanResult(0, [], r.crcEnabled)
    decreases |cursor|
  {
    hide FirstStep, Validate;
    var r := Scan(cursor, start, finish, crcOn, crc);
    match FirstStep(cursor, start, finish, crcOn, crc)
    case NoPair =>
    case Held(flag) =>
      HeldIsStable(cursor, start, finish, crcOn, crc);
    case Taken(skip, frame, status, flag) =>
      var next := Mid(cursor, skip);
      ScanLeavesNoFrame(next, start, finish, flag, crc);
      var rest := Scan(next, start, finish, flag, crc);
      assert r.consumed == skip + rest.consumed;
      assert RemovePrefix(cursor, r.consumed) == RemovePrefix(next, rest.consumed) by {
        MidMid(cursor, skip, rest.consumed);
        RemovePrefixIsMid(cursor, r.consumed);
        RemovePrefixIsMid(next, rest.consumed);
      }
  }

  /** What the reader leaves in its buffer after a pass (the consumed bytes
      removed, then the wipe if the rest is too large) holds no frame that the
      next pass could take. */
  lemma RemainingHoldsNoFrame(b: seq<byte>, start: seq<byte>, finish: seq<byte>, crcOn: bool, crc: Checksums, maxSize: int)
    requires |start| > 0 && |finish| > 0
    ensures var r := Scan(b, start, finish, crcOn, crc);
      var kept := RemovePrefix(b, r.consumed);
      Remaining(b, r.consumed, maxSize) == (if |kept| > maxSize then [] else kept) &&
      Scan(Remaining(b, r.consumed, maxSize), start, finish, r.crcEnabled, crc).frames == []
  {
    ScanLeavesNoFrame(b, start, finish, crcOn, crc);
  }

  /** The first iteration on a buffer that begins with the start sequence. */
  lemma {:induction false} StepAfterStart(start: seq<byte>, c: seq<byte>, finish: seq<byte>, crcOn: bool, crc: Checksums)
    requires |start| > 0 && |finish| > 0
    requires Contains(c, finish)
    ensures var fIndex := IndexOf(c, finish);
      var v := Validate(Left(c, fIndex), c, finish, crcOn, crc);
      FirstStep(start + c, start, finish, crcOn, crc) ==
        if v.status == ChecksumIncomplete then Held(v.crcEnabled)
        else Taken(|start| + fIndex + v.extra, Left(c, fIndex), v.status, v.crcEnabled)
  {
    var buf := start + c;
    assert buf[..|start|] == start;
    StartsWithIff(buf, start);
    assert IndexOf(buf, start) == 0;
    var j := IndexOf(c, finish);
    IndexOfFirst(c, finish);
    assert OccursAt(buf, finish, |start| + j) by {
      assert buf[|start| + j..|start| + j + |finish|] == c[j..j + |finish|];
    }
    FoundNoLater(buf, finish, |start| + j);
    assert Mid(buf, |start|) == c;
  }

  /** A cursor without the finish sequence holds no header either. */
  lemma NoFinishNoHeader(c: seq<byte>, finish: seq<byte>)
    requires |finish| > 0
    requires !Contains(c, finish)
    ensures FirstHeader(c, finish) == None
  {
    if FirstHeader(c, finish).Some? {
      HeaderContainsFinish(c, finish, FirstHeader(c, finish).value);
    }
  }

  /** When the first finish sequence ends the cursor, no header fits after it. */
  lemma {:induction false} NoHeaderAfterFinish(c: seq<byte>, finish: seq<byte>, at: nat)
    requires |finish| > 0
    requires IndexOf(c, finish) == at && at + |finish| == |c|
    ensures FirstHeader(c, finish) == None
  {
    if FirstHeader(c, finish).Some? {
      HeaderContainsFinish(c, finish, FirstHeader(c, finish).value);
    }
  }

  /** A header found first at the finish sequence's first occurrence `at`. */
  lemma {:induction false} HeaderAtFinish(c: seq<byte>, finish: seq<byte>, w: Width, at: nat)
    requires |finish| > 0
    requires IndexOf(c, finish) == at
    requires OccursAt(c, Header(finish, w), at)
    ensures IndexOf(c, Header(finish, w)) == at
  {
    var j := IndexOf(c, Header(finish, w));
    FoundNoLater(c, Header(finish, w), at);
    IndexOfFirst(c, Header(finish, w));
    PrefixOccurs(c, finish, Tag(w), j);
    FoundNoLater(c, finish, j);
  }

  /** A cursor made of `body`, the finish sequence, "crc8:" and `tail`, whose
      first finish sequence follows the body: the CRC-8 header is found there
      and the checksum is read from the first byte of `tail`, or from the
      terminating zero when `tail` is empty. */
  lemma {:induction false} Crc8Trailer(body: seq<byte>, finish: seq<byte>, tail: seq<byte>, crcOn: bool, crc: Checksums)
    requires |finish| > 0
    requires IndexOf(body + finish + Tag(Crc8) + tail, finish) == |body|
    ensures var c := body + finish + Tag(Crc8) + tail;
      var v := Validate(body, c, finish, crcOn, crc);
      FirstHeader(c, finish) == Some(Crc8) &&
      v.extra == |finish| + |Tag(Crc8)| + 1 && v.crcEnabled &&
      (v.status == FrameOk <==> crc.crc8(body) == if tail == [] then 0 else tail[0])
  {
    var h := Header(finish, Crc8);
    var c := body + finish + Tag(Crc8) + tail;
    assert OccursAt(c, h, |body|) by {
      assert c[|body|..|body| + |h|] == h;
    }
    HeaderAtFinish(c, finish, Crc8, |body|);
    assert FirstHeader(c, finish) == Some(Crc8);
    assert AfterHeader(c, finish, Crc8) == |body| + |h|;
    ValidateWithHeader(body, c, finish, crcOn, crc, Crc8);
    var b := if tail == [] then 0 else tail[0];
    assert At(c, |body| + |h|) == b;
  }

  /** The frame `start + body + finish`, with the finish sequence first
      occurring right after the body, is delivered as `body` and consumed
      entirely while checksum mode is off; once checksum mode is on, it is held
      because it carries no checksum header. */
  lemma PlainFrame(start: seq<byte>, body: seq<byte>, finish: seq<byte>, crc: Checksums)
    requires |start| > 0 && |finish| > 0
    requires IndexOf(body + finish, finish) == |body|
    ensures Scan(start + body + finish, start, finish, false, crc) == ScanResult(|start| + |body| + |finish|, [body], false)
    ensures Scan(start + body + finish, start, finish, true, crc) == ScanResult(0, [], true)
  {
    hide FirstStep, Validate;
    var c := body + finish;
    assert start + body + finish == start + c;
    NoHeaderAfterFinish(c, finish, |body|);
    ValidateWithoutHeader(body, c, finish, false, crc);
    ValidateWithoutHeader(body, c, finish, true, crc);
    assert Left(c, |body|) == body;
    StepAfterStart(start, c, finish, false, crc);
    StepAfterStart(start, c, finish, true, crc);
    assert Mid(start + c, |start| + |c|) == [];
  }

  /** The frame `start + body + finish + "crc8:" + [sum]`, with the finish
      sequence first occurring right after the body, is consumed entirely and
      delivered exactly when `sum` is the CRC-8 of the body; checksum mode is
      on afterwards. */
  lemma Crc8Frame(start: seq<byte>, body: seq<byte>, finish: seq<byte>, sum: byte, crc: Checksums, crcOn: bool)
    requires |start| > 0 && |finish| > 0
    requires IndexOf(body + finish + Tag(Crc8) + [sum], finish) == |body|
    ensures var r := Scan(start + body + finish + Tag(Crc8) + [sum], start, finish, crcOn, crc);
      r.consumed == |start| + |body| + |finish| + |Tag(Crc8)| + 1 &&
      r.frames == (if crc.crc8(body) == sum then [body] else []) &&
      r.crcEnabled
  {
    hide FirstStep, Validate;
    var c := body + finish + Tag(Crc8) + [sum];
    assert start + body + finish + Tag(Crc8) + [sum] == start + c;
    Crc8Trailer(body, finish, [sum], crcOn, crc);
    assert [sum][0] == sum;
    assert Left(c, |body|) == body;
    var v := Validate(body, c, finish, crcOn, crc);
    StepAfterStart(start, c, finish, crcOn, crc);
    assert FirstStep(start + c, start, finish, crcOn, crc) == Taken(|start| + |c|, body, v.status, true);
    assert Mid(start + c, |start| + |c|) == [];
    assert Scan([], start, finish, true, crc) == ScanResult(0, [], true);
  }

  /** The same frame with the CRC-8 byte not yet arrived is not held for more
      data: the missing byte is read as the terminating zero, the frame is
      delivered exactly when its CRC-8 is 0, and one byte more than the buffer
      holds is consumed, which empties it. */
  lemma Crc8FrameWithoutChecksumByte(start: seq<byte>, body: seq<byte>, finish: seq<byte>, crc: Checksums, crcOn: bool)
    requires |start| > 0 && |finish| > 0
    requires IndexOf(body + finish + Tag(Crc8), finish) == |body|
    ensures var buf := start + body + finish + Tag(Crc8);
      var r := Scan(buf, start, finish, crcOn, crc);
      r.consumed == |buf| + 1 &&
      r.frames == (if crc.crc8(body) == 0 then [body] else []) &&
      RemovePrefix(buf, r.consumed) == []
  {
    hide FirstStep, Validate;
    var c := body + finish + Tag(Crc8);
    assert start + body + finish + Tag(Crc8) == start + c;
    assert c + [] == c;
    Crc8Trailer(body, finish, [], crcOn, crc);
    assert Left(c, |body|) == body;
    var v := Validate(body, c, finish, crcOn, crc);
    StepAfterStart(start, c, finish, crcOn, crc);
    assert FirstStep(start + c, start, finish, crcOn, crc) == Taken(|start| + |c| + 1, body, v.status, true);
    assert Mid(start + c, |start| + |c| + 1) == [];
    assert Scan([], start, finish, true, crc) == ScanResult(0, [], true);
  }

  /** When the only finish sequence lies before the first start sequence, the
      frame reader still takes a frame: Qt's indexOf gives -1 and left(-1) an
      empty array, so with checksum mode off an empty frame is emitted, and
      with it on the pass stops without consuming anything. */
  lemma MisorderedDelimiters(cursor: seq<byte>, start: seq<byte>, finish: seq<byte>, crc: Checksums)
    requires |start| > 0 && |finish| > 0
    requires Contains(cursor, start) && Contains(cursor, finish)
    requires !Contains(Mid(cursor, IndexOf(cursor, start) + |start|), finish)
    ensures var r := Scan(cursor, start, finish, false, crc); |r.frames| >= 1 && r.frames[0] == []
    ensures Scan(cursor, start, finish, true, crc) == ScanResult(0, [], true)
  {
    var body := Mid(cursor, IndexOf(cursor, start) + |start|);
    NoFinishNoHeader(body, finish);
    ValidateWithoutHeader(Left(body, IndexOf(body, finish)), body, finish, false, crc);
    ValidateWithoutHeader(Left(body, IndexOf(body, finish)), body, finish, true, crc);
    assert Left(body, IndexOf(body, finish)) == [];
  }

  /** One iteration of the reader's loop measured from the start of the
      buffer `b`, with the cursor `at` bytes in. A held frame ends the pass
      with nothing consumed from the cursor on. */
  lemma LoopHolds(b: seq<byte>, at: nat, start: seq<byte>, finish: seq<byte>, flag: bool, crc: Checksums,
                  sIndex: int, body: seq<byte>, fIndex: int, frame: seq<byte>, v: Verdict)
    requires |start| > 0 && |finish| > 0
    requires Contains(Mid(b, at), start) && Contains(Mid(b, at), finish)
    requires sIndex == IndexOf(Mid(b, at), start)
    requires body == Mid(Mid(b, at), sIndex + |start|)
    requires fIndex == IndexOf(body, finish)
    requires frame == Left(body, fIndex)
    requires v == Validate(frame, body, finish, flag, crc)
    requires v.status == ChecksumIncomplete
    ensures Scan(Mid(b, at), start, finish, flag, crc) == ScanResult(0, [], v.crcEnabled)
  {
    ScanOneFrame(Mid(b, at), start, finish, flag, crc, sIndex, body, fIndex, frame, v);
  }

  /** The reader's loop invariant is kept by an iteration that takes a frame:
      `total` is the pass over the whole buffer `b`, and what has been consumed
      and emitted so far plus the pass over the rest is always that whole pass.
      The loop's values after the iteration are `at'`, `cursor'`, `emitted'`
      and `flag'`; the cursor is shorter than before. */
  lemma LoopKeeps(b: seq<byte>, at: nat, start: seq<byte>, finish: seq<byte>, flag: bool, crc: Checksums,
                  sIndex: int, body: seq<byte>, fIndex: int, frame: seq<byte>, v: Verdict,
                  total: ScanResult, emitted: seq<seq<byte>>,
                  at': int, cursor': seq<byte>, emitted': seq<seq<byte>>, flag': bool)
    requires |start| > 0 && |finish| > 0
    requires Contains(Mid(b, at), start) && Contains(Mid(b, at), finish)
    requires sIndex == IndexOf(Mid(b, at), start)
    requires body == Mid(Mid(b, at), sIndex + |start|)
    requires fIndex == IndexOf(body, finish)
    requires frame == Left(body, fIndex)
    requires v == Validate(frame, body, finish, flag, crc)
    requires v.status != ChecksumIncomplete
    requires total.consumed == at + Scan(Mid(b, at), start, finish, flag, crc).consumed
    requires total.frames == emitted + Scan(Mid(b, at), start, finish, flag, crc).frames
    requires total.crcEnabled == Scan(Mid(b, at), start, finish, flag, crc).crcEnabled
    requires at' == at + sIndex + |start| + fIndex + v.extra
    requires cursor' == Mid(body, fIndex + v.extra)
    requires emitted' == emitted + (if v.status == FrameOk then [frame] else [])
    requires flag' == v.crcEnabled
    ensures at' > at && cursor' == Mid(b, at') && |cursor'| < |Mid(b, at)|
    ensures total.consumed == at' + Scan(Mid(b, at'), start, finish, flag', crc).consumed
    ensures total.frames == emitted' + Scan(Mid(b, at'), start, finish, flag', crc).frames
    ensures total.crcEnabled == Scan(Mid(b, at'), start, finish, flag', crc).crcEnabled
  {
    hide FirstStep, Validate, Scan, IndexOf, Contains, Left;
    ScanOneFrame(Mid(b, at), start, finish, flag, crc, sIndex, body, fIndex, frame, v);
    MidMid(b, at, sIndex + |start|);
    MidMid(b, at + sIndex + |start|, fIndex + v.extra);
    var rest := Scan(Mid(b, at'), start, finish, v.crcEnabled, crc);
    var mine := if v.status == FrameOk then [frame] else [];
    assert emitted + (mine + rest.frames) == (emitted + mine) + rest.frames;
  }
}
