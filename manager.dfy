/** The I/O manager (IO/Manager.cpp): the accumulation buffer, the frame
    reader over it, the checksum-mode flag, the delimiter settings and the
    received-bytes counter. The transport is reduced to three flags that the
    drivers and the MQTT client set, and every Qt signal the manager emits is
    recorded in a log field. */
module IOManager {
  import opened Bytes
  import opened QtSeq
  import opened Escapes
  import opened Integrity
  import opened FrameScan

  const UINT64_MAX: int := 0xFFFF_FFFF_FFFF_FFFF

  /** `m_receivedBytes += n` on a quint64, followed by the reset to zero when
      the sum reaches UINT64_MAX. */
  function AddReceived(count: uint64, n: nat): (r: uint64)
    requires n < 0x8000_0000
    ensures r as int < UINT64_MAX
    ensures count as int + n < UINT64_MAX ==> r as int == count as int + n
    ensures count as int + n == UINT64_MAX ==> r == 0
    ensures count as int + n > UINT64_MAX ==> r as int == (count as int + n) % (UINT64_MAX + 1)
  {
    var sum := (count as int + n) % (UINT64_MAX + 1);
    if sum >= UINT64_MAX then 0 else sum as uint64
  }

  class Manager {
    /** m_dataBuffer */
    var buf: seq<byte>
    /** m_enableCrc */
    var enableCrc: bool
    /** m_maxBufferSize */
    var maxBufferSize: int
    /** m_receivedBytes */
    var receivedBytes: uint64
    var startSequence: string
    var finishSequence: string
    var separatorSequence: string

    /** Transport state, set by the drivers and the MQTT client: whether a
        driver is selected (m_driver is not null), whether it is open, and
        whether the MQTT client is subscribed. */
    var driverAvailable: bool
    var driverOpen: bool
    var mqttSubscribed: bool

    /** The frameReceived, dataReceived and dataSent signals, in emission order. */
    var frames: seq<seq<byte>>
    var rawData: seq<seq<byte>>
    var sent: seq<seq<byte>>

    /** The checksum primitives of IO/Checksum.h. */
    const checksums: Checksums

    /** The three delimiter sequences are never empty. */
    predicate Valid()
      reads this`startSequence, this`finishSequence, this`separatorSequence
    {
      startSequence != [] && finishSequence != [] && separatorSequence != []
    }

    /** connected(): the selected driver is open or, when no driver is
        selected, the MQTT client is subscribed. */
    predicate Connected()
      reads this`driverAvailable, this`driverOpen, this`mqttSubscribed
    {
      if driverAvailable then driverOpen else mqttSubscribed
    }

    /** The delimiters as the frame reader sees them. */
    function Start(): (s: seq<byte>)
      reads this`startSequence
      requires startSequence != []
      ensures |s| >= |startSequence| > 0
    {
      Utf8(startSequence)
    }

    function Finish(): (s: seq<byte>)
      reads this`finishSequence
      requires finishSequence != []
      ensures |s| >= |finishSequence| > 0
    {
      Utf8(finishSequence)
    }

    /** Manager(): the defaults, with the serial driver selected but not open. */
    constructor(crc: Checksums)
      ensures Valid()
      ensures buf == [] && !enableCrc && maxBufferSize == 1024 * 1024 && receivedBytes == 0
      ensures startSequence == "/*" && finishSequence == "*/" && separatorSequence == ","
      ensures driverAvailable && !driverOpen && !mqttSubscribed
      ensures frames == [] && rawData == [] && sent == []
      ensures checksums == crc
    {
      buf := [];
      enableCrc := false;
      maxBufferSize := 1024 * 1024;
      receivedBytes := 0;
      startSequence := "/*";
      finishSequence := "*/";
      separatorSequence := ",";
      driverAvailable := true;
      driverOpen := false;
      mqttSubscribed := false;
      frames := [];
      rawData := [];
      sent := [];
      checksums := crc;
    }

    /** setStartSequence: escapes decoded, the default start sequence when the
        result is empty. */
    method SetStartSequence(sequence: string)
      requires Valid()
      modifies this`startSequence
      ensures Valid()
      ensures startSequence == DecodeDelimiter(sequence, "/*")
    {
      startSequence := AddEscapeSequences(sequence);
      if startSequence == [] {
        startSequence := "/*";
      }
    }

    /** setFinishSequence: escapes decoded, the default finish sequence when the
        result is empty. */
    method SetFinishSequence(sequence: string)
      requires Valid()
      modifies this`finishSequence
      ensures Valid()
      ensures finishSequence == DecodeDelimiter(sequence, "*/")
    {
      finishSequence := AddEscapeSequences(sequence);
      if finishSequence == [] {
        finishSequence := "*/";
      }
    }

    /** setSeparatorSequence: escapes decoded, a comma when the result is empty. */
    method SetSeparatorSequence(sequence: string)
      requires Valid()
      modifies this`separatorSequence
      ensures Valid()
      ensures separatorSequence == DecodeDelimiter(sequence, ",")
    {
      separatorSequence := AddEscapeSequences(sequence);
      if separatorSequence == [] {
        separatorSequence := ",";
      }
    }

    /** setMaxBufferSize. */
    method SetMaxBufferSize(size: int)
      modifies this`maxBufferSize
      ensures maxBufferSize == size
    {
      maxBufferSize := size;
    }

    /** clearTempBuffer. */
    method ClearTempBuffer()
      modifies this`buf
      ensures buf == []
    {
      buf := [];
    }

    /** disconnectDriver: with a driver selected, close it and reset the
        counter and the buffer; in every case leave checksum mode. */
    method DisconnectDriver()
      modifies this`driverAvailable, this`driverOpen, this`receivedBytes, this`buf, this`enableCrc
      ensures !enableCrc
      ensures old(driverAvailable) ==> !driverAvailable && !driverOpen && receivedBytes == 0 && buf == []
      ensures !old(driverAvailable) ==> unchanged(this`driverAvailable, this`driverOpen, this`receivedBytes, this`buf)
    {
      if driverAvailable {
        driverOpen := false;
        driverAvailable := false;
        receivedBytes := 0;
        buf := [];
      }
      enableCrc := false;
    }

    /** readFrames: when connected, take every complete frame out of the
        buffer (ExtractFrames), emit them in order, drop the consumed bytes
        and wipe the rest when it outgrows the maximum buffer size. */
    method ReadFrames()
      requires Valid()
      modifies this`buf, this`enableCrc, this`frames
      ensures !Connected() ==> buf == old(buf) && enableCrc == old(enableCrc) && frames == old(frames)
      ensures Connected() ==>
        var r := Scan(old(buf), Start(), Finish(), old(enableCrc), checksums);
        frames == old(frames) + r.frames && enableCrc == r.crcEnabled &&
        buf == Remaining(old(buf), r.consumed, maxBufferSize)
      // what is left holds no frame for the next call to take
      ensures Connected() ==> Scan(buf, Start(), Finish(), enableCrc, checksums).frames == []
    {
      hide Scan, FirstStep, Validate, Remaining;
      if !Connected() {
        return;
      }
      var start, finish := Start(), Finish();
      var bytes, found, crcOn := ExtractFrames(buf, start, finish, enableCrc, checksums);
      frames := frames + found;
      enableCrc := crcOn;
      buf := RemovePrefix(buf, bytes);
      if |buf| > maxBufferSize {
        ClearTempBuffer();
      }
      RemainingHoldsNoFrame(old(buf), start, finish, old(enableCrc), checksums, maxBufferSize);
    }

    /** onDataReceived: a reception without a selected driver first drops
        checksum mode (disconnectDriver has nothing else to do then); the data
        is appended to the buffer, the frame reader runs over it, the counter
        grows by the data length and the data is reported as received. */
    method OnDataReceived(data: seq<byte>)
      requires Valid()
      requires |data| < 0x8000_0000
      modifies this`buf, this`enableCrc, this`frames, this`receivedBytes, this`rawData,
        this`driverAvailable, this`driverOpen
      ensures unchanged(this`driverAvailable, this`driverOpen)
      ensures var b := old(buf) + data;
        var flag := old(driverAvailable) && old(enableCrc);
        if Connected() then
          var r := Scan(b, Start(), Finish(), flag, checksums);
          frames == old(frames) + r.frames && enableCrc == r.crcEnabled &&
          buf == Remaining(b, r.consumed, maxBufferSize)
        else
          frames == old(frames) && enableCrc == flag && buf == b
      ensures Connected() ==> Scan(buf, Start(), Finish(), enableCrc, checksums).frames == []
      ensures receivedBytes == AddReceived(old(receivedBytes), |data|)
      ensures rawData == old(rawData) + [data]
    {
      hide Scan, FirstStep, Validate, Remaining;
      if !driverAvailable {
        DisconnectDriver();
      }
      buf := buf + data;
      ReadFrames();
      receivedBytes := AddReceived(receivedBytes, |data|);
      rawData := rawData + [data];
    }

    /** processPayload: a non-empty payload counts as received bytes and is
        reported both as received data and as one frame, without touching the
        buffer; an empty one is ignored. */
    method ProcessPayload(payload: seq<byte>)
      requires |payload| < 0x8000_0000
      modifies this`receivedBytes, this`rawData, this`frames
      ensures payload == [] ==> unchanged(this`receivedBytes, this`rawData, this`frames)
      ensures payload != [] ==>
        receivedBytes == AddReceived(old(receivedBytes), |payload|) &&
        rawData == old(rawData) + [payload] && frames == old(frames) + [payload]
    {
      if payload != [] {
        receivedBytes := AddReceived(receivedBytes, |payload|);
        rawData := rawData + [payload];
        frames := frames + [payload];
      }
    }

    /** writeData: when connected, the driver writes `data` and reports
        `written` bytes; the echo to the console is the prefix that was
        written. The result is the driver's count, or -1 when not connected. */
    method WriteData(data: seq<byte>, written: int) returns (r: int)
      modifies this`sent
      ensures r == if Connected() then written else -1
      ensures Connected() && written > 0 ==>
        sent == old(sent) + [data[..if written < |data| then written else |data|]]
      ensures !(Connected() && written > 0) ==> sent == old(sent)
    {
      if Connected() {
        if written > 0 {
          var writtenData := Chop(data, |data| - written);
          assert writtenData == data[..if written < |data| then written else |data|];
          sent := sent + [writtenData];
        }
        return written;
      }
      return -1;
    }

    /** integrityChecks(frame, cursor, &count): the checksum trailer check,
        branch for branch. It latches checksum mode when any header occurs in
        `cursor`, and returns the status with the updated byte count. */
    method IntegrityChecks(frame: seq<byte>, cursor: seq<byte>, count: int) returns (status: Status, count': int)
      requires Valid()
      modifies this`enableCrc
      ensures var v := Validate(frame, cursor, Finish(), old(enableCrc), checksums);
        status == v.status && count' == count + v.extra && enableCrc == v.crcEnabled
    {
      status, count', enableCrc := CheckTrailer(frame, cursor, count, Finish(), enableCrc, checksums);
    }
  }

  /** The body of integrityChecks with the finish sequence, the checksum-mode
      flag and the checksum primitives passed in, and the new flag passed out. */
  method CheckTrailer(frame: seq<byte>, cursor: seq<byte>, count: int, finish: seq<byte>, crcOn: bool, checksums: Checksums)
    returns (status: Status, count': int, enableCrc: bool)
    requires |finish| > 0
    ensures var v := Validate(frame, cursor, finish, crcOn, checksums);
      status == v.status && count' == count + v.extra && enableCrc == v.crcEnabled
  {
    enableCrc := crcOn;
    var crc8Header := finish + Tag(Crc8);
    var crc16Header := finish + Tag(Crc16);
    var crc32Header := finish + Tag(Crc32);
    count' := count;
    if Contains(cursor, crc8Header) {
      enableCrc := true;
      var offset := IndexOf(cursor, crc8Header) + |crc8Header| - 1;
      if |cursor| >= offset + 1 {
        count' := count' + |crc8Header| + 1;
        var crc := At(cursor, offset + 1);
        if checksums.crc8(frame) == crc {
          return FrameOk, count', enableCrc;
        } else {
          return ChecksumError, count', enableCrc;
        }
      }
    } else if Contains(cursor, crc16Header) {
      enableCrc := true;
      var offset := IndexOf(cursor, crc16Header) + |crc16Header| - 1;
      if |cursor| >= offset + 2 {
        count' := count' + |crc16Header| + 2;
        var a := At(cursor, offset + 1);
        var b := At(cursor, offset + 2);
        var crc := (a as int * 0x100 + b as int) as uint16;
        if checksums.crc16(frame) == crc {
          return FrameOk, count', enableCrc;
        } else {
          return ChecksumError, count', enableCrc;
        }
      }
    } else if Contains(cursor, crc32Header) {
      enableCrc := true;
      var offset := IndexOf(cursor, crc32Header) + |crc32Header| - 1;
      if |cursor| >= offset + 4 {
        count' := count' + |crc32Header| + 4;
        var a := At(cursor, offset + 1);
        var b := At(cursor, offset + 2);
        var c := At(cursor, offset + 3);
        var d := At(cursor, offset + 4);
        // the shifts and ors of four bytes, taken modulo 2^32 by the
        // conversion to quint32, are this sum
        var crc := (a as int * 0x100_0000 + b as int * 0x1_0000 + c as int * 0x100 + d as int) as uint32;
        if checksums.crc32(frame) == crc {
          return FrameOk, count', enableCrc;
        } else {
          return ChecksumError, count', enableCrc;
        }
      }
    } else if !enableCrc {
      ValidateWithoutHeader(frame, cursor, finish, crcOn, checksums);
      count' := count' + |finish|;
      return FrameOk, count', enableCrc;
    } else {
      ValidateWithoutHeader(frame, cursor, finish, crcOn, checksums);
    }
    return ChecksumIncomplete, count', enableCrc;
  }
  /** The loop of readFrames over the buffer `buf`, with the checksum-mode
      flag carried as a local: it returns the byte count the reader consumes,
      the frames it emits in order and the flag it leaves. The loop keeps
      `cursor` equal to the buffer without its first `bytes` bytes, and what
      is still to come equal to one pass of Scan over the cursor, so the
      method as a whole does what Scan says. */
  method ExtractFrames(buf: seq<byte>, start: seq<byte>, finish: seq<byte>, crcOn: bool, checksums: Checksums)
    returns (bytes: nat, found: seq<seq<byte>>, enableCrc: bool)
    requires |start| > 0 && |finish| > 0
    ensures Scan(buf, start, finish, crcOn, checksums) == ScanResult(bytes, found, enableCrc)
  {
    // The proof needs no function definitions, only the facts that the
    // lemmas it calls state about them; hiding them keeps it small.
    hide *;
    bytes := 0;
    var prevBytes := 0;
    var cursor := buf;
    found := [];
    enableCrc := crcOn;
    ghost var total := Scan(buf, start, finish, crcOn, checksums);
    MidZero(buf);
    while Contains(cursor, start) && Contains(cursor, finish)
      invariant prevBytes == bytes
      invariant cursor == Mid(buf, bytes)
      invariant total.consumed == bytes + Scan(Mid(buf, bytes), start, finish, enableCrc, checksums).consumed
      invariant total.frames == found + Scan(Mid(buf, bytes), start, finish, enableCrc, checksums).frames
      invariant total.crcEnabled == Scan(Mid(buf, bytes), start, finish, enableCrc, checksums).crcEnabled
      decreases |cursor|
    {
      ghost var flag, at := enableCrc, bytes;
      var sIndex := IndexOf(cursor, start);
      cursor := Mid(cursor, sIndex + |start|);
      bytes := bytes + sIndex + |start|;

      var fIndex := IndexOf(cursor, finish);
      var frame := Left(cursor, fIndex);

      var status, chop;
      status, chop, enableCrc := CheckTrailer(frame, cursor, 0, finish, enableCrc, checksums);
      ghost var v := Validate(frame, cursor, finish, flag, checksums);
      if status == ChecksumIncomplete {
        LoopHolds(buf, at, start, finish, flag, checksums, sIndex, cursor, fIndex, frame, v);
        bytes := prevBytes;
        break;
      }
      ghost var body, emitted := cursor, found;
      if status == FrameOk {
        found := found + [frame];
      }

      cursor := Mid(cursor, fIndex + chop);
      bytes := bytes + fIndex + chop;
      prevBytes := bytes;
      LoopKeeps(buf, at, start, finish, flag, checksums, sIndex, body, fIndex, frame, v,
                total, emitted, bytes, cursor, found, enableCrc);
    }
    if !(Contains(cursor, start) && Contains(cursor, finish)) {
      ScanNoPair(cursor, start, finish, enableCrc, checksums);
    }
  }
}
