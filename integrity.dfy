/** The checksum trailer check of the frame reader (IO/Manager.cpp,
    integrityChecks): which header follows a frame, whether its checksum bytes
    have arrived, and whether they match. */
module Integrity {
  import opened Bytes
  import opened QtSeq

  datatype Option<T> = None | Some(value: T)

  /** ValidationStatus (IO/Manager.h). */
  datatype Status = FrameOk | ChecksumError | ChecksumIncomplete

  /** The three checksum trailers, in the order in which they are looked for. */
  datatype Width = Crc8 | Crc16 | Crc32

  /** The checksum primitives of the program. Their algorithms are not part of
      this model: every lemma holds for any three functions of these types. */
  datatype Checksums = Checksums(crc8: seq<byte> -> byte, crc16: seq<byte> -> uint16, crc32: seq<byte> -> uint32)

  /** The outcome of one check: the status, how many bytes the caller must add
      to its consumed count, and the new value of the checksum-mode flag. */
  datatype Verdict = Verdict(status: Status, extra: nat, crcEnabled: bool)

  /** Number of checksum bytes after the header. */
  function Size(w: Width): nat
  {
    match w
    case Crc8 => 1
    case Crc16 => 2
    case Crc32 => 4
  }

  /** "crc8:", "crc16:" and "crc32:" as bytes. */
  function Tag(w: Width): seq<byte>
  {
    match w
    case Crc8 => [0x63, 0x72, 0x63, 0x38, 0x3A]
    case Crc16 => [0x63, 0x72, 0x63, 0x31, 0x36, 0x3A]
    case Crc32 => [0x63, 0x72, 0x63, 0x33, 0x32, 0x3A]
  }

  /** The trailer header: the finish sequence immediately followed by the tag. */
  function Header(finish: seq<byte>, w: Width): seq<byte>
  {
    finish + Tag(w)
  }

  /** The checksum of `frame` that the program computes for width `w`. */
  function Computed(crc: Checksums, w: Width, frame: seq<byte>): nat
  {
    match w
    case Crc8 => crc.crc8(frame) as nat
    case Crc16 => crc.crc16(frame) as nat
    case Crc32 => crc.crc32(frame) as nat
  }

  /** The first header, in CRC-8, CRC-16, CRC-32 order, that occurs anywhere in
      `cursor`. */
  function FirstHeader(cursor: seq<byte>, finish: seq<byte>): Option<Width>
    requires |finish| > 0
  {
    if Contains(cursor, Header(finish, Crc8)) then Some(Crc8)
    else if Contains(cursor, Header(finish, Crc16)) then Some(Crc16)
    else if Contains(cursor, Header(finish, Crc32)) then Some(Crc32)
    else None
  }

  /** The position just past the first occurrence of the header. */
  function AfterHeader(cursor: seq<byte>, finish: seq<byte>, w: Width): (p: int)
    requires |finish| > 0
    requires FirstHeader(cursor, finish) == Some(w)
    ensures |Header(finish, w)| <= p <= |cursor|
  {
    IndexOf(cursor, Header(finish, w)) + |Header(finish, w)|
  }

  /** The `n` bytes read as the checksum, starting just past the header; a
      read at index |cursor| gives the array's terminating zero. */
  function ChecksumBytes(cursor: seq<byte>, from: nat, n: nat): (r: seq<byte>)
    requires from + n <= |cursor| + 1
    ensures |r| == n
  {
    seq(n, k requires 0 <= k < n => At(cursor, from + k))
  }

  /** The received checksum: the Size(w) bytes from `from` on, combined by
      shifts with the first byte most significant. */
  function Received(cursor: seq<byte>, from: nat, w: Width): nat
    requires from + Size(w) <= |cursor| + 1
  {
    match w
    case Crc8 => At(cursor, from) as nat
    case Crc16 => At(cursor, from) as nat * 0x100 + At(cursor, from + 1) as nat
    case Crc32 =>
      At(cursor, from) as nat * 0x100_0000 + At(cursor, from + 1) as nat * 0x1_0000 +
      At(cursor, from + 2) as nat * 0x100 + At(cursor, from + 3) as nat
  }

  /** The received checksum is the big-endian value of the bytes read. */
  lemma ReceivedIsBigEndian(cursor: seq<byte>, from: nat, w: Width)
    requires from + Size(w) <= |cursor| + 1
    ensures Received(cursor, from, w) == BigEndian(ChecksumBytes(cursor, from, Size(w)))
  {
    var r := ChecksumBytes(cursor, from, Size(w));
    match w
    case Crc8 =>
      assert r == [At(cursor, from)];
      BigEndianSingle(r[0]);
    case Crc16 =>
      assert r == [At(cursor, from), At(cursor, from + 1)];
      BigEndianPair(r[0], r[1]);
    case Crc32 =>
      assert r == [At(cursor, from), At(cursor, from + 1), At(cursor, from + 2), At(cursor, from + 3)];
      BigEndianQuad(r[0], r[1], r[2], r[3]);
  }

  /** integrityChecks(frame, cursor, &bytes) for the current checksum-mode flag
      `crcOn`: the status, the bytes to add to the count, and the new flag. The
      check for "enough data" is the program's: it lets the last checksum byte
      be the terminating zero (see Crc8NeverIncomplete and
      LastChecksumByteMayBeTerminator). What the verdict means is stated by
      ValidateWithoutHeader and ValidateWithHeader. */
  function Validate(frame: seq<byte>, cursor: seq<byte>, finish: seq<byte>, crcOn: bool, crc: Checksums): (v: Verdict)
    requires |finish| > 0
    // a header anywhere in the cursor latches checksum mode; nothing clears it
    ensures FirstHeader(cursor, finish).Some? ==> v.crcEnabled
    ensures crcOn ==> v.crcEnabled
    // an incomplete verdict never asks the caller to consume anything, and
    // any other verdict consumes at least the finish sequence
    ensures v.status == ChecksumIncomplete ==> v.extra == 0
    ensures v.status != ChecksumIncomplete ==> v.extra >= |finish|
  {
    match FirstHeader(cursor, finish)
    case None =>
      if crcOn then Verdict(ChecksumIncomplete, 0, true) else Verdict(FrameOk, |finish|, false)
    case Some(w) =>
      var h := Header(finish, w);
      var offset := IndexOf(cursor, h) + |h| - 1;
      if |cursor| >= offset + Size(w) then
        var status := if Computed(crc, w, frame) == Received(cursor, offset + 1, w) then FrameOk else ChecksumError;
        Verdict(status, |h| + Size(w), true)
      else
        Verdict(ChecksumIncomplete, 0, true)
  }

  /** Without any header: plain framing (the finish sequence is consumed) while
      checksum mode is off, and waiting for more data once it is on. */
  lemma ValidateWithoutHeader(frame: seq<byte>, cursor: seq<byte>, finish: seq<byte>, crcOn: bool, crc: Checksums)
    requires |finish| > 0
    requires FirstHeader(cursor, finish) == None
    ensures Validate(frame, cursor, finish, crcOn, crc) ==
      if crcOn then Verdict(ChecksumIncomplete, 0, true) else Verdict(FrameOk, |finish|, false)
  {
  }

  /** With a header of width `w` coming first: the verdict is incomplete
      exactly when fewer than Size(w) - 1 bytes follow the header; otherwise it
      consumes the header and the checksum, and is FrameOk exactly when the
      received checksum equals the computed one. Checksum mode is on either way. */
  lemma ValidateWithHeader(frame: seq<byte>, cursor: seq<byte>, finish: seq<byte>, crcOn: bool, crc: Checksums, w: Width)
    requires |finish| > 0
    requires FirstHeader(cursor, finish) == Some(w)
    ensures var v := Validate(frame, cursor, finish, crcOn, crc);
      var after := AfterHeader(cursor, finish, w);
      v.crcEnabled &&
      (v.status == ChecksumIncomplete <==> |cursor| - after < Size(w) - 1) &&
      (v.status != ChecksumIncomplete ==>
        v.extra == |Header(finish, w)| + Size(w) &&
        (v.status == FrameOk <==> Computed(crc, w, frame) == Received(cursor, after, w)))
  {
  }

  /** The CRC-8 check compares the length with the header's last index rather
      than with the checksum byte's index, so once a CRC-8 header is present the
      verdict is never "incomplete". */
  lemma Crc8NeverIncomplete(frame: seq<byte>, cursor: seq<byte>, finish: seq<byte>, crcOn: bool, crc: Checksums)
    requires |finish| > 0
    requires FirstHeader(cursor, finish) == Some(Crc8)
    ensures Validate(frame, cursor, finish, crcOn, crc).status != ChecksumIncomplete
    ensures Validate(frame, cursor, finish, crcOn, crc).crcEnabled
  {
  }

  /** When exactly Size - 1 checksum bytes have arrived, the verdict is already
      given, and the missing last byte is read as the terminating zero. */
  lemma LastChecksumByteMayBeTerminator(cursor: seq<byte>, finish: seq<byte>, w: Width)
    requires |finish| > 0
    requires FirstHeader(cursor, finish) == Some(w)
    requires |cursor| - AfterHeader(cursor, finish, w) == Size(w) - 1
    ensures ChecksumBytes(cursor, AfterHeader(cursor, finish, w), Size(w))[Size(w) - 1] == 0
  {
    var a := AfterHeader(cursor, finish, w);
    assert ChecksumBytes(cursor, a, Size(w))[Size(w) - 1] == At(cursor, |cursor|);
  }

  /** Since every header begins with the finish sequence, a cursor in which a
      header occurs also contains the finish sequence, no later than the header.
      The reader measures what it consumes from that finish sequence. */
  lemma {:induction false} HeaderContainsFinish(cursor: seq<byte>, finish: seq<byte>, w: Width)
    requires |finish| > 0
    requires FirstHeader(cursor, finish) == Some(w)
    ensures 0 <= IndexOf(cursor, finish) <= IndexOf(cursor, Header(finish, w))
  {
    var j := IndexOf(cursor, Header(finish, w));
    IndexOfFirst(cursor, Header(finish, w));
    PrefixOccurs(cursor, finish, Tag(w), j);
    FoundNoLater(cursor, finish, j);
  }
}
