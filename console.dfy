/** The console (IO/Console.cpp): the history of sent commands with the
    cursor the Up and Down keys move, the text shown for received data, and
    the conversion of a typed command into the bytes handed to the I/O
    manager. */
module IOConsole {
  import opened Bytes
  import opened QtSeq
  import opened HexText
  import opened ConsoleLines
  import IOManager

  /** How typed commands are turned into bytes. */
  datatype DataMode = DataUTF8 | DataHexadecimal

  /** What is sent after each command. */
  datatype LineEnding = NoLineEnding | NewLine | CarriageReturn | BothNewLineAndCarriageReturn

  /** addToHistory drops the oldest commands while there are more than this
      many. */
  const HistoryLimit := 100

  /** The bytes send appends for a line ending. */
  function EndingBytes(e: LineEnding): (r: seq<byte>)
    ensures |r| <= 2
    ensures r == [] <==> e == NoLineEnding
    ensures e != NoLineEnding ==>
      (r[|r| - 1] == 10 <==> e != CarriageReturn) && (r[0] == 13 <==> e != NewLine)
  {
    match e
    case NoLineEnding => []
    case NewLine => [10]
    case CarriageReturn => [13]
    case BothNewLineAndCarriageReturn => [13, 10]
  }

  /** The bytes send writes for the command `data`: hexToBytes of it in
      hexadecimal mode, its UTF-8 encoding otherwise, then the line
      ending. */
  function Payload(data: string, mode: DataMode, e: LineEnding): (r: seq<byte>)
  {
    (if mode == DataHexadecimal then PairBytes(Without(data, ' ')) else Utf8(data)) + EndingBytes(e)
  }

  /** The line ending is the tail of every payload, after the converted
      command. */
  lemma PayloadEnds(data: string, mode: DataMode, e: LineEnding)
    ensures |Payload(data, mode, e)| >= |EndingBytes(e)|
    ensures Payload(data, mode, e)[|Payload(data, mode, e)| - |EndingBytes(e)|..] == EndingBytes(e)
    ensures mode == DataHexadecimal ==>
      Payload(data, mode, e)[..|Payload(data, mode, e)| - |EndingBytes(e)|] == PairBytes(Without(data, ' '))
  {
  }

  /** Bytes typed as hexadecimal digit pairs and laid out by formatUserHex
      are sent as exactly those bytes, followed by the line ending. */
  lemma HexPayloadRoundTrip(bs: seq<byte>, e: LineEnding)
    ensures Payload(Grouped(HexDigits(bs)), DataHexadecimal, e) == bs + EndingBytes(e)
  {
    HexDigitsNoSpace(bs);
    GroupedRoundTrip(HexDigits(bs));
    HexDigitsRoundTrip(bs);
  }

  /** ASCII text in UTF-8 mode is sent byte for byte. */
  lemma AsciiPayload(s: string, e: LineEnding)
    requires forall i :: 0 <= i < |s| ==> s[i] as int < 0x80
    ensures |Payload(s, DataUTF8, e)| == |s| + |EndingBytes(e)|
    ensures forall i :: 0 <= i < |s| ==> Payload(s, DataUTF8, e)[i] as int == s[i] as int
  {
  }

  /** Hexadecimal digits written for bytes hold no space. */
  lemma {:induction false} HexDigitsNoSpace(bs: seq<byte>)
    ensures ' ' !in HexDigits(bs)
    decreases |bs|
  {
    if bs != [] {
      HexDigitsNoSpace(bs[1..]);
      var p := HexPair(bs[0]);
      assert IsHexDigit(p[0]) && IsHexDigit(p[1]);
      assert HexDigits(bs) == p + HexDigits(bs[1..]);
    }
  }

  class Console {
    /** m_historyItems: sent commands, oldest first. */
    var historyItems: seq<string>
    /** m_historyItem: the entry the Up and Down keys have selected. */
    var historyItem: int
    /** m_isStartingLine: the next text shown starts a new line. */
    var isStartingLine: bool
    /** m_textBuffer: everything shown so far. */
    var textBuffer: string
    var dataMode: DataMode
    var lineEnding: LineEnding

    /** The history cursor stays within the list or one past its end. */
    predicate Valid()
      reads this`historyItems, this`historyItem
    {
      0 <= historyItem <= |historyItems|
    }

    /** UTF-8 mode, no line ending, an empty history and an empty screen
        that starts a line. */
    constructor()
      ensures historyItems == [] && historyItem == 0 && Valid()
      ensures isStartingLine && textBuffer == []
      ensures dataMode == DataUTF8 && lineEnding == NoLineEnding
    {
      historyItems := [];
      historyItem := 0;
      isStartingLine := true;
      textBuffer := [];
      dataMode := DataUTF8;
      lineEnding := NoLineEnding;
    }

    /** currentHistoryString(): the selected command, or the empty string
        when the cursor is outside the list. */
    function CurrentHistoryString(): (s: string)
      reads this`historyItems, this`historyItem
      ensures s in historyItems || s == []
      ensures 0 <= historyItem < |historyItems| ==> s == historyItems[historyItem]
      ensures !(0 <= historyItem < |historyItems|) ==> s == []
    {
      if historyItem < |historyItems| && historyItem >= 0 then historyItems[historyItem] else ""
    }

    /** addToHistory: the oldest commands are dropped while there are more
        than a hundred, then the command is appended and the cursor placed
        one past it. */
    method AddToHistory(command: string)
      modifies this`historyItems, this`historyItem
      ensures historyItems ==
        (if |old(historyItems)| > HistoryLimit then old(historyItems)[|old(historyItems)| - HistoryLimit..]
         else old(historyItems)) + [command]
      ensures |historyItems| <= HistoryLimit + 1
      ensures historyItems[|historyItems| - 1] == command
      ensures historyItem == |historyItems| && Valid()
      ensures CurrentHistoryString() == []
    {
      ghost var before := historyItems;
      while |historyItems| > HistoryLimit
        invariant |historyItems| <= |before|
        invariant historyItems == before[|before| - |historyItems|..]
        invariant |before| > HistoryLimit ==> |historyItems| >= HistoryLimit
        invariant |before| <= HistoryLimit ==> historyItems == before
        decreases |historyItems|
      {
        historyItems := historyItems[1..];
      }
      historyItems := historyItems + [command];
      historyItem := |historyItems|;
    }

    /** historyUp: one entry older, unless the oldest is selected. */
    method HistoryUp()
      modifies this`historyItem
      ensures historyItem == if old(historyItem) > 0 then old(historyItem) - 1 else old(historyItem)
      ensures old(Valid()) ==> Valid()
    {
      if historyItem > 0 {
        historyItem := historyItem - 1;
      }
    }

    /** historyDown: one entry newer, unless the newest (or nothing past it)
        is selected; the cursor never moves back past the end. */
    method HistoryDown()
      modifies this`historyItem
      ensures historyItem ==
        if old(historyItem) < |historyItems| - 1 then old(historyItem) + 1 else old(historyItem)
      ensures old(Valid()) ==> Valid()
    {
      if historyItem < |historyItems| - 1 {
        historyItem := historyItem + 1;
      }
    }

    /** append(string, addTimestamp): line breaks normalised to '\n', then
        the text split into lines and separators and written to the screen
        with the timestamp `now` (when asked for) in front of every line
        that starts. Empty text changes nothing. */
    method Append(s: string, addTimestamp: bool, now: string)
      modifies this`textBuffer, this`isStartingLine
      ensures s == [] ==> textBuffer == old(textBuffer) && isStartingLine == old(isStartingLine)
      ensures s != [] ==>
        textBuffer == old(textBuffer) + Stamped(Normalize(s), old(isStartingLine), if addTimestamp then now else [])
      ensures s != [] ==> isStartingLine == EndsLine(Normalize(s), old(isStartingLine))
    {
      if s == [] {
        return;
      }
      var data := ReplaceAll(s, "\r\n", "\n");
      data := ReplaceAll(data, "\r", "\n");
      var timestamp := if addTimestamp then now else [];

      var tokens := SplitLines(data);
      RenderTokens([], data, isStartingLine, timestamp);
      EndStateTokens([], data, isStartingLine);
      assert [] + data == data;

      var processed := ShowTokens(tokens, timestamp);
      textBuffer := textBuffer + processed;
    }

    /** append's second loop: each token in turn, after the timestamp when
        at a line start; a "\n" token makes the next one start a line. */
    method ShowTokens(tokens: seq<string>, timestamp: string) returns (processed: string)
      modifies this`isStartingLine
      ensures processed == Render(tokens, old(isStartingLine), timestamp)
      ensures isStartingLine == EndState(tokens, old(isStartingLine))
    {
      hide Render, EndState;
      processed := [];
      var rest := tokens;
      while rest != []
        invariant processed + Render(rest, isStartingLine, timestamp) == Render(tokens, old(isStartingLine), timestamp)
        invariant EndState(rest, isStartingLine) == EndState(tokens, old(isStartingLine))
        decreases |rest|
      {
        RenderFirst(rest, isStartingLine, timestamp);
        if isStartingLine {
          processed := processed + timestamp;
        }
        var token := rest[0];
        processed := processed + token;
        isStartingLine := token == "\n";
        rest := rest[1..];
      }
      RenderNone(isStartingLine, timestamp);
    }

    /** send(data): nothing without data or a connection; otherwise the
        command goes into the history, is converted in the current data mode,
        gets the current line ending, and is written by the manager. */
    method Send(data: string, manager: IOManager.Manager, written: int)
      modifies this`historyItems, this`historyItem, manager`sent
      ensures data == [] || !manager.Connected() ==>
        historyItems == old(historyItems) && historyItem == old(historyItem) &&
        manager.sent == old(manager.sent)
      ensures data != [] && manager.Connected() ==>
        historyItems ==
          (if |old(historyItems)| > HistoryLimit then old(historyItems)[|old(historyItems)| - HistoryLimit..]
           else old(historyItems)) + [data] &&
        historyItem == |historyItems|
      ensures data != [] && manager.Connected() && written > 0 ==>
        manager.sent == old(manager.sent) +
          [Payload(data, dataMode, lineEnding)[..Min(written, |Payload(data, dataMode, lineEnding)|)]]
      ensures data != [] && manager.Connected() && written <= 0 ==> manager.sent == old(manager.sent)
    {
      if data == [] || !manager.Connected() {
        return;
      }

      AddToHistory(data);

      var bin;
      if dataMode == DataHexadecimal {
        bin := HexToBytes(data);
      } else {
        bin := Utf8(data);
      }

      match lineEnding {
        case NoLineEnding =>
        case NewLine =>
          bin := bin + [10];
        case CarriageReturn =>
          bin := bin + [13];
        case BothNewLineAndCarriageReturn =>
          bin := bin + [13];
          bin := bin + [10];
      }
      assert bin == Payload(data, dataMode, lineEnding);

      var _ := manager.WriteData(bin, written);
    }
  }

  function Min(a: int, b: int): int
  {
    if a < b then a else b
  }

  /** append's first loop: the text cut into tokens, each '\n' a token of its
      own. */
  method SplitLines(data: string) returns (tokens: seq<string>)
    ensures tokens == TokensFrom([], data)
  {
    tokens := [];
    var currentToken := [];
    for i := 0 to |data|
      invariant '\n' !in currentToken
      invariant tokens + TokensFrom(currentToken, data[i..]) == TokensFrom([], data)
    {
      assert data[i..][0] == data[i] && data[i..][1..] == data[i + 1..];
      if data[i] == '\n' {
        tokens := tokens + [currentToken, "\n"];
        currentToken := [];
      } else {
        currentToken := currentToken + [data[i]];
      }
    }
    if currentToken != [] {
      tokens := tokens + [currentToken];
    }
  }
}
