/** The hexadecimal input helpers of the console (IO/Console.cpp):
    formatUserHex, which lays typed hex out in pairs, and hexToBytes, which
    turns such text into the bytes sent to the device. */
module HexText {
  import opened Bytes
  import opened QtSeq

  /** QChar::isSpace: the controls U+0009 to U+000D, U+0085 and the Unicode
      separators (categories Zs, Zl and Zp). */
  predicate IsSpace(c: char)
  {
    c == ' ' || ('\t' <= c <= '\r') || c == '\U{85}' || c == '\U{A0}' || c == '\U{1680}' ||
    ('\U{2000}' <= c <= '\U{200A}') || c == '\U{2028}' || c == '\U{2029}' ||
    c == '\U{202F}' || c == '\U{205F}' || c == '\U{3000}'
  }

  /** The characters of `s` other than `c`, in order. */
  function Without(s: string, c: char): (r: string)
    ensures |r| <= |s|
    ensures c !in r
  {
    if s == [] then [] else (if s[0] == c then [] else [s[0]]) + Without(s[1..], c)
  }

  /** The characters of `s` that are not white space, in order. */
  function NoSpace(s: string): (r: string)
    ensures |r| <= |s|
    ensures forall i :: 0 <= i < |r| ==> !IsSpace(r[i])
  {
    if s == [] then [] else (if IsSpace(s[0]) then [] else [s[0]]) + NoSpace(s[1..])
  }

  /** QString::simplified: white space dropped at both ends and every inner
      run of it replaced by one space. `started` says a character has been
      kept, `gap` that a run of white space follows it. */
  function SimplifyFrom(s: string, started: bool, gap: bool): string
  {
    if s == [] then []
    else if IsSpace(s[0]) then SimplifyFrom(s[1..], started, started)
    else (if gap then " " else "") + [s[0]] + SimplifyFrom(s[1..], true, false)
  }

  function Simplified(s: string): string
  {
    SimplifyFrom(s, false, false)
  }

  /** Dropping a character distributes over concatenation. */
  lemma {:induction false} WithoutConcat(a: string, b: string, c: char)
    ensures Without(a + b, c) == Without(a, c) + Without(b, c)
    decreases |a|
  {
    if a != [] {
      var h := if a[0] == c then [] else [a[0]];
      assert (a + b)[0] == a[0];
      assert (a + b)[1..] == a[1..] + b;
      assert Without(a + b, c) == h + Without(a[1..] + b, c);
      WithoutConcat(a[1..], b, c);
      assert h + (Without(a[1..], c) + Without(b, c)) == (h + Without(a[1..], c)) + Without(b, c);
    } else {
      assert a + b == b;
    }
  }

  /** One character is dropped exactly when it is `c`. */
  lemma WithoutEmpty(c: char)
    ensures Without([], c) == []
  {
  }

  lemma WithoutSingle(x: char, c: char)
    ensures Without([x], c) == if x == c then [] else [x]
  {
    assert [x][1..] == [];
  }

  /** replace(c, "") with a one-character pattern drops that character. */
  lemma {:induction false} ReplaceDrops(s: string, c: char)
    ensures ReplaceAll(s, [c], []) == Without(s, c)
    decreases |s|
  {
    if s != [] {
      ReplaceDrops(s[1..], c);
      assert StartsWith(s, [c]) <==> s[0] == c by {
        assert [c][1..] == [];
      }
      assert s[|[c]|..] == s[1..];
    }
  }

  /** simplified() followed by replace(" ", "") removes all white space, and
      nothing else. */
  lemma {:induction false} SimplifiedWithoutSpaces(s: string, started: bool, gap: bool)
    ensures Without(SimplifyFrom(s, started, gap), ' ') == NoSpace(s)
    decreases |s|
  {
    if s != [] {
      if IsSpace(s[0]) {
        SimplifiedWithoutSpaces(s[1..], started, started);
      } else {
        SimplifiedWithoutSpaces(s[1..], true, false);
        var pre := (if gap then " " else "") + [s[0]];
        WithoutConcat(pre, SimplifyFrom(s[1..], true, false), ' ');
        WithoutConcat(if gap then " " else "", [s[0]], ' ');
      }
    }
  }

  // ---------------------------------------------------------------- formatUserHex

  /** What formatUserHex's loop builds from `d`: each character, and a space
      after every second one. */
  function Spaced(d: string): (r: string)
    ensures |r| == |d| + |d| / 2
  {
    if d == [] then [] else Spaced(d[..|d| - 1]) + [d[|d| - 1]] + (if |d| % 2 == 0 then " " else "")
  }

  /** The trailing spaces removed (formatUserHex's chop loop). */
  function ChopSpaces(s: string): (r: string)
    ensures |r| <= |s| && r == s[..|r|]
    ensures r == [] || r[|r| - 1] != ' '
  {
    if s != [] && s[|s| - 1] == ' ' then ChopSpaces(s[..|s| - 1]) else s
  }

  /** The text formatUserHex returns for the white-space-free input `d`. */
  function Grouped(d: string): string
  {
    ChopSpaces(Spaced(d))
  }

  /** formatUserHex: white space removed, then the characters in pairs
      separated by single spaces. */
  method FormatUserHex(text: string) returns (str: string)
    ensures str == Grouped(NoSpace(text))
  {
    hide NoSpace, Without, SimplifyFrom, ReplaceAll;
    var data := Simplified(text);
    data := ReplaceAll(data, " ", "");
    ReplaceDrops(Simplified(text), ' ');
    SimplifiedWithoutSpaces(text, false, false);

    str := "";
    for i := 0 to |data|
      invariant str == Spaced(data[..i])
    {
      str := str + [data[i]];
      if (i + 1) % 2 == 0 && i > 0 {
        str := str + " ";
      }
      assert data[..i + 1][..i] == data[..i];
    }
    assert data[..|data|] == data;

    while |str| > 0 && str[|str| - 1] == ' '
      invariant ChopSpaces(str) == ChopSpaces(Spaced(data))
      decreases |str|
    {
      str := Chop(str, 1);
    }
  }

  /** The layout of Spaced: every third position holds a space and the others
      hold the input in order. */
  lemma {:induction false} SpacedLayout(d: string)
    ensures forall i :: 0 <= i < |Spaced(d)| ==>
      Spaced(d)[i] == if i % 3 == 2 then ' ' else d[i - i / 3]
    decreases |d|
  {
    if d != [] {
      var n := |d|;
      var e := d[..n - 1];
      SpacedLayout(e);
      var s := Spaced(d);
      var m := |Spaced(e)|;
      forall i | 0 <= i < |s|
        ensures s[i] == if i % 3 == 2 then ' ' else d[i - i / 3]
      {
        if i < m {
          assert s[i] == Spaced(e)[i];
        } else if i == m {
          assert s[i] == d[n - 1];
          assert i - i / 3 == n - 1 && i % 3 != 2 by {
            if (n - 1) % 2 == 0 {
              assert m == 3 * ((n - 1) / 2);
            } else {
              assert m == 3 * ((n - 1) / 2) + 1;
            }
          }
        } else {
          assert n % 2 == 0 && i == m + 1;
          assert m == 3 * ((n - 1) / 2) + 1;
        }
      }
    }
  }

  /** formatUserHex's result for a space-free `d` is laid out as pairs: its
      length is that of `d` plus one space per complete pair that another
      character follows, every third position is a space, the others hold
      `d` in order, and it never ends with a space. */
  lemma GroupedLayout(d: string)
    requires ' ' !in d
    ensures |Grouped(d)| == if d == [] then 0 else |d| + (|d| - 1) / 2
    ensures forall i :: 0 <= i < |Grouped(d)| ==>
      Grouped(d)[i] == if i % 3 == 2 then ' ' else d[i - i / 3]
    ensures Grouped(d) == [] || Grouped(d)[|Grouped(d)| - 1] != ' '
  {
    SpacedLayout(d);
    var s := Spaced(d);
    if d != [] && |d| % 2 == 0 {
      assert s[|s| - 1] == ' ';
      var t := s[..|s| - 1];
      assert t[|t| - 1] == d[|d| - 1];
      assert ChopSpaces(s) == t;
    } else if d != [] {
      assert s[|s| - 1] == d[|d| - 1];
    }
  }

  /** Deleting the spaces from formatUserHex's output gives back the
      white-space-free input. */
  lemma {:induction false} SpacedRoundTrip(d: string)
    requires ' ' !in d
    ensures Without(Spaced(d), ' ') == d
    decreases |d|
  {
    hide Without;
    if d == [] {
      WithoutEmpty(' ');
    } else {
      var e, x := d[..|d| - 1], d[|d| - 1];
      assert ' ' !in e by {
        assert forall i :: 0 <= i < |e| ==> e[i] == d[i];
      }
      assert x != ' ';
      SpacedRoundTrip(e);
      WithoutConcat(Spaced(e), [x], ' ');
      WithoutSingle(x, ' ');
      if |d| % 2 == 0 {
        assert Spaced(d) == (Spaced(e) + [x]) + [' '];
        WithoutConcat(Spaced(e) + [x], [' '], ' ');
        WithoutSingle(' ', ' ');
      } else {
        assert Spaced(d) == Spaced(e) + [x];
      }
      assert e + [x] == d;
    }
  }

  lemma {:induction false} ChopSpacesWithout(s: string)
    ensures Without(ChopSpaces(s), ' ') == Without(s, ' ')
    decreases |s|
  {
    if s != [] && s[|s| - 1] == ' ' {
      var t := s[..|s| - 1];
      assert ChopSpaces(s) == ChopSpaces(t);
      ChopSpacesWithout(t);
      assert t + [' '] == s;
      WithoutConcat(t, [' '], ' ');
      WithoutSingle(' ', ' ');
    }
  }

  lemma GroupedRoundTrip(d: string)
    requires ' ' !in d
    ensures Without(Grouped(d), ' ') == d
  {
    SpacedRoundTrip(d);
    ChopSpacesWithout(Spaced(d));
  }

  // ---------------------------------------------------------------- hexToBytes

  /** QString::at on a null-terminated string: index |s| is U+0000. */
  function CharAt(s: string, i: int): char
    requires 0 <= i <= |s|
  {
    if i < |s| then s[i] else '\0'
  }

  predicate IsHexDigit(c: char)
  {
    '0' <= c <= '9' || 'a' <= c <= 'f' || 'A' <= c <= 'F'
  }

  function DigitValue(c: char): (v: nat)
    requires IsHexDigit(c)
    ensures v < 16
  {
    if '0' <= c <= '9' then c as int - '0' as int
    else if 'a' <= c <= 'f' then c as int - 'a' as int + 10
    else c as int - 'A' as int + 10
  }

  predicate AllHexDigits(s: string)
  {
    forall i :: 0 <= i < |s| ==> IsHexDigit(s[i])
  }

  /** The value of a string of hexadecimal digits, most significant first. */
  function HexValue(s: string): (v: nat)
    requires AllHexDigits(s)
  {
    if s == [] then 0 else HexValue(s[..|s| - 1]) * 16 + DigitValue(s[|s| - 1])
  }

  /** White space removed from both ends (QString::trimmed). */
  function Trimmed(s: string): (r: string)
    ensures |r| <= |s|
  {
    if s == [] then []
    else if IsSpace(s[0]) then Trimmed(s[1..])
    else if IsSpace(s[|s| - 1]) then Trimmed(s[..|s| - 1])
    else s
  }

  predicate IsMinus(c: char)
  {
    c == '-' || c == '\U{2212}'
  }

  /** QString::toInt(nullptr, 16) on the strings hexToBytes builds: after
      trimming white space, an optional sign and at least one hexadecimal
      digit must make up the whole string; anything else fails, and a
      failed conversion yields 0. */
  function ToIntBase16(t: string): int
  {
    var u := Trimmed(t);
    if u == [] then 0
    else if (u[0] == '+' || IsMinus(u[0])) && |u| > 1 && AllHexDigits(u[1..]) then
      if u[0] == '+' then HexValue(u[1..]) else 0 - HexValue(u[1..])
    else if AllHexDigits(u) then HexValue(u)
    else 0
  }

  /** QByteArray::append(char) of an int: the low eight bits. */
  function LowByte(v: int): byte
  {
    (v % 0x100) as byte
  }

  /** The bytes hexToBytes produces from the space-free text `w`: one per
      pair of characters, the second character of an odd tail being the
      terminating U+0000. */
  function PairBytes(w: string): (r: seq<byte>)
    ensures |r| == (|w| + 1) / 2
    decreases |w|
  {
    if w == [] then []
    else [LowByte(ToIntBase16([w[0], CharAt(w, 1)]))] + PairBytes(Mid(w, 2))
  }

  /** hexToBytes: spaces removed, then each pair of characters parsed as one
      base-16 number. */
  method HexToBytes(data: string) returns (bytes: seq<byte>)
    ensures bytes == PairBytes(Without(data, ' '))
  {
    var withoutSpaces := ReplaceAll(data, " ", "");
    ReplaceDrops(data, ' ');

    bytes := [];
    var i := 0;
    MidZero(withoutSpaces);
    while i < |withoutSpaces|
      invariant 0 <= i <= |withoutSpaces| + 1
      invariant bytes + PairBytes(Mid(withoutSpaces, i)) == PairBytes(withoutSpaces)
    {
      var chr1 := CharAt(withoutSpaces, i);
      var chr2 := CharAt(withoutSpaces, i + 1);
      var b := LowByte(ToIntBase16([chr1, chr2]));
      ghost var rest := Mid(withoutSpaces, i);
      assert rest[0] == chr1 && CharAt(rest, 1) == chr2;
      MidMid(withoutSpaces, i, 2);
      bytes := bytes + [b];
      i := i + 2;
    }
  }

  /** The byte at position k of hexToBytes' output comes from characters 2k
      and 2k + 1 of the space-free text. */
  lemma {:induction false} PairBytesAt(w: string, k: nat)
    requires k < |PairBytes(w)|
    ensures 2 * k < |w|
    ensures PairBytes(w)[k] == LowByte(ToIntBase16([w[2 * k], CharAt(w, 2 * k + 1)]))
    decreases k
  {
    if k > 0 {
      PairBytesAt(Mid(w, 2), k - 1);
    }
  }

  /** "%02X": the two uppercase hexadecimal digits of a byte. */
  function UpperDigit(v: nat): (c: char)
    requires v < 16
    ensures IsHexDigit(c) && DigitValue(c) == v
  {
    if v < 10 then ('0' as int + v) as char else ('A' as int + v - 10) as char
  }

  function HexPair(b: byte): (s: string)
    ensures |s| == 2
  {
    [UpperDigit(b as int / 16), UpperDigit(b as int % 16)]
  }

  /** Two hexadecimal digits parse to their value. */
  lemma TwoDigitsParse(s: string)
    requires |s| == 2 && IsHexDigit(s[0]) && IsHexDigit(s[1])
    ensures ToIntBase16(s) == DigitValue(s[0]) * 16 + DigitValue(s[1])
  {
    assert !IsSpace(s[0]) && !IsSpace(s[1]);
    assert Trimmed(s) == s;
    assert AllHexDigits(s);
    assert s[..1] == [s[0]] && [s[0]][..0] == [];
    assert HexValue(s[..1]) == DigitValue(s[0]);
    assert !(s[0] == '+' || IsMinus(s[0]));
  }

  /** A byte's two digits parse back to that byte. */
  lemma HexPairParses(b: byte)
    ensures ToIntBase16(HexPair(b)) == b as int
    ensures LowByte(ToIntBase16(HexPair(b))) == b
  {
    hide ToIntBase16;
    TwoDigitsParse(HexPair(b));
  }

  /** The bytes written as digit pairs. */
  function HexDigits(bs: seq<byte>): (s: string)
    ensures |s| == 2 * |bs|
  {
    if bs == [] then [] else HexPair(bs[0]) + HexDigits(bs[1..])
  }

  /** Bytes written as "%02X" pairs come back unchanged through hexToBytes'
      pairing and parsing. */
  lemma {:induction false} HexDigitsRoundTrip(bs: seq<byte>)
    ensures PairBytes(HexDigits(bs)) == bs
    decreases |bs|
  {
    if bs != [] {
      var w := HexDigits(bs);
      HexPairParses(bs[0]);
      assert [w[0], CharAt(w, 1)] == HexPair(bs[0]);
      assert Mid(w, 2) == HexDigits(bs[1..]);
      HexDigitsRoundTrip(bs[1..]);
    }
  }

  /** Text whose only white space is the plain space parses to the same
      bytes before and after formatUserHex lays it out. */
  lemma FormatKeepsBytes(t: string)
    requires forall i :: 0 <= i < |t| && IsSpace(t[i]) ==> t[i] == ' '
    ensures Without(Grouped(NoSpace(t)), ' ') == Without(t, ' ')
  {
    NoSpaceOnlySpaces(t);
    assert ' ' !in NoSpace(t);
    GroupedRoundTrip(NoSpace(t));
  }

  lemma {:induction false} NoSpaceOnlySpaces(t: string)
    requires forall i :: 0 <= i < |t| && IsSpace(t[i]) ==> t[i] == ' '
    ensures NoSpace(t) == Without(t, ' ')
    decreases |t|
  {
    if t != [] {
      NoSpaceOnlySpaces(t[1..]);
    }
  }
}
