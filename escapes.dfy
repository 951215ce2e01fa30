/** Decoding of the C escape notation that the user types for the frame
    delimiters (IO/Manager.cpp, ADD_ESCAPE_SEQUENCES). */
module Escapes {
  import opened QtSeq

  /** The seven two-character escapes, each turned into its control character,
      in the order in which they are replaced. */
  function AddEscapeSequences(s: string): (r: string)
    ensures r == [] <==> s == []
    ensures |r| <= |s|
  {
    var a := ReplaceAll(s, "\\a", "\U{7}");
    var b := ReplaceAll(a, "\\b", "\U{8}");
    var f := ReplaceAll(b, "\\f", "\U{C}");
    var n := ReplaceAll(f, "\\n", "\n");
    var c := ReplaceAll(n, "\\r", "\r");
    var t := ReplaceAll(c, "\\t", "\t");
    ReplaceAll(t, "\\v", "\U{B}")
  }

  /** The control character each escape letter stands for. */
  const EscapeTable: map<char, char> :=
    map['a' := '\U{7}', 'b' := '\U{8}', 'f' := '\U{C}', 'n' := '\n', 'r' := '\r', 't' := '\t', 'v' := '\U{B}']

  /** One left-to-right pass over `s`: a backslash followed by a letter of
      `table` is replaced by that letter's character, every other character
      is kept. */
  function DecodeWith(s: string, table: map<char, char>): (r: string)
    ensures |r| <= |s|
    decreases |s|
  {
    if s == [] then []
    else if |s| >= 2 && s[0] == '\\' && s[1] in table then [table[s[1]]] + DecodeWith(s[2..], table)
    else [s[0]] + DecodeWith(s[1..], table)
  }

  /** The intended decoding of the C escape notation, independent of the
      order of the replacements: each of \a, \b, \f, \n, \r, \t and \v
      becomes its control character, and everything else is kept. */
  function Decode(s: string): (r: string)
    ensures |r| <= |s|
  {
    DecodeWith(s, EscapeTable)
  }

  /** Each escape pair decodes to its control character, wherever it stands,
      and a character that does not begin an escape pair is kept. */
  lemma DecodeSteps(x: char, t: string)
    ensures x in EscapeTable ==> Decode(['\\', x] + t) == [EscapeTable[x]] + Decode(t)
    ensures x != '\\' ==> Decode([x] + t) == [x] + Decode(t)
    ensures Decode(['\\']) == ['\\']
  {
    assert (['\\', x] + t)[2..] == t;
    assert ([x] + t)[1..] == t;
  }

  /** The seven replacements, applied one after the other, decode exactly as
      the one-pass definition: the control characters they produce are
      neither backslashes nor escape letters, so no replacement creates or
      destroys a pair another one would see. */
  lemma AddEscapeSequencesDecodes(s: string)
    ensures AddEscapeSequences(s) == Decode(s)
  {
    DecodeWithNothing(s);
    var m0: map<char, char> := map[];
    var m1 := m0['a' := '\U{7}'];
    var m2 := m1['b' := '\U{8}'];
    var m3 := m2['f' := '\U{C}'];
    var m4 := m3['n' := '\n'];
    var m5 := m4['r' := '\r'];
    var m6 := m5['t' := '\t'];
    var m7 := m6['v' := '\U{B}'];
    ReplaceAfterDecode(s, m0, 'a', '\U{7}');
    ReplaceAfterDecode(s, m1, 'b', '\U{8}');
    ReplaceAfterDecode(s, m2, 'f', '\U{C}');
    ReplaceAfterDecode(s, m3, 'n', '\n');
    ReplaceAfterDecode(s, m4, 'r', '\r');
    ReplaceAfterDecode(s, m5, 't', '\t');
    ReplaceAfterDecode(s, m6, 'v', '\U{B}');
    assert m7 == EscapeTable;
  }

  /** With no escape letters the pass changes nothing. */
  lemma {:induction false} DecodeWithNothing(s: string)
    ensures DecodeWith(s, map[]) == s
    decreases |s|
  {
    if s != [] {
      DecodeWithNothing(s[1..]);
      assert s == [s[0]] + s[1..];
    }
  }

  /** Replacing "\x" by `c` after a pass with `table` is one pass with `x`
      added to the table, as long as the table's characters cannot form a
      new pair. */
  lemma {:induction false} ReplaceAfterDecode(s: string, table: map<char, char>, x: char, c: char)
    requires x != '\\' && x !in table
    requires forall k :: k in table ==> table[k] != '\\' && table[k] != x
    ensures ReplaceAll(DecodeWith(s, table), ['\\', x], [c]) == DecodeWith(s, table[x := c])
    decreases |s|
  {
    if s == [] {
    } else if |s| >= 2 && s[0] == '\\' && s[1] in table {
      ReplaceAfterDecode(s[2..], table, x, c);
      ReplaceAfterKnownPair(s, table, x, c);
    } else if |s| >= 2 && s[0] == '\\' && s[1] == x {
      ReplaceAfterDecode(s[2..], table, x, c);
      ReplaceAtNewPair(s, table, x, c);
    } else {
      ReplaceAfterDecode(s[1..], table, x, c);
      ReplaceAfterPlain(s, table, x, c);
    }
  }

  /** The step of ReplaceAfterDecode for a pair the table already decodes. */
  lemma ReplaceAfterKnownPair(s: string, table: map<char, char>, x: char, c: char)
    requires x != '\\' && x !in table
    requires forall k :: k in table ==> table[k] != '\\' && table[k] != x
    requires |s| >= 2 && s[0] == '\\' && s[1] in table
    requires ReplaceAll(DecodeWith(s[2..], table), ['\\', x], [c]) == DecodeWith(s[2..], table[x := c])
    ensures ReplaceAll(DecodeWith(s, table), ['\\', x], [c]) == DecodeWith(s, table[x := c])
  {
    var d := DecodeWith(s, table);
    assert d[0] != '\\' && d[1..] == DecodeWith(s[2..], table);
    ReplaceMissHead(d, ['\\', x], [c]);
  }

  /** The step of ReplaceAfterDecode for the pair "\x" itself. */
  lemma ReplaceAtNewPair(s: string, table: map<char, char>, x: char, c: char)
    requires x != '\\' && x !in table
    requires |s| >= 2 && s[0] == '\\' && s[1] == x
    requires ReplaceAll(DecodeWith(s[2..], table), ['\\', x], [c]) == DecodeWith(s[2..], table[x := c])
    ensures ReplaceAll(DecodeWith(s, table), ['\\', x], [c]) == DecodeWith(s, table[x := c])
  {
    hide DecodeWith, ReplaceAll;
    var wider := table[x := c];
    var rest := DecodeWith(s[2..], table);
    assert s[1..][1..] == s[2..];
    DecodeWithStep(s, table);
    DecodeWithStep(s[1..], table);
    DecodeWithStep(s, wider);
    assert s[1..][0] == x && s[1] !in table;
    assert DecodeWith(s, table) == ['\\', x] + rest;
    assert s[1] in wider && wider[s[1]] == c;
    ReplacePairHead(x, rest, [c]);
  }

  /** DecodeWith unfolded once, for proofs that hide it. */
  lemma DecodeWithStep(s: string, table: map<char, char>)
    requires s != []
    ensures |s| >= 2 && s[0] == '\\' && s[1] in table ==>
      DecodeWith(s, table) == [table[s[1]]] + DecodeWith(s[2..], table)
    ensures !(|s| >= 2 && s[0] == '\\' && s[1] in table) ==>
      DecodeWith(s, table) == [s[0]] + DecodeWith(s[1..], table)
  {
  }

  /** A text that starts with the pattern "\x" has it replaced first. */
  lemma ReplacePairHead(x: char, t: string, r: string)
    ensures ReplaceAll(['\\', x] + t, ['\\', x], r) == r + ReplaceAll(t, ['\\', x], r)
  {
    var d := ['\\', x] + t;
    var p := ['\\', x];
    assert StartsWith(d, p) by {
      assert d[1..][0] == p[1..][0] && p[1..][1..] == [];
    }
    assert d[|p|..] == t;
  }

  /** The step of ReplaceAfterDecode for a character that starts no pair. */
  lemma ReplaceAfterPlain(s: string, table: map<char, char>, x: char, c: char)
    requires x != '\\' && x !in table
    requires forall k :: k in table ==> table[k] != '\\' && table[k] != x
    requires s != [] && !(|s| >= 2 && s[0] == '\\' && (s[1] in table || s[1] == x))
    requires ReplaceAll(DecodeWith(s[1..], table), ['\\', x], [c]) == DecodeWith(s[1..], table[x := c])
    ensures ReplaceAll(DecodeWith(s, table), ['\\', x], [c]) == DecodeWith(s, table[x := c])
  {
    var d := DecodeWith(s, table);
    var p := ['\\', x];
    assert d[0] == s[0] && d[1..] == DecodeWith(s[1..], table);
    assert !StartsWith(d, p) by {
      if s[0] == '\\' && |s| >= 2 {
        assert d[1..][0] != x;
        assert d[1..] != [] && !StartsWith(d[1..], p[1..]);
      }
      if |s| < 2 {
        assert d[1..] == [];
      }
    }
    ReplaceMissHead(d, p, [c]);
  }

  /** Where `p` does not start `s`, replacing keeps the first element. */
  lemma ReplaceMissHead(s: string, p: string, r: string)
    requires |p| > 0 && s != [] && !StartsWith(s, p)
    ensures ReplaceAll(s, p, r) == [s[0]] + ReplaceAll(s[1..], p, r)
  {
    if |s| < |p| {
      assert s == [s[0]] + s[1..];
    }
  }

  /** A string without a backslash is stored exactly as typed. */
  lemma NoBackslashUnchanged(s: string)
    requires forall i :: 0 <= i < |s| ==> s[i] != '\\'
    ensures AddEscapeSequences(s) == s
  {
    ReplaceAbsent(s, "\\a", "\U{7}");
    ReplaceAbsent(s, "\\b", "\U{8}");
    ReplaceAbsent(s, "\\f", "\U{C}");
    ReplaceAbsent(s, "\\n", "\n");
    ReplaceAbsent(s, "\\r", "\r");
    ReplaceAbsent(s, "\\t", "\t");
    ReplaceAbsent(s, "\\v", "\U{B}");
  }

  /** What a delimiter setter stores: the decoded text, or `fallback` when the
      text decodes to nothing. The result is never empty, and the fallback is
      used exactly when the user's text was empty. */
  function DecodeDelimiter(s: string, fallback: string): (r: string)
    requires fallback != []
    ensures r != []
    ensures s == [] ==> r == fallback
    ensures s != [] ==> r == AddEscapeSequences(s)
  {
    var decoded := AddEscapeSequences(s);
    if decoded == [] then fallback else decoded
  }
}
