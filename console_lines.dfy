/** The line handling of text shown in the console (IO/Console.cpp, append):
    line breaks are normalised to '\n', the text is cut into tokens at each
    '\n', and a timestamp is written in front of every line that starts. */
module ConsoleLines {
  import opened QtSeq

  /** replace("\r\n", "\n") followed by replace("\r", "\n"). */
  function Normalize(s: string): (r: string)
    ensures s == [] <==> r == []
    ensures |r| <= |s|
  {
    ReplaceAll(ReplaceAll(s, "\r\n", "\n"), "\r", "\n")
  }

  /** No carriage return survives normalisation. */
  lemma NormalizeNoCarriageReturn(s: string)
    ensures '\r' !in Normalize(s)
  {
    var t := ReplaceAll(s, "\r\n", "\n");
    ReplaceSingle(t, '\r', '\n');
  }

  /** Text without carriage returns is left as it is. */
  lemma NormalizeKeepsPlainText(s: string)
    requires '\r' !in s
    ensures Normalize(s) == s
  {
    ReplaceAbsent(s, "\r\n", "\n");
    ReplaceAbsent(s, "\r", "\n");
  }

  /** Normalising twice is normalising once. */
  lemma NormalizeIdempotent(s: string)
    ensures Normalize(Normalize(s)) == Normalize(s)
  {
    NormalizeNoCarriageReturn(s);
    NormalizeKeepsPlainText(Normalize(s));
  }

  /** Whether the console is at the start of a line after showing `d`, when
      it was at one (`st`) before. */
  predicate EndsLine(d: string, st: bool)
  {
    if d == [] then st else d[|d| - 1] == '\n'
  }

  /** The text append produces for the normalised `d`: the timestamp `ts`
      goes before each character that starts a line, that is the first one
      when `st` holds and every one that follows a '\n'. */
  function Stamped(d: string, st: bool, ts: string): (r: string)
    ensures |r| >= |d|
    decreases |d|
  {
    if d == [] then [] else (if st then ts else []) + [d[0]] + Stamped(d[1..], d[0] == '\n', ts)
  }

  /** The first character of the text is preceded by the timestamp exactly
      when the console was at a line start. */
  lemma StampedStart(d: string, st: bool, ts: string)
    requires d != []
    ensures st ==> (|Stamped(d, st, ts)| > |ts| && Stamped(d, st, ts)[..|ts|] == ts &&
                    Stamped(d, st, ts)[|ts|] == d[0])
    ensures !st ==> Stamped(d, st, ts)[0] == d[0]
  {
  }

  /** One character of Stamped. */
  lemma StampedStep(d: string, st: bool, ts: string)
    ensures d == [] ==> Stamped(d, st, ts) == []
    ensures d != [] ==> Stamped(d, st, ts) == (if st then ts else []) + [d[0]] + Stamped(d[1..], d[0] == '\n', ts)
  {
  }

  /** Stamping distributes over concatenation: the second part starts in
      the state the first part leaves. */
  lemma {:induction false} StampedConcat(a: string, b: string, st: bool, ts: string)
    ensures Stamped(a + b, st, ts) == Stamped(a, st, ts) + Stamped(b, EndsLine(a, st), ts)
    decreases |a|
  {
    hide Stamped;
    StampedStep(a, st, ts);
    StampedStep(a + b, st, ts);
    if a != [] {
      assert (a + b)[0] == a[0];
      assert (a + b)[1..] == a[1..] + b;
      StampedConcat(a[1..], b, a[0] == '\n', ts);
      assert EndsLine(a[1..], a[0] == '\n') == EndsLine(a, st);
    } else {
      assert a + b == b;
    }
  }

  /** A piece of a line gets at most one timestamp, in front. */
  lemma {:induction false} StampedPlain(w: string, st: bool, ts: string)
    requires w != [] && '\n' !in w
    ensures Stamped(w, st, ts) == (if st then ts else []) + w
    decreases |w|
  {
    if |w| > 1 {
      assert '\n' !in w[1..];
      StampedPlain(w[1..], false, ts);
      assert w == [w[0]] + w[1..];
    }
  }

  /** A timestamp follows every '\n' that is not the last character. */
  lemma StampAfterNewline(d: string, st: bool, ts: string, i: int)
    requires 0 <= i < |d| - 1 && d[i] == '\n'
    ensures Stamped(d, st, ts) ==
      Stamped(d[..i + 1], st, ts) + ts + [d[i + 1]] + Stamped(d[i + 2..], d[i + 1] == '\n', ts)
  {
    assert d == d[..i + 1] + d[i + 1..];
    StampedConcat(d[..i + 1], d[i + 1..], st, ts);
    assert d[i + 1..][1..] == d[i + 2..];
  }

  /** With no timestamp the text is shown as it is. */
  lemma {:induction false} StampedEmptyTimestamp(d: string, st: bool)
    ensures Stamped(d, st, []) == d
    decreases |d|
  {
    if d != [] {
      StampedEmptyTimestamp(d[1..], d[0] == '\n');
      assert d == [d[0]] + d[1..];
    }
  }

  /** Removes the timestamp of length |ts| in front of every line start. */
  function Unstamp(s: string, st: bool, ts: string): (r: string)
    ensures |r| <= |s|
    decreases |s|
  {
    var t := if st && |ts| <= |s| then s[|ts|..] else s;
    if t == [] then [] else [t[0]] + Unstamp(t[1..], t[0] == '\n', ts)
  }

  /** Removing the inserted timestamps gives back the normalised text. */
  lemma {:induction false} UnstampStamped(d: string, st: bool, ts: string)
    ensures Unstamp(Stamped(d, st, ts), st, ts) == d
    decreases |d|
  {
    if d != [] {
      var s := Stamped(d, st, ts);
      var rest := Stamped(d[1..], d[0] == '\n', ts);
      assert s == (if st then ts else []) + [d[0]] + rest;
      var t := if st && |ts| <= |s| then s[|ts|..] else s;
      assert t == [d[0]] + rest;
      assert t[1..] == rest;
      UnstampStamped(d[1..], d[0] == '\n', ts);
    }
  }

  /** The tokens append's first loop builds from `d` when it already holds
      `cur`: each '\n' closes the current token and is a token of its own,
      and a non-empty last token is kept. */
  function TokensFrom(cur: string, d: string): (r: seq<string>)
    decreases |d|
  {
    if d == [] then (if cur == [] then [] else [cur])
    else if d[0] == '\n' then [cur, "\n"] + TokensFrom([], d[1..])
    else TokensFrom(cur + [d[0]], d[1..])
  }

  /** One step of the tokeniser. */
  lemma TokensStep(cur: string, d: string)
    ensures d == [] ==> TokensFrom(cur, d) == (if cur == [] then [] else [cur])
    ensures d != [] && d[0] == '\n' ==> TokensFrom(cur, d) == [cur, "\n"] + TokensFrom([], d[1..])
    ensures d != [] && d[0] != '\n' ==> TokensFrom(cur, d) == TokensFrom(cur + [d[0]], d[1..])
  {
  }

  /** The tokens in order, joined. */
  function Joined(toks: seq<string>): (r: string)
  {
    if toks == [] then [] else toks[0] + Joined(toks[1..])
  }

  lemma JoinedNone()
    ensures Joined([]) == []
  {
  }

  /** Tokenising loses nothing: the tokens join back to the text. */
  lemma {:induction false} TokensJoin(cur: string, d: string)
    ensures Joined(TokensFrom(cur, d)) == cur + d
    decreases |d|
  {
    if d == [] {
      if cur != [] {
        assert Joined([cur]) == cur + Joined([]);
      }
    } else if d[0] == '\n' {
      var rest := TokensFrom([], d[1..]);
      TokensJoin([], d[1..]);
      assert ([cur, "\n"] + rest)[1..] == ["\n"] + rest;
      assert (["\n"] + rest)[1..] == rest;
      assert d == "\n" + d[1..];
    } else {
      TokensJoin(cur + [d[0]], d[1..]);
      assert cur + [d[0]] + d[1..] == cur + d;
    }
  }

  /** Every token is a single "\n" or holds no '\n' at all. */
  lemma {:induction false} TokensShape(cur: string, d: string)
    requires '\n' !in cur
    ensures forall k :: 0 <= k < |TokensFrom(cur, d)| ==>
      TokensFrom(cur, d)[k] == "\n" || '\n' !in TokensFrom(cur, d)[k]
    decreases |d|
  {
    if d != [] {
      if d[0] == '\n' {
        TokensShape([], d[1..]);
      } else {
        TokensShape(cur + [d[0]], d[1..]);
      }
    }
  }

  /** append's second loop as a function: the timestamp goes before each
      token while at a line start, and a "\n" token starts the next line. */
  function Render(toks: seq<string>, st: bool, ts: string): (r: string)
  {
    if toks == [] then [] else (if st then ts else []) + toks[0] + Render(toks[1..], toks[0] == "\n", ts)
  }

  /** One pass of the second loop: the first token, with the timestamp in
      front when at a line start. */
  lemma RenderFirst(toks: seq<string>, st: bool, ts: string)
    requires toks != []
    ensures Render(toks, st, ts) == (if st then ts else []) + toks[0] + Render(toks[1..], toks[0] == "\n", ts)
    ensures EndState(toks[1..], toks[0] == "\n") == EndState(toks, st)
  {
  }

  /** No tokens, no text and no change of line. */
  lemma RenderNone(st: bool, ts: string)
    ensures Render([], st, ts) == []
    ensures EndState([], st) == st
  {
  }

  /** The line-start flag after the second loop. */
  function EndState(toks: seq<string>, st: bool): (r: bool)
    ensures toks != [] ==> (r <==> toks[|toks| - 1] == "\n")
  {
    if toks == [] then st else toks[|toks| - 1] == "\n"
  }

  lemma RenderTwo(cur: string, rest: seq<string>, st: bool, ts: string)
    ensures Render([cur, "\n"] + rest, st, ts) ==
      (if st then ts else []) + cur + (if cur == "\n" then ts else []) + "\n" + Render(rest, true, ts)
  {
    var toks := [cur, "\n"] + rest;
    assert toks[0] == cur && toks[1..] == ["\n"] + rest;
    assert (["\n"] + rest)[0] == "\n" && (["\n"] + rest)[1..] == rest;
  }

  /** A line piece followed by a '\n': one timestamp in front at most, and
      the rest starts a new line. */
  lemma StampedLineEnd(cur: string, d: string, st: bool, ts: string)
    requires '\n' !in cur && d != [] && d[0] == '\n'
    ensures Stamped(cur + d, st, ts) == (if st then ts else []) + cur + "\n" + Stamped(d[1..], true, ts)
  {
    StampedConcat(cur, d, st, ts);
    if cur != [] {
      StampedPlain(cur, st, ts);
    }
  }

  /** The two loops of append together stamp the text as Stamped says. */
  lemma {:induction false} RenderTokens(cur: string, d: string, st: bool, ts: string)
    requires '\n' !in cur
    ensures Render(TokensFrom(cur, d), st, ts) == Stamped(cur + d, st, ts)
    decreases |d|
  {
    hide TokensFrom;
    TokensStep(cur, d);
    if d == [] {
      assert cur + d == cur;
      if cur != [] {
        StampedPlain(cur, st, ts);
      }
    } else if d[0] == '\n' {
      RenderTwo(cur, TokensFrom([], d[1..]), st, ts);
      assert cur != "\n" by {
        assert '\n' in "\n";
      }
      RenderTokens([], d[1..], true, ts);
      assert [] + d[1..] == d[1..];
      StampedLineEnd(cur, d, st, ts);
    } else {
      assert '\n' !in cur + [d[0]];
      RenderTokens(cur + [d[0]], d[1..], st, ts);
      assert cur + [d[0]] + d[1..] == cur + d;
    }
  }

  /** The line-start flag the second loop leaves is the one the text
      leaves. */
  lemma {:induction false} EndStateTokens(cur: string, d: string, st: bool)
    requires '\n' !in cur
    ensures EndState(TokensFrom(cur, d), st) == EndsLine(cur + d, st)
    decreases |d|
  {
    hide TokensFrom;
    TokensStep(cur, d);
    if d == [] {
      assert cur + d == cur;
      if cur != [] {
        assert cur[|cur| - 1] in cur;
      }
    } else if d[0] == '\n' {
      var rest := TokensFrom([], d[1..]);
      EndStateTokens([], d[1..], true);
      assert [] + d[1..] == d[1..];
      if rest == [] {
        assert TokensFrom(cur, d) == [cur, "\n"];
        assert d[1..] == [] by {
          if d[1..] != [] {
            TokensJoin([], d[1..]);
            JoinedNone();
          }
        }
        assert cur + d == cur + "\n";
      } else {
        TokensStep([], d[1..]);
        assert (cur + d)[|cur + d| - 1] == d[1..][|d[1..]| - 1];
      }
    } else {
      assert '\n' !in cur + [d[0]];
      EndStateTokens(cur + [d[0]], d[1..], st);
      assert cur + [d[0]] + d[1..] == cur + d;
    }
  }
}
