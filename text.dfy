/**
 * Python's whitespace handling on `str`: `isspace`, `strip()` and `split()` with no
 * arguments. The frame handler strips the decoded message and splits it into tokens.
 */
module Text {

  /** Python's `str.isspace` on one character: bidirectional class WS, B or S, or category Zs. */
  predicate IsSpace(c: char) {
    ('\t' <= c <= '\r') || ('\U{1C}' <= c <= ' ') || c == '\U{85}' || c == '\U{A0}'
    || c == '\U{1680}' || ('\U{2000}' <= c <= '\U{200A}') || c == '\U{2028}' || c == '\U{2029}'
    || c == '\U{202F}' || c == '\U{205F}' || c == '\U{3000}'
  }

  predicate AllSpace(s: string) {
    forall i :: 0 <= i < |s| ==> IsSpace(s[i])
  }

  predicate NoSpace(s: string) {
    forall i :: 0 <= i < |s| ==> !IsSpace(s[i])
  }

  /** A token as `split()` yields it: a non-empty run of non-whitespace. */
  predicate IsWord(s: string) {
    s != [] && NoSpace(s)
  }

  /** Python `s.lstrip()`. */
  function StripStart(s: string): (r: string)
    ensures |r| <= |s|
    ensures r == [] <==> AllSpace(s)
    ensures r != [] ==> !IsSpace(r[0]) && r[|r| - 1] == s[|s| - 1]
  {
    if s != [] && IsSpace(s[0]) then StripStart(s[1..]) else s
  }

  /** Python `s.rstrip()`. */
  function StripEnd(s: string): (r: string)
    ensures |r| <= |s|
    ensures r == [] <==> AllSpace(s)
    ensures r != [] ==> !IsSpace(r[|r| - 1]) && r[0] == s[0]
  {
    if s != [] && IsSpace(s[|s| - 1]) then StripEnd(s[..|s| - 1]) else s
  }

  /** Python `s.strip()`: `s` without its leading and trailing whitespace. */
  function Strip(s: string): (r: string)
    ensures |r| <= |s|
    ensures r == [] <==> AllSpace(s)
    ensures r != [] ==> !IsSpace(r[0]) && !IsSpace(r[|r| - 1])
  {
    StripEnd(StripStart(s))
  }

  /** `lstrip` removes exactly a prefix of whitespace: what it returns is a suffix of `s`. */
  lemma {:induction false} StripStartDrops(s: string)
    ensures var r := StripStart(s);
            r == s[|s| - |r|..] && forall i :: 0 <= i < |s| - |r| ==> IsSpace(s[i])
  {
    if s != [] && IsSpace(s[0]) {
      StripStartDrops(s[1..]);
      var r := StripStart(s[1..]);
      assert s[1..][|s| - 1 - |r|..] == s[|s| - |r|..];
      assert forall i :: 1 <= i < |s| - |r| ==> s[i] == s[1..][i - 1];
    }
  }

  /** `rstrip` removes exactly a suffix of whitespace: what it returns is a prefix of `s`. */
  lemma {:induction false} StripEndDrops(s: string)
    ensures var r := StripEnd(s);
            r == s[..|r|] && forall i :: |r| <= i < |s| ==> IsSpace(s[i])
  {
    if s != [] && IsSpace(s[|s| - 1]) {
      StripEndDrops(s[..|s| - 1]);
      var r := StripEnd(s[..|s| - 1]);
      assert s[..|s| - 1][..|r|] == s[..|r|];
    }
  }

  /**
   * The scan behind Python `str.split()`: `word` holds the non-whitespace characters read
   * since the last whitespace; a whitespace character or the end of the input closes it.
   */
  function Split(s: string, word: string): (r: seq<string>)
    requires NoSpace(word)
    ensures forall i :: 0 <= i < |r| ==> IsWord(r[i])
    ensures r == [] <==> word == [] && AllSpace(s)
  {
    if s == [] then
      if word == [] then [] else [word]
    else if IsSpace(s[0]) then
      if word == [] then Split(s[1..], []) else [word] + Split(s[1..], [])
    else
      Split(s[1..], word + [s[0]])
  }

  /** Python `s.split()`: the maximal runs of non-whitespace of `s`, in order. */
  function Tokenize(s: string): (r: seq<string>)
    ensures forall i :: 0 <= i < |r| ==> IsWord(r[i])
    ensures r == [] <==> AllSpace(s)
  {
    Split(s, [])
  }

  /** The canonical wire form of a token list: the tokens separated by single spaces. */
  function Join(ts: seq<string>): string {
    if ts == [] then []
    else if |ts| == 1 then ts[0]
    else ts[0] + " " + Join(ts[1..])
  }

  /** Leading whitespace never changes the tokens. */
  lemma {:induction false} TokenizeStripStart(s: string)
    ensures Tokenize(StripStart(s)) == Tokenize(s)
  {
    if s != [] && IsSpace(s[0]) {
      TokenizeStripStart(s[1..]);
    }
  }

  /** A whitespace character appended after the last token changes nothing. */
  lemma {:induction false} SplitAppendSpace(s: string, word: string, c: char)
    requires NoSpace(word) && IsSpace(c)
    ensures Split(s + [c], word) == Split(s, word)
  {
    if s == [] {
      assert [] + [c] == [c];
      assert Split([c][1..], []) == [];
    } else {
      assert (s + [c])[0] == s[0];
      assert (s + [c])[1..] == s[1..] + [c];
      if IsSpace(s[0]) {
        SplitAppendSpace(s[1..], [], c);
      } else {
        SplitAppendSpace(s[1..], word + [s[0]], c);
      }
    }
  }

  /** Trailing whitespace never changes the tokens. */
  lemma {:induction false} TokenizeStripEnd(s: string)
    ensures Tokenize(StripEnd(s)) == Tokenize(s)
  {
    if s != [] && IsSpace(s[|s| - 1]) {
      var p := s[..|s| - 1];
      assert s == p + [s[|s| - 1]];
      SplitAppendSpace(p, [], s[|s| - 1]);
      TokenizeStripEnd(p);
    }
  }

  /** Stripping before splitting, as the frame handler does, yields the same tokens as splitting alone. */
  lemma TokenizeStrip(s: string)
    ensures Tokenize(Strip(s)) == Tokenize(s)
  {
    TokenizeStripEnd(StripStart(s));
    TokenizeStripStart(s);
  }

  /** Whitespace read while no word is pending is skipped. */
  lemma {:induction false} SplitSkipSpace(ws: string, b: string)
    requires AllSpace(ws)
    ensures Split(ws + b, []) == Split(b, [])
  {
    if ws != [] {
      assert (ws + b)[0] == ws[0] && IsSpace(ws[0]);
      assert (ws + b)[1..] == ws[1..] + b;
      assert AllSpace(ws[1..]);
      SplitSkipSpace(ws[1..], b);
      assert Split(ws + b, []) == Split(ws[1..] + b, []);
    } else {
      assert ws + b == b;
    }
  }

  /** A run of whitespace, however long, closes the pending word and separates two texts' tokens. */
  lemma {:induction false} SplitGap(a: string, ws: string, b: string, word: string)
    requires NoSpace(word) && ws != [] && AllSpace(ws)
    ensures Split(a + ws + b, word) == Split(a, word) + Split(b, [])
  {
    if a == [] {
      assert a + ws + b == ws + b;
      assert (ws + b)[0] == ws[0];
      assert (ws + b)[1..] == ws[1..] + b;
      SplitSkipSpace(ws[1..], b);
    } else {
      var rest := a[1..] + ws + b;
      assert a + ws + b == [a[0]] + rest;
      assert (a + ws + b)[0] == a[0] && (a + ws + b)[1..] == rest;
      if IsSpace(a[0]) {
        SplitGap(a[1..], ws, b, []);
        if word != [] {
          assert [word] + (Split(a[1..], []) + Split(b, [])) == [word] + Split(a[1..], []) + Split(b, []);
        }
      } else {
        SplitGap(a[1..], ws, b, word + [a[0]]);
      }
    }
  }

  /** The tokens of two texts separated by whitespace are the tokens of each, in order. */
  lemma TokenizeGap(a: string, ws: string, b: string)
    requires ws != [] && AllSpace(ws)
    ensures Tokenize(a + ws + b) == Tokenize(a) + Tokenize(b)
  {
    SplitGap(a, ws, b, []);
  }

  /** Reading a run of non-whitespace only extends the pending word. */
  lemma {:induction false} SplitWord(t: string, rest: string, word: string)
    requires NoSpace(word) && NoSpace(t)
    ensures NoSpace(word + t)
    ensures Split(t + rest, word) == Split(rest, word + t)
  {
    if t == [] {
      assert t + rest == rest && word + t == word;
    } else {
      assert (t + rest)[0] == t[0];
      assert (t + rest)[1..] == t[1..] + rest;
      assert word + [t[0]] + t[1..] == word + t;
      SplitWord(t[1..], rest, word + [t[0]]);
    }
  }

  /** Splitting the canonical wire form gives back the tokens it was built from. */
  lemma {:induction false} TokenizeJoin(ts: seq<string>)
    requires forall i :: 0 <= i < |ts| ==> IsWord(ts[i])
    ensures Tokenize(Join(ts)) == ts
  {
    if ts == [] {
    } else if |ts| == 1 {
      SplitWord(ts[0], [], []);
      assert ts[0] + [] == ts[0] && [] + ts[0] == ts[0];
    } else {
      var rest := Join(ts[1..]);
      assert Join(ts) == ts[0] + (" " + rest);
      SplitWord(ts[0], " " + rest, []);
      assert [] + ts[0] == ts[0];
      assert (" " + rest)[1..] == rest;
      TokenizeJoin(ts[1..]);
    }
  }
}
