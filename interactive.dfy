/** `stripAnsiCodes` of internal/cli/interactive.go: every match of the
    regular expression ESC '[' [0-9;]* [a-zA-Z] is removed.  The parameter
    characters and the final letters are disjoint classes, so at any position
    at most one match starts, and the regular expression's leftmost-first
    replacement is the left-to-right scan below. */
module Interactive {
  import opened Sequences

  const Esc: char := 27 as char

  /** A character of `[0-9;]`. */
  predicate IsParameter(c: char) {
    ('0' <= c <= '9') || c == ';'
  }

  /** A character of `[a-zA-Z]`. */
  predicate IsFinalLetter(c: char) {
    ('a' <= c <= 'z') || ('A' <= c <= 'Z')
  }

  /** `e` is matched by the regular expression as a whole. */
  predicate IsEscapeSequence(e: string) {
    && |e| >= 3 && e[0] == Esc && e[1] == '['
    && (forall k :: 2 <= k < |e| - 1 ==> IsParameter(e[k]))
    && IsFinalLetter(e[|e| - 1])
  }

  /** The end of the run of parameter characters that starts at `i`. */
  function ParameterRunEnd(s: string, i: nat): (j: nat)
    requires i <= |s|
    ensures i <= j <= |s|
    ensures forall k :: i <= k < j ==> IsParameter(s[k])
    ensures j < |s| ==> !IsParameter(s[j])
    decreases |s| - i
  {
    if i < |s| && IsParameter(s[i]) then ParameterRunEnd(s, i + 1) else i
  }

  /** The length of the escape sequence `s` starts with, or 0 when it starts
      with none; no other prefix of `s` is an escape sequence. */
  function EscapeLength(s: string): (n: nat)
    ensures n <= |s|
    ensures n > 0 ==> IsEscapeSequence(s[..n])
    ensures forall m :: 0 <= m <= |s| && IsEscapeSequence(s[..m]) ==> m == n
  {
    if |s| < 3 || s[0] != Esc || s[1] != '[' then 0
    else
      var j := ParameterRunEnd(s, 2);
      assert forall m :: 0 <= m <= |s| && IsEscapeSequence(s[..m]) ==> m - 1 == j by {
        forall m | 0 <= m <= |s| && IsEscapeSequence(s[..m])
          ensures m - 1 == j
        {
          assert forall k :: 2 <= k < m - 1 ==> s[k] == s[..m][k];
          assert s[m - 1] == s[..m][m - 1];
        }
      }
      if j < |s| && IsFinalLetter(s[j]) then
        assert forall k :: 2 <= k < j ==> s[..j + 1][k] == s[k];
        j + 1
      else 0
  }

  /** `stripAnsiCodes`. */
  function StripAnsiCodes(s: string): (r: string)
    ensures |r| <= |s|
    decreases |s|
  {
    if s == [] then []
    else
      var n := EscapeLength(s);
      if n > 0 then StripAnsiCodes(s[n..])
      else [s[0]] + StripAnsiCodes(s[1..])
  }

  /** A string without an escape character is returned unchanged. */
  lemma {:induction false} NoEscapeUnchanged(s: string)
    requires Esc !in s
    ensures StripAnsiCodes(s) == s
  {
    if s != [] {
      NoEscapeUnchanged(s[1..]);
    }
  }

  /** The result is the input with some characters left out and the rest
      kept in order. */
  lemma {:induction false} StripKeepsOrder(s: string)
    ensures IsSubsequence(StripAnsiCodes(s), s)
    decreases |s|
  {
    if s != [] {
      var n := EscapeLength(s);
      if n > 0 {
        StripKeepsOrder(s[n..]);
        SubsequenceOfSuffix(StripAnsiCodes(s[n..]), s, n);
      } else {
        StripKeepsOrder(s[1..]);
      }
    }
  }

  lemma {:induction false} SubsequenceOfSuffix(a: string, b: string, n: nat)
    requires n <= |b| && IsSubsequence(a, b[n..])
    ensures IsSubsequence(a, b)
    decreases n
  {
    if n > 0 {
      assert b[n..] == b[1..][n - 1..];
      SubsequenceOfSuffix(a, b[1..], n - 1);
      SubsequenceOfTail(a, b);
    }
  }

  /** Text without escape characters in front of the rest is kept as it is. */
  lemma {:induction false} PlainPrefixKept(x: string, y: string)
    requires Esc !in x
    ensures StripAnsiCodes(x + y) == x + StripAnsiCodes(y)
  {
    if x != [] {
      assert x[0] in x;
      assert (x + y)[0] == x[0] && (x + y)[1..] == x[1..] + y;
      assert EscapeLength(x + y) == 0;
      assert StripAnsiCodes(x + y) == [x[0]] + StripAnsiCodes((x + y)[1..]);
      PlainPrefixKept(x[1..], y);
      assert [x[0]] + x[1..] == x;
    } else {
      assert x + y == y;
    }
  }

  /** An escape sequence at the front is removed as a whole. */
  lemma LeadingSequenceRemoved(e: string, y: string)
    requires IsEscapeSequence(e)
    ensures StripAnsiCodes(e + y) == StripAnsiCodes(y)
  {
    var s := e + y;
    assert s[..|e|] == e;
    assert EscapeLength(s) == |e|;
    assert s[|e|..] == y;
  }

  /** A character that starts no escape sequence, an unmatched ESC
      included, is kept, and the scan resumes at the next character. */
  lemma UnmatchedStartKept(s: string)
    requires s != [] && forall m :: 0 <= m <= |s| ==> !IsEscapeSequence(s[..m])
    ensures StripAnsiCodes(s) == [s[0]] + StripAnsiCodes(s[1..])
  {
  }

  /** The colour code ESC '[' code 'm' that opens a styled text. */
  lemma ColourCodeIsSequence(code: string)
    requires forall k :: 0 <= k < |code| ==> IsParameter(code[k])
    ensures IsEscapeSequence([Esc, '['] + code + "m")
  {
    var open := [Esc, '['] + code + "m";
    assert forall k :: 2 <= k < |open| - 1 ==> open[k] == code[k - 2];
  }

  /** Text wrapped in a colour code and a reset comes out bare. */
  lemma ColouredTextStripped(code: string, text: string)
    requires forall k :: 0 <= k < |code| ==> IsParameter(code[k])
    requires Esc !in text
    ensures StripAnsiCodes([Esc, '['] + code + "m" + text + [Esc] + "[0m") == text
  {
    var open := [Esc, '['] + code + "m";
    var reset := [Esc] + "[0m";
    ColourCodeIsSequence(code);
    assert reset == [Esc, '[', '0', 'm'];
    assert IsEscapeSequence(reset) by {
      assert IsParameter(reset[2]);
    }
    var rest := text + reset;
    var whole := [Esc, '['] + code + "m" + text + [Esc] + "[0m";
    assert whole == open + rest;
    LeadingSequenceRemoved(open, rest);
    PlainPrefixKept(text, reset);
    assert reset + [] == reset;
    LeadingSequenceRemoved(reset, []);
    assert text + [] == text;
  }

  /** Stripping once need not remove every escape sequence: removing an inner
      one can join the characters around it into a new one. */
  lemma StripIsNotIdempotent()
    ensures var s := [Esc, '[', Esc, '[', 'm', 'm'];
            StripAnsiCodes(s) == [Esc, '[', 'm'] && StripAnsiCodes(StripAnsiCodes(s)) == []
  {
    var s := [Esc, '[', Esc, '[', 'm', 'm'];
    assert ParameterRunEnd(s, 2) == 2;
    assert EscapeLength(s) == 0;
    var s1 := s[1..];
    assert s1 == ['[', Esc, '[', 'm', 'm'];
    assert EscapeLength(s1) == 0;
    var t := s1[1..];
    assert t == [Esc, '[', 'm', 'm'];
    assert ParameterRunEnd(t, 2) == 2;
    assert EscapeLength(t) == 3;
    var u := t[3..];
    assert u == ['m'];
    assert EscapeLength(u) == 0;
    assert StripAnsiCodes(u) == ['m'] + StripAnsiCodes(u[1..]);
    assert StripAnsiCodes(t) == ['m'];
    assert StripAnsiCodes(s1) == ['['] + StripAnsiCodes(t);
    assert StripAnsiCodes(s) == [Esc] + StripAnsiCodes(s1);
    var r := [Esc, '[', 'm'];
    assert ParameterRunEnd(r, 2) == 2;
    assert EscapeLength(r) == 3;
    assert StripAnsiCodes(r) == StripAnsiCodes(r[3..]);
  }
}
