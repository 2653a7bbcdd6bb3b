/** The helpers of internal/utils/outputViewUtils.go that decide what the
    task output view shows: trimming and unquoting, the line window of
    `OutputLines` with the pass-through guards of `OutputLine`, the lookup of
    a task by its response file, and the hybrid file-change test.  File
    access, hashing, JSON decoding and the lipgloss colouring are inputs or
    left out. */
module OutputView {
  import opened Wrappers
  import opened Tasks
  import opened Sequences

  // ---------------------------------------------------------------------
  // Trimming and unquoting

  /** Go's `unicode.IsSpace`. */
  predicate IsSpace(c: char) {
    var n := c as int;
    (0x09 <= n <= 0x0D) || n == 0x20 || n == 0x85 || n == 0xA0 || n == 0x1680
    || (0x2000 <= n <= 0x200A) || n == 0x2028 || n == 0x2029 || n == 0x202F
    || n == 0x205F || n == 0x3000
  }

  predicate AllSpace(s: string) {
    forall k :: 0 <= k < |s| ==> IsSpace(s[k])
  }

  /** The number of spaces `s` starts with. */
  function LeadingSpaces(s: string): (n: nat)
    ensures n <= |s| && AllSpace(s[..n])
    ensures n < |s| ==> !IsSpace(s[n])
  {
    if s != [] && IsSpace(s[0]) then
      var n := LeadingSpaces(s[1..]);
      assert forall k :: 1 <= k < n + 1 ==> s[k] == s[1..][..n][k - 1];
      n + 1
    else 0
  }

  /** The number of spaces `s` ends with. */
  function TrailingSpaces(s: string): (n: nat)
    ensures n <= |s| && AllSpace(s[|s| - n..])
    ensures n < |s| ==> !IsSpace(s[|s| - n - 1])
  {
    if s != [] && IsSpace(s[|s| - 1]) then
      var init := s[..|s| - 1];
      var n := TrailingSpaces(init);
      assert forall k :: |s| - n - 1 <= k < |s| - 1 ==> s[k] == init[|init| - n..][k - (|s| - n - 1)];
      n + 1
    else 0
  }

  lemma {:induction false} AllSpaceConcat(a: string, b: string)
    requires AllSpace(a) && AllSpace(b)
    ensures AllSpace(a + b)
  {
    assert forall k :: 0 <= k < |a| ==> (a + b)[k] == a[k];
    assert forall k :: |a| <= k < |a + b| ==> (a + b)[k] == b[k - |a|];
  }

  /** Cutting `i` leading and `j` trailing spaces, where neither run can be
      extended, leaves text that neither starts nor ends with a space. */
  lemma TrimmedEnds(s: string, i: nat, j: nat)
    requires i + j <= |s|
    requires AllSpace(s[..i]) && (i < |s| ==> !IsSpace(s[i]))
    requires AllSpace(s[|s| - j..]) && (i + j < |s| ==> !IsSpace(s[|s| - j - 1]))
    ensures var r := s[i..|s| - j];
            && (r != [] ==> !IsSpace(r[0]) && !IsSpace(r[|r| - 1]))
            && (r == [] ==> AllSpace(s))
  {
    if i + j == |s| {
      AllSpaceConcat(s[..i], s[|s| - j..]);
      assert s == s[..i] + s[|s| - j..];
    }
  }

  /** Go's `strings.TrimSpace`: `s` is its leading spaces, the result, and its
      trailing spaces; the result neither starts nor ends with a space. */
  function TrimSpace(s: string): (r: string)
    ensures var i := LeadingSpaces(s);
            i + |r| <= |s| && r == s[i..i + |r|] && AllSpace(s[i + |r|..])
    ensures r != [] ==> !IsSpace(r[0]) && !IsSpace(r[|r| - 1])
    ensures r == [] ==> AllSpace(s)
  {
    var i := LeadingSpaces(s);
    var rest := s[i..];
    var j := TrailingSpaces(rest);
    var r := rest[..|rest| - j];
    assert rest[|rest| - j..] == s[|s| - j..];
    assert r == s[i..|s| - j];
    TrimmedEnds(s, i, j);
    r
  }

  /** Leading spaces followed by a non-space are counted exactly. */
  lemma {:induction false} LeadingSpacesOfPadded(p: string, m: string)
    requires AllSpace(p) && m != [] && !IsSpace(m[0])
    ensures LeadingSpaces(p + m) == |p|
  {
    if p == [] {
      assert p + m == m;
    } else {
      assert (p + m)[0] == p[0];
      assert (p + m)[1..] == p[1..] + m;
      LeadingSpacesOfPadded(p[1..], m);
    }
  }

  /** Trailing spaces after a non-space are counted exactly. */
  lemma {:induction false} TrailingSpacesOfPadded(m: string, q: string)
    requires AllSpace(q) && m != [] && !IsSpace(m[|m| - 1])
    ensures TrailingSpaces(m + q) == |q|
  {
    if q == [] {
      assert m + q == m;
    } else {
      var s := m + q;
      var init := q[..|q| - 1];
      assert s[|s| - 1] == q[|q| - 1];
      assert s[..|s| - 1] == m + init;
      TrailingSpacesOfPadded(m, init);
    }
  }

  /** Text with no space at either end survives any padding by spaces. */
  lemma TrimSpaceOfPadded(p: string, m: string, q: string)
    requires AllSpace(p) && AllSpace(q)
    requires m != [] && !IsSpace(m[0]) && !IsSpace(m[|m| - 1])
    ensures TrimSpace(p + m + q) == m
  {
    var s := p + m + q;
    assert s == p + (m + q);
    assert (m + q)[0] == m[0];
    LeadingSpacesOfPadded(p, m + q);
    var rest := s[|p|..];
    assert rest == m + q;
    TrailingSpacesOfPadded(m, q);
    assert rest[..|rest| - |q|] == m;
  }

  /** `removeSurroundingQuotes` as written: after trimming, the first and the
      last character are dropped whenever there are two or more, quotes or
      not. */
  function RemoveSurroundingQuotes(s: string): (r: string)
    ensures var t := TrimSpace(s);
            if |t| >= 2 then |r| == |t| - 2 && t == [t[0]] + r + [t[|t| - 1]]
            else r == t
  {
    var t := TrimSpace(s);
    if |t| >= 2 then t[1..|t| - 1] else t
  }

  /** Two characters that are not quotes are dropped all the same. */
  lemma RemoveSurroundingQuotesDropsNonQuotes()
    ensures RemoveSurroundingQuotes("ab") == ""
  {
    TrimSpaceOfPadded("", "ab", "");
  }

  /** What the name promises: the quotes around a trimmed string go, and
      nothing else is cut. */
  function RemoveSurroundingQuotesIntended(s: string): (r: string)
    ensures var t := TrimSpace(s);
            if |t| >= 2 && t[0] == '"' && t[|t| - 1] == '"' then t == "\"" + r + "\""
            else r == t
  {
    var t := TrimSpace(s);
    if |t| >= 2 && t[0] == '"' && t[|t| - 1] == '"' then t[1..|t| - 1] else t
  }

  /** Both versions unquote a space-padded quoted string. */
  lemma UnquotePadded(p: string, x: string, q: string)
    requires AllSpace(p) && AllSpace(q)
    ensures RemoveSurroundingQuotes(p + "\"" + x + "\"" + q) == x
    ensures RemoveSurroundingQuotesIntended(p + "\"" + x + "\"" + q) == x
  {
    var m := "\"" + x + "\"";
    assert p + "\"" + x + "\"" + q == p + m + q;
    TrimSpaceOfPadded(p, m, q);
    assert m[1..|m| - 1] == x;
  }

  /** Only the corrected version leaves a trimmed string alone unless both
      of its ends are double quotes. */
  lemma IntendedKeepsUnquoted(s: string)
    requires s != [] && !IsSpace(s[0]) && !IsSpace(s[|s| - 1])
    requires !(|s| >= 2 && s[0] == '"' && s[|s| - 1] == '"')
    ensures RemoveSurroundingQuotesIntended(s) == s
  {
    TrimSpaceOfPadded("", s, "");
    assert "" + s + "" == s;
  }

  // ---------------------------------------------------------------------
  // OutputLine and OutputLines

  /** The line that opens and closes the window of agent output. */
  const Marker: string := "---"

  /** How many non-empty lines at the top of the window are not shown. */
  const SkippedLines: nat := 2

  /** A line `OutputLine` hands to the JSON decoder: it starts with '{' and
      has at least two characters. */
  predicate IsJsonCandidate(line: string) {
    |line| >= 2 && line[0] == '{'
  }

  /** `OutputLine`.  `decode` stands for the JSON branches: `None` when the
      line does not parse, otherwise the text those branches render. */
  function OutputLine(line: string, decode: string -> Option<string>): (r: string)
    ensures !IsJsonCandidate(line) ==> r == line
    ensures IsJsonCandidate(line) && decode(line).None? ==> r == ""
    ensures IsJsonCandidate(line) && decode(line).Some? ==> r == decode(line).value
  {
    if |line| == 0 then line
    else if line[0] != '{' || |line| < 2 then line
    else if line == Marker then Marker
    else match decode(line)
      case None => ""
      case Some(text) => text
  }

  /** The marker line never reaches the decoder: the first guard passes it
      through, so the comparison with "---" in `OutputLine` is never decisive. */
  lemma MarkerPassesThrough(decode: string -> Option<string>)
    ensures !IsJsonCandidate(Marker) && OutputLine(Marker, decode) == Marker
  {
  }

  /** The lines strictly between the first marker and the next one (or the
      end); nothing when there is no marker at all. */
  function Window(lines: seq<string>): seq<string> {
    var k := IndexOf(lines, Marker);
    if k == -1 then []
    else
      var rest := lines[k + 1..];
      var e := IndexOf(rest, Marker);
      if e == -1 then rest else rest[..e]
  }

  function NonEmptyLines(lines: seq<string>): seq<string>
    decreases |lines|
  {
    if lines == [] then []
    else
      var last := lines[|lines| - 1];
      NonEmptyLines(lines[..|lines| - 1]) + (if last == "" then [] else [last])
  }

  function AfterSkipped(lines: seq<string>): seq<string> {
    if |lines| <= SkippedLines then [] else lines[SkippedLines..]
  }

  /** The lines `OutputLines` shows, in order. */
  function Selected(lines: seq<string>): seq<string> {
    AfterSkipped(NonEmptyLines(Window(lines)))
  }

  /** Each line passed through `OutputLine` and ended by a newline. */
  function Emit(lines: seq<string>, decode: string -> Option<string>): string
    decreases |lines|
  {
    if lines == [] then ""
    else Emit(lines[..|lines| - 1], decode) + OutputLine(lines[|lines| - 1], decode) + "\n"
  }

  lemma NonEmptyLinesAppend(lines: seq<string>, line: string)
    ensures NonEmptyLines(lines + [line]) == NonEmptyLines(lines) + (if line == "" then [] else [line])
  {
    assert (lines + [line])[..|lines|] == lines;
  }

  lemma EmitAppend(lines: seq<string>, line: string, decode: string -> Option<string>)
    ensures Emit(lines + [line], decode) == Emit(lines, decode) + OutputLine(line, decode) + "\n"
  {
    assert (lines + [line])[..|lines|] == lines;
  }

  lemma {:induction false} NonEmptyLinesMembers(lines: seq<string>, line: string)
    ensures line in NonEmptyLines(lines) <==> line in lines && line != ""
  {
    if lines != [] {
      var init := lines[..|lines| - 1];
      NonEmptyLinesMembers(init, line);
      assert lines == init + [lines[|lines| - 1]];
    }
  }

  /** After `i` lines the window has opened at the first marker, at `k`, and
      has not closed again. */
  ghost predicate WindowOpen(lines: seq<string>, k: nat, i: nat)
    requires i <= |lines|
  {
    k < i && lines[k] == Marker && Marker !in lines[..k] && Marker !in lines[k + 1..i]
  }

  /** The loop state of `OutputLines` once the window has opened at the first
      marker, at `k`, and `i` lines have been read. */
  ghost predicate Opened(lines: seq<string>, k: nat, i: nat, out: string, linesToSkip: int,
                         decode: string -> Option<string>)
    requires i <= |lines|
  {
    && WindowOpen(lines, k, i)
    && var n := NonEmptyLines(lines[k + 1..i]);
       && linesToSkip == (if |n| >= SkippedLines then 0 else SkippedLines - |n|)
       && out == Emit(AfterSkipped(n), decode)
  }

  /** Reading a line other than the marker keeps the window open and adds
      the line to those seen when it is not empty. */
  lemma WindowStep(lines: seq<string>, k: nat, i: nat)
    requires i < |lines| && lines[i] != Marker && WindowOpen(lines, k, i)
    ensures WindowOpen(lines, k, i + 1)
    ensures NonEmptyLines(lines[k + 1..i + 1])
            == NonEmptyLines(lines[k + 1..i]) + (if lines[i] == "" then [] else [lines[i]])
  {
    var w := lines[k + 1..i];
    assert lines[k + 1..i + 1] == w + [lines[i]];
    NonEmptyLinesAppend(w, lines[i]);
  }

  /** `OutputLines` up to the colouring: "no output" for no lines, otherwise
      the selected lines, each through `OutputLine` and ended by a newline. */
  method OutputLines(lines: seq<string>, decode: string -> Option<string>) returns (out: string)
    ensures lines == [] ==> out == "no output"
    ensures lines != [] ==> out == Emit(Selected(lines), decode)
  {
    if |lines| == 0 {
      return "no output";
    }
    out := "";
    var started := false;
    var linesToSkip := SkippedLines;
    ghost var k: nat := 0;
    for i := 0 to |lines|
      invariant !started ==> Marker !in lines[..i] && out == "" && linesToSkip == SkippedLines
      invariant started ==> Opened(lines, k, i, out, linesToSkip, decode)
    {
      var line := lines[i];
      if line == Marker && started {
        ClosedOutput(lines, k, i, out, linesToSkip, decode);
        return;
      }
      if line == Marker {
        OpenAt(lines, i, decode);
        k := i;
        started := true;
        continue;
      }
      if !started {
        assert lines[..i + 1] == lines[..i] + [line];
        continue;
      }
      if line == "" {
        SkipEmptyLine(lines, k, i, out, linesToSkip, decode);
        continue;
      }
      if linesToSkip > 0 {
        CountOffLine(lines, k, i, out, linesToSkip, decode);
        linesToSkip := linesToSkip - 1;
        continue;
      }
      EmitLine(lines, k, i, out, decode);
      out := out + OutputLine(line, decode) + "\n";
    }
    if started {
      EndOutput(lines, k, out, linesToSkip, decode);
    } else {
      assert lines[..|lines|] == lines;
    }
  }

  lemma OpenAt(lines: seq<string>, i: nat, decode: string -> Option<string>)
    requires i < |lines| && lines[i] == Marker && Marker !in lines[..i]
    ensures Opened(lines, i, i + 1, "", SkippedLines, decode)
  {
    assert lines[i + 1..i + 1] == [];
  }

  /** An empty line inside the open window changes nothing. */
  lemma SkipEmptyLine(lines: seq<string>, k: nat, i: nat, out: string, linesToSkip: int,
                      decode: string -> Option<string>)
    requires i < |lines| && lines[i] == "" && Opened(lines, k, i, out, linesToSkip, decode)
    ensures Opened(lines, k, i + 1, out, linesToSkip, decode)
  {
    assert |lines[i]| != |Marker|;
    WindowStep(lines, k, i);
    var n := NonEmptyLines(lines[k + 1..i]);
    assert n + [] == n;
  }

  /** One of the first two non-empty lines of the window is counted off. */
  lemma CountOffLine(lines: seq<string>, k: nat, i: nat, out: string, linesToSkip: int,
                     decode: string -> Option<string>)
    requires i < |lines| && lines[i] != "" && lines[i] != Marker && linesToSkip > 0
    requires Opened(lines, k, i, out, linesToSkip, decode)
    ensures Opened(lines, k, i + 1, out, linesToSkip - 1, decode)
  {
    WindowStep(lines, k, i);
  }

  /** Every later non-empty line of the window is emitted. */
  lemma EmitLine(lines: seq<string>, k: nat, i: nat, out: string, decode: string -> Option<string>)
    requires i < |lines| && lines[i] != "" && lines[i] != Marker
    requires Opened(lines, k, i, out, 0, decode)
    ensures Opened(lines, k, i + 1, out + OutputLine(lines[i], decode) + "\n", 0, decode)
  {
    var line := lines[i];
    var n := NonEmptyLines(lines[k + 1..i]);
    WindowStep(lines, k, i);
    assert (n + [line])[SkippedLines..] == n[SkippedLines..] + [line];
    EmitAppend(n[SkippedLines..], line, decode);
  }

  /** The second marker closes the window: what was emitted is the output. */
  lemma ClosedOutput(lines: seq<string>, k: nat, i: nat, out: string, linesToSkip: int,
                     decode: string -> Option<string>)
    requires i < |lines| && lines[i] == Marker && Opened(lines, k, i, out, linesToSkip, decode)
    ensures out == Emit(Selected(lines), decode)
  {
    IndexOfFirst(lines, Marker, k);
    var rest := lines[k + 1..];
    assert rest[..i - k - 1] == lines[k + 1..i];
    IndexOfFirst(rest, Marker, i - k - 1);
  }

  /** The input ends with the window still open: what was emitted is the
      output. */
  lemma EndOutput(lines: seq<string>, k: nat, out: string, linesToSkip: int,
                  decode: string -> Option<string>)
    requires Opened(lines, k, |lines|, out, linesToSkip, decode)
    ensures out == Emit(Selected(lines), decode)
  {
    IndexOfFirst(lines, Marker, k);
    assert lines[k + 1..] == lines[k + 1..|lines|];
  }

  /** Without an opening marker nothing is shown. */
  lemma NoMarkerNoOutput(lines: seq<string>, decode: string -> Option<string>)
    requires Marker !in lines
    ensures Selected(lines) == [] && Emit(Selected(lines), decode) == ""
  {
  }

  /** Lines before the first marker play no part. */
  lemma PrefixIgnored(before: seq<string>, after: seq<string>)
    requires Marker !in before
    ensures Window(before + [Marker] + after) == Window([Marker] + after)
  {
    var lines := before + [Marker] + after;
    assert lines[|before|] == Marker;
    assert forall j :: 0 <= j < |before| ==> lines[j] == before[j];
    assert IndexOf(lines, Marker) == |before|;
    assert lines[|before| + 1..] == after == ([Marker] + after)[1..];
  }

  /** The window when both markers are present, by their positions. */
  lemma WindowBetween(lines: seq<string>, k: int, e: int)
    requires k == IndexOf(lines, Marker) && k != -1
    requires e == IndexOf(lines[k + 1..], Marker) && e != -1
    ensures Window(lines) == lines[k + 1..][..e]
  {
  }

  /** Once the window has closed, later lines play no part. */
  lemma SuffixIgnored(lines: seq<string>, more: seq<string>)
    requires var k := IndexOf(lines, Marker);
             k != -1 && IndexOf(lines[k + 1..], Marker) != -1
    ensures Window(lines + more) == Window(lines)
  {
    var k := IndexOf(lines, Marker);
    var rl := lines[k + 1..];
    var e := IndexOf(rl, Marker);
    WindowBetween(lines, k, e);
    IndexOfAppend(lines, more, Marker);
    assert (lines + more)[k + 1..] == rl + more;
    IndexOfAppend(rl, more, Marker);
    WindowBetween(lines + more, k, e);
    assert (rl + more)[..e] == rl[..e];
  }

  /** Every shown line is a non-empty, non-marker line of the input. */
  lemma SelectedLinesComeFromWindow(lines: seq<string>, line: string)
    requires line in Selected(lines)
    ensures line in lines && line != "" && line != Marker
  {
    var w := Window(lines);
    var n := NonEmptyLines(w);
    assert line in n by {
      var j :| 0 <= j < |Selected(lines)| && Selected(lines)[j] == line;
      assert n[j + SkippedLines] == line;
    }
    NonEmptyLinesMembers(w, line);
    var k := IndexOf(lines, Marker);
    var rest := lines[k + 1..];
    var e := IndexOf(rest, Marker);
    var j :| 0 <= j < |w| && w[j] == line;
    assert rest[j] == line;
    assert lines[k + 1 + j] == line;
  }

  // ---------------------------------------------------------------------
  // GetTaskByPath

  /** The directory prefix `GetTaskByPath` strips from a path. */
  const LudwigDirPrefix: string := "./.ludwig/"

  /** Go's `strings.TrimPrefix`: `prefix` removed once if `s` starts with it. */
  function TrimPrefix(s: string, prefix: string): (r: string)
    ensures prefix <= s ==> s == prefix + r
    ensures !(prefix <= s) ==> r == s
  {
    if prefix <= s then s[|prefix|..] else s
  }

  /** The search loop of `GetTaskByPath`: the first task whose response file
      is `file`, or none when no task has it. */
  function FindByResponseFile(tasks: seq<Task>, file: string): (r: Option<Task>)
    ensures r.None? <==> forall j :: 0 <= j < |tasks| ==> tasks[j].responseFile != file
    ensures r.Some? ==> exists i :: 0 <= i < |tasks| && tasks[i] == r.value && r.value.responseFile == file
                                    && forall j :: 0 <= j < i ==> tasks[j].responseFile != file
  {
    if tasks == [] then None
    else if tasks[0].responseFile == file then Some(tasks[0])
    else
      var r := FindByResponseFile(tasks[1..], file);
      assert forall j :: 1 <= j < |tasks| ==> tasks[j] == tasks[1..][j - 1];
      r
  }

  /** `GetTaskByPath`: the first task whose response file is the path with
      one leading "./.ludwig/" removed. */
  function GetTaskByPath(tasks: seq<Task>, path: string): (r: Option<Task>)
    ensures var file := TrimPrefix(path, LudwigDirPrefix);
            && (r.None? <==> forall j :: 0 <= j < |tasks| ==> tasks[j].responseFile != file)
            && (r.Some? ==> exists i :: 0 <= i < |tasks| && tasks[i] == r.value && r.value.responseFile == file
                                        && forall j :: 0 <= j < i ==> tasks[j].responseFile != file)
  {
    FindByResponseFile(tasks, TrimPrefix(path, LudwigDirPrefix))
  }

  /** The prefix is removed once only: a doubled prefix leaves one behind. */
  lemma PrefixStrippedOnce(tasks: seq<Task>, file: string)
    ensures GetTaskByPath(tasks, LudwigDirPrefix + LudwigDirPrefix + file)
         == FindByResponseFile(tasks, LudwigDirPrefix + file)
  {
    var path := LudwigDirPrefix + LudwigDirPrefix + file;
    assert LudwigDirPrefix <= path;
    assert path[|LudwigDirPrefix|..] == LudwigDirPrefix + file;
  }

  /** A path with or without the prefix finds the same task. */
  lemma PrefixIsOptional(tasks: seq<Task>, file: string)
    requires !(LudwigDirPrefix <= file)
    ensures GetTaskByPath(tasks, LudwigDirPrefix + file) == GetTaskByPath(tasks, file)
  {
    assert (LudwigDirPrefix + file)[|LudwigDirPrefix|..] == file;
  }

  // ---------------------------------------------------------------------
  // HasFileChangedHybrid

  /** The change-detection state of a `FileChangeInfo`, as a value. */
  datatype ChangeState = ChangeState(modTime: int, hash: seq<bv8>)

  /** What `HasFileChangedHybrid` returns: the changed flag, the new file
      content (read only when the file did change) and the error, if any. */
  datatype ChangeReport = ChangeReport(changed: bool, content: string, err: Option<string>)

  /** One call of `HasFileChangedHybrid` on state `st`, given the outcome of
      the stat call (the modification time), of the FNV hash of the file and
      the content a read of the file would return. */
  function ChangeStep(st: ChangeState, stat: Result<int, string>, hash: Result<seq<bv8>, string>,
                      content: string): (r: (ChangeState, ChangeReport))
    ensures r.0.modTime >= st.modTime
    ensures r.1.err.Some? ==> r.1.changed && r.1.content == "" && r.0 == st
    ensures !r.1.changed ==> r.1.content == "" && r.1.err.None?
    ensures stat.Err? ==> r.1.err == Some(stat.error) && r.0 == st
    ensures stat.Ok? && stat.value <= st.modTime ==> r == (st, ChangeReport(false, "", None))
    ensures r.0 != st ==> stat.Ok? && hash.Ok? && r.0 == ChangeState(stat.value, r.0.hash)
                          && st.modTime < stat.value
    ensures r.1.changed && r.1.err.None? ==>
              stat.Ok? && hash.Ok? && hash.value != st.hash
              && r.0 == ChangeState(stat.value, hash.value) && r.1.content == content
    ensures stat.Ok? && stat.value > st.modTime && hash.Err? ==>
              r == (st, ChangeReport(true, "", Some(hash.error)))
    ensures stat.Ok? && stat.value > st.modTime && hash.Ok? && hash.value != st.hash ==>
              r == (ChangeState(stat.value, hash.value), ChangeReport(true, content, None))
    ensures stat.Ok? && stat.value > st.modTime && hash.Ok? && hash.value == st.hash ==>
              r == (ChangeState(stat.value, st.hash), ChangeReport(false, "", None))
  {
    match stat
    case Err(e) => (st, ChangeReport(true, "", Some(e)))
    case Ok(modTime) =>
      if !(modTime > st.modTime) then (st, ChangeReport(false, "", None))
      else match hash
        case Err(e) => (st, ChangeReport(true, "", Some(e)))
        case Ok(h) =>
          if h != st.hash then (ChangeState(modTime, h), ChangeReport(true, content, None))
          else (ChangeState(modTime, st.hash), ChangeReport(false, "", None))
  }

  /** Asking again about a file that has not been touched since reports no
      change and leaves the state as it is. */
  lemma ChangeStepSettles(st: ChangeState, modTime: int, hash: seq<bv8>, content: string)
    requires ChangeStep(st, Ok(modTime), Ok(hash), content).1.err.None?
    ensures var st' := ChangeStep(st, Ok(modTime), Ok(hash), content).0;
            ChangeStep(st', Ok(modTime), Ok(hash), content) == (st', ChangeReport(false, "", None))
  {
  }

  /** `FileChangeInfo`: the last modification time and hash seen. */
  class FileChangeInfo {
    var lastModTime: int
    var lastHash: seq<bv8>

    /** The record `InitFileChangeInfo` builds from a stat and a hash. */
    constructor (modTime: int, hash: seq<bv8>)
      ensures lastModTime == modTime && lastHash == hash
    {
      lastModTime := modTime;
      lastHash := hash;
    }

    function State(): ChangeState
      reads this
    {
      ChangeState(lastModTime, lastHash)
    }

    /** `HasFileChangedHybrid`, updating the record in place. */
    method HasFileChangedHybrid(stat: Result<int, string>, hash: Result<seq<bv8>, string>, content: string)
      returns (changed: bool, text: string, err: Option<string>)
      modifies this
      ensures (State(), ChangeReport(changed, text, err)) == ChangeStep(old(State()), stat, hash, content)
    {
      if stat.Err? {
        return true, "", Some(stat.error);
      }
      var modTime := stat.value;
      if !(modTime > lastModTime) {
        return false, "", None;
      }
      if hash.Err? {
        return true, "", Some(hash.error);
      }
      var newHash := hash.value;
      changed := newHash != lastHash;
      if changed {
        lastModTime := modTime;
        lastHash := newHash;
        return true, content, None;
      }
      lastModTime := modTime;
      return false, "", None;
    }
  }
}
