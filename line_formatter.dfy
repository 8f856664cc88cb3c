/**
 The log-line formatter of the boot terminal and the splitting of a fetched
 log into display lines. Rendering is reduced to the kind of token a line
 is shown as; colours and markup are presentation.
 */
module LineFormatter {
  import opened Wrappers
  import opened JsText

  /**
   A value held in a display buffer. The streamer appends `lines[idx]`,
   which is `undefined` when it reads past the end of an empty source.
   */
  datatype LineValue = Undefined | Str(text: string)

  /** JavaScript truthiness of a buffer value: a non-empty string. */
  predicate Truthy(v: LineValue) {
    v.Str? && v.text != ""
  }

  /** How a line is rendered: a prompt split into its two parts, or one of the styles. */
  datatype Token = Prompt(prefix: string, cmd: string) | Fatal | Error | Warn | Debug | Info | Plain

  /** The user@host marker that makes a line a shell prompt. */
  const PromptMarker: string := "madwesh@"

  /** The severity markers with their tokens, in the order the formatter tests them. */
  const Severities: seq<(string, Token)> :=
    [("[FATAL]", Fatal), ("[ERROR]", Error), ("[WARN]", Warn), ("[DEBUG]", Debug), ("[INFO]", Info)]

  /**
   `formatLogLine`: nothing for a falsy line; a prompt for a line starting
   with the marker; otherwise the first severity marker the line contains,
   or plain.
   */
  function FormatLogLine(line: LineValue): (r: Option<Token>)
    ensures r.None? <==> !Truthy(line)
    ensures r.Some? && r.value.Prompt? <==> Truthy(line) && StartsWith(line.text, PromptMarker)
  {
    if !Truthy(line) then None
    else if StartsWith(line.text, PromptMarker) then
      var parts := Split(line.text, ':');
      Some(Prompt(parts[0], Trim(Join(parts[1..], ':'))))
    else if Includes(line.text, "[FATAL]") then Some(Fatal)
    else if Includes(line.text, "[ERROR]") then Some(Error)
    else if Includes(line.text, "[WARN]") then Some(Warn)
    else if Includes(line.text, "[DEBUG]") then Some(Debug)
    else if Includes(line.text, "[INFO]") then Some(Info)
    else Some(Plain)
  }

  /**
   A prompt line is cut at its first colon: the prefix is everything before
   it, the command is everything after it, later colons included, trimmed.
   */
  lemma {:induction false} PromptSplitsAtFirstColon(prefix: string, rest: string)
    requires StartsWith(prefix, PromptMarker) && Lacks(prefix, ':')
    ensures FormatLogLine(Str(prefix + ":" + rest)) == Some(Prompt(prefix, Trim(rest)))
  {
    var line := prefix + ":" + rest;
    assert line[|prefix|] == ':' && line[..|prefix|] == prefix;
    assert line[..|PromptMarker|] == prefix[..|PromptMarker|];
    FirstAt(line, ':', |prefix|);
    assert line[|prefix| + 1..] == rest;
    var parts := Split(line, ':');
    assert parts == [prefix] + Split(rest, ':');
    assert parts[1..] == Split(rest, ':');
    JoinSplit(rest, ':');
  }

  /** A prompt line without a colon is all prefix, with an empty command. */
  lemma PromptWithoutColon(line: string)
    requires StartsWith(line, PromptMarker) && Lacks(line, ':')
    ensures FormatLogLine(Str(line)) == Some(Prompt(line, ""))
  {
    IndexOfFinds(line, ':');
    var parts := Split(line, ':');
    assert parts == [line];
    assert Join(parts[1..], ':') == "";
    var t := Trim("");
    assert |t| == 0 by {
      var i :| TrimmedAt("", t, i);
    }
  }

  /** The marker of row `k` is the first of the table that `line` contains. */
  predicate IsFirstMarker(line: string, k: int) {
    0 <= k < |Severities|
    && Includes(line, Severities[k].0)
    && forall j :: 0 <= j < k ==> !Includes(line, Severities[j].0)
  }

  /**
   A non-empty line that is not a prompt gets the token of the FIRST marker
   it contains, in the order FATAL, ERROR, WARN, DEBUG, INFO.
   */
  lemma SeverityPrecedence(line: string, k: int)
    requires line != "" && !StartsWith(line, PromptMarker) && 0 <= k < |Severities|
    ensures FormatLogLine(Str(line)) == Some(Severities[k].1) <==> IsFirstMarker(line, k)
  {
    SeverityTable();
  }

  /** A non-empty line that is not a prompt is plain exactly when it contains no marker. */
  lemma PlainWithoutMarker(line: string)
    requires line != "" && !StartsWith(line, PromptMarker)
    ensures FormatLogLine(Str(line)) == Some(Plain)
        <==> forall j :: 0 <= j < |Severities| ==> !Includes(line, Severities[j].0)
  {
    SeverityTable();
  }

  /** The rows of the marker table, one by one. */
  lemma SeverityTable()
    ensures |Severities| == 5
    ensures Severities[0] == ("[FATAL]", Fatal) && Severities[1] == ("[ERROR]", Error)
    ensures Severities[2] == ("[WARN]", Warn) && Severities[3] == ("[DEBUG]", Debug)
    ensures Severities[4] == ("[INFO]", Info)
  {
  }

  /** `parts.filter(Boolean)` on strings: the non-empty ones, in their order. */
  function DropEmpty(parts: seq<string>): (r: seq<string>)
    ensures |r| <= |parts|
    ensures forall i :: 0 <= i < |r| ==> r[i] != "" && r[i] in parts
  {
    if parts == [] then []
    else (if parts[0] == "" then [] else [parts[0]]) + DropEmpty(parts[1..])
  }

  /** `filter(Boolean)` on one piece: it is kept exactly when it is non-empty. */
  lemma DropEmptySingle(x: string)
    ensures DropEmpty([x]) == (if x == "" then [] else [x])
  {
    assert [x][1..] == [];
  }

  /**
   `filter(Boolean)` distributes over concatenation: together with
   `DropEmptySingle` this says every non-empty piece is kept, in its order.
   */
  lemma {:induction false} DropEmptyAppend(a: seq<string>, b: seq<string>)
    ensures DropEmpty(a + b) == DropEmpty(a) + DropEmpty(b)
    decreases |a|
  {
    if a == [] {
      assert a + b == b;
    } else {
      assert (a + b)[0] == a[0];
      assert (a + b)[1..] == a[1..] + b;
      DropEmptyAppend(a[1..], b);
    }
  }

  /**
   `txt.split("\n").filter(Boolean)`: the lines handed to the streamer are
   non-empty and contain no line break.
   */
  function SplitLines(txt: string): (lines: seq<string>)
    ensures forall i :: 0 <= i < |lines| ==> lines[i] != "" && Lacks(lines[i], '\n')
  {
    SplitLacks(txt, '\n');
    DropEmpty(Split(txt, '\n'))
  }

  /** A text without `\n` is a single line, or no line at all when it is empty. */
  lemma SplitLinesOfLine(a: string)
    requires Lacks(a, '\n')
    ensures SplitLines(a) == (if a == "" then [] else [a])
  {
    IndexOfFinds(a, '\n');
    assert Split(a, '\n') == [a];
    DropEmptySingle(a);
  }

  /**
   A `\n` separates the lines before it from the lines after it: the lines of
   `a + "\n" + b` are those of `a` followed by those of `b`, in order.
   */
  lemma SplitLinesAppend(a: string, b: string)
    requires Lacks(a, '\n')
    ensures SplitLines(a + "\n" + b) == SplitLines(a) + SplitLines(b)
  {
    var s := a + "\n" + b;
    assert s[|a|] == '\n' && s[|a| + 1..] == b && s[..|a|] == a;
    assert forall j :: 0 <= j < |a| ==> s[j] == a[j];
    FirstAt(s, '\n', |a|);
    SplitAt(s, '\n', |a|);
    DropEmptyAppend([a], Split(b, '\n'));
    SplitLinesOfLine(a);
  }

  /** The pieces glued together without separators. */
  function Concat(parts: seq<string>): string {
    if parts == [] then "" else parts[0] + Concat(parts[1..])
  }

  /** `s` with every occurrence of `c` taken out. */
  function Strip(s: string, c: char): string {
    if s == [] then "" else (if s[0] == c then "" else [s[0]]) + Strip(s[1..], c)
  }

  lemma {:induction false} StripAppend(a: string, b: string, c: char)
    ensures Strip(a + b, c) == Strip(a, c) + Strip(b, c)
    decreases |a|
  {
    if a != [] {
      assert (a + b)[1..] == a[1..] + b;
      StripAppend(a[1..], b, c);
    } else {
      assert a + b == b;
    }
  }

  lemma {:induction false} StripAbsent(s: string, c: char)
    requires Lacks(s, c)
    ensures Strip(s, c) == s
    decreases |s|
  {
    if s != [] {
      StripAbsent(s[1..], c);
    }
  }

  lemma {:induction false} ConcatDropEmpty(parts: seq<string>)
    ensures Concat(DropEmpty(parts)) == Concat(parts)
    decreases |parts|
  {
    if parts != [] {
      var tail := DropEmpty(parts[1..]);
      ConcatDropEmpty(parts[1..]);
      if parts[0] != "" {
        assert DropEmpty(parts) == [parts[0]] + tail;
        assert ([parts[0]] + tail)[1..] == tail;
      } else {
        assert DropEmpty(parts) == tail;
        assert Concat(parts) == "" + Concat(parts[1..]) == Concat(parts[1..]);
      }
    }
  }

  /** Gluing a piece in front of others. */
  lemma ConcatCons(head: string, rest: seq<string>)
    ensures Concat([head] + rest) == head + Concat(rest)
  {
    assert ([head] + rest)[1..] == rest;
  }

  /** Stripping around the first separator: the part before it, then the rest stripped. */
  lemma StripAt(s: string, c: char, i: int)
    requires 0 <= i < |s| && s[i] == c && forall j :: 0 <= j < i ==> s[j] != c
    ensures Strip(s, c) == s[..i] + Strip(s[i + 1..], c)
  {
    var tail := s[i + 1..];
    assert s == s[..i] + ([c] + tail);
    StripAppend(s[..i], [c] + tail, c);
    NoneBefore(s, c, i);
    StripAbsent(s[..i], c);
    assert ([c] + tail)[1..] == tail;
  }

  lemma {:induction false} ConcatSplit(s: string, c: char)
    ensures Concat(Split(s, c)) == Strip(s, c)
    decreases |s|
  {
    var i := IndexOf(s, c);
    IndexOfFinds(s, c);
    if i < 0 {
      StripAbsent(s, c);
    } else {
      SplitAt(s, c, i);
      ConcatCons(s[..i], Split(s[i + 1..], c));
      ConcatSplit(s[i + 1..], c);
      StripAt(s, c, i);
    }
  }

  /**
   Splitting keeps every character that is not a line break, in order: the
   lines, glued back together, are the text without its line breaks.
   */
  lemma SplitLinesKeepsText(txt: string)
    ensures Concat(SplitLines(txt)) == Strip(txt, '\n')
  {
    ConcatDropEmpty(Split(txt, '\n'));
    ConcatSplit(txt, '\n');
  }

  lemma {:induction false} DropEmptyKeeps(parts: seq<string>)
    requires forall i :: 0 <= i < |parts| ==> parts[i] != ""
    ensures DropEmpty(parts) == parts
    decreases |parts|
  {
    if parts != [] {
      DropEmptyKeeps(parts[1..]);
      assert DropEmpty(parts) == [parts[0]] + DropEmpty(parts[1..]);
      assert parts == [parts[0]] + parts[1..];
    }
  }

  /**
   Lines that are non-empty and free of line breaks, written one per line,
   split back into exactly those lines.
   */
  lemma SplitLinesJoin(lines: seq<string>)
    requires forall i :: 0 <= i < |lines| ==> lines[i] != "" && Lacks(lines[i], '\n')
    ensures SplitLines(Join(lines, '\n')) == lines
  {
    if lines == [] {
      assert Split("", '\n') == [""];
    } else {
      SplitJoin(lines, '\n');
      DropEmptyKeeps(lines);
    }
  }
}
