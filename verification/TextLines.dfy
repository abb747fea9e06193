/** Lines of a text and their trimming, for ASCII text. */
module TextLines {
  import opened Common
  import opened Hex

  predicate IsSpace(c: char) {
    c == ' ' || '\t' <= c <= '\r'
  }

  function TrimStart(s: string): string {
    if s != [] && IsSpace(s[0]) then TrimStart(s[1..]) else s
  }

  function TrimEnd(s: string): string {
    if s != [] && IsSpace(s[|s| - 1]) then TrimEnd(s[..|s| - 1]) else s
  }

  function Trim(s: string): string {
    TrimEnd(TrimStart(s))
  }

  /** The text up to its first newline. */
  function FirstLine(text: string): (r: string)
    ensures |r| <= |text|
  {
    if text == [] || text[0] == '\n' then [] else [text[0]] + FirstLine(text[1..])
  }

  /** The lines of a text. A carriage return before a newline is left to the trimming that
      every caller does. */
  function Lines(text: string): seq<string>
    decreases |text|
  {
    if text == [] then []
    else
      var line := FirstLine(text);
      [line] + (if |line| < |text| then Lines(text[|line| + 1..]) else [])
  }

  function Joined(lines: seq<string>): string {
    if lines == [] then [] else lines[0] + "\n" + Joined(lines[1..])
  }

  lemma {:induction false} FirstLineOf(line: string, rest: string)
    requires '\n' !in line
    ensures FirstLine(line + "\n" + rest) == line
  {
    if line == [] {
      assert (line + "\n" + rest)[0] == '\n';
    } else {
      assert line[0] in line;
      assert (line + "\n" + rest)[1..] == line[1..] + "\n" + rest;
      FirstLineOf(line[1..], rest);
    }
  }

  lemma {:induction false} LinesOfJoined(lines: seq<string>)
    requires forall i :: 0 <= i < |lines| ==> '\n' !in lines[i]
    ensures Lines(Joined(lines)) == lines
  {
    if lines != [] {
      var rest := Joined(lines[1..]);
      FirstLineOf(lines[0], rest);
      assert Joined(lines)[|lines[0]| + 1..] == rest;
      LinesOfJoined(lines[1..]);
    }
  }

  /** The last line need not end in a newline. */
  lemma {:induction false} LinesOfUnfinished(lines: seq<string>, last: string)
    requires forall i :: 0 <= i < |lines| ==> '\n' !in lines[i]
    requires last != [] && '\n' !in last
    ensures Lines(Joined(lines) + last) == lines + [last]
  {
    if lines == [] {
      assert Joined(lines) + last == last && lines + [last] == [last];
      OnlyLine(last);
    } else {
      var rest := Joined(lines[1..]) + last;
      var text := Joined(lines) + last;
      assert text == lines[0] + "\n" + rest;
      FirstLineOf(lines[0], rest);
      assert text[|lines[0]| + 1..] == rest;
      LinesOfUnfinished(lines[1..], last);
      assert lines + [last] == [lines[0]] + (lines[1..] + [last]);
    }
  }

  lemma {:induction false} OnlyLine(last: string)
    requires '\n' !in last
    ensures FirstLine(last) == last
  {
    if last != [] {
      assert last[0] in last;
      OnlyLine(last[1..]);
    }
  }

  // ----- layout

  /** The white space of ASCII. */
  predicate IsLayout(c: char) {
    c == ' ' || c == '\t' || c == '\n' || c == '\U{000B}' || c == '\U{000C}' || c == '\r'
  }

  predicate Blank(s: string) {
    forall i :: 0 <= i < |s| ==> IsLayout(s[i])
  }

  /** Text with neither end blank. */
  predicate Solid(s: string) {
    s != [] && !IsLayout(s[0]) && !IsLayout(s[|s| - 1])
  }

  lemma {:induction false} BlankStart(pre: string, s: string)
    requires Blank(pre) && (s == [] || !IsLayout(s[0]))
    ensures TrimStart(pre + s) == s
  {
    if pre == [] {
      assert pre + s == s;
    } else {
      assert (pre + s)[1..] == pre[1..] + s;
      BlankStart(pre[1..], s);
    }
  }

  lemma {:induction false} BlankEnd(s: string, post: string)
    requires Blank(post) && (s == [] || !IsLayout(s[|s| - 1]))
    ensures TrimEnd(s + post) == s
    decreases |post|
  {
    if post == [] {
      assert s + post == s;
    } else {
      assert (s + post)[..|s + post| - 1] == s + post[..|post| - 1];
      BlankEnd(s, post[..|post| - 1]);
    }
  }

  /** Trimming drops the white space around a text, and a blank line whole. */
  lemma TrimsLayout(pre: string, s: string, post: string)
    requires Blank(pre) && Blank(post) && Solid(s)
    ensures Trim(pre + s + post) == s
  {
    assert pre + s + post == pre + (s + post);
    BlankStart(pre, s + post);
    BlankEnd(s, post);
  }

  lemma TrimsBlank(s: string)
    requires Blank(s)
    ensures Trim(s) == []
  {
    assert s + [] == s;
    BlankStart(s, []);
  }

  /** A line that spells a record mark and hex digits, indented or followed by white space,
      a carriage return included, its digits in either case. */
  ghost predicate SpelledAs(line: string, mark: string, digits: string) {
    exists pre, spelled, post ::
      Blank(pre) && Blank(post) && SameDigits(spelled, digits) && line == pre + (mark + spelled) + post
  }

  lemma PrintedIsSpelled(mark: string, digits: string)
    ensures SpelledAs(mark + digits, mark, digits)
  {
    assert Blank([]) && SameDigits(digits, digits);
    assert mark + digits == [] + (mark + digits) + [];
  }

  lemma DigitIsSolid(a: char, digit: char)
    requires Upper(a) == Upper(digit) && IsDigit(digit)
    ensures !IsLayout(a)
  {
  }

  lemma SpelledIsSolid(mark: string, spelled: string, bytes: seq<Byte>)
    requires Solid(mark) && SameDigits(spelled, Printed(bytes))
    ensures Solid(mark + spelled)
  {
    PrintedDigits(bytes);
    var n := |spelled|;
    if n == 0 {
      assert mark + spelled == mark;
    } else {
      assert (mark + spelled)[0] == mark[0] && (mark + spelled)[|mark + spelled| - 1] == spelled[n - 1];
      hide Printed, Upper, IsLayout;
      DigitIsSolid(spelled[n - 1], Printed(bytes)[n - 1]);
    }
  }

  lemma SpelledTrims(line: string, mark: string, bytes: seq<Byte>) returns (spelled: string)
    requires Solid(mark) && SpelledAs(line, mark, Printed(bytes))
    ensures Trim(line) == mark + spelled && |spelled| == 2 * |bytes| && HexBytes(spelled) == Some(bytes)
  {
    var pre, s, post :| Blank(pre) && Blank(post) && SameDigits(s, Printed(bytes)) && line == pre + (mark + s) + post;
    spelled := s;
    assert |s| == |Printed(bytes)|;
    SpelledIsSolid(mark, s, bytes);
    hide *;
    PrintedReads(bytes);
    CaseIgnored(s, Printed(bytes));
    TrimsLayout(pre, mark + s, post);
  }

  lemma SolidLine(s: string)
    requires s != [] && forall i :: 0 <= i < |s| ==> !IsSpace(s[i])
    ensures Trim(s) == s && '\n' !in s
  {
    assert !IsSpace(s[0]) && !IsSpace(s[|s| - 1]);
  }

  /** A record mark followed by hex digits survives trimming and line splitting. */
  lemma SolidRecord(mark: string, bytes: seq<Byte>)
    requires mark != [] && forall i :: 0 <= i < |mark| ==> !IsSpace(mark[i])
    ensures var line := mark + Printed(bytes);
            Trim(line) == line && '\n' !in line && line[|mark|..] == Printed(bytes)
  {
    var digits := Printed(bytes);
    var line := mark + digits;
    PrintedDigits(bytes);
    hide Trim, Printed;
    forall i | 0 <= i < |line| ensures !IsSpace(line[i]) {
      if i >= |mark| {
        assert line[i] == digits[i - |mark|];
      }
    }
    SolidLine(line);
  }
}
