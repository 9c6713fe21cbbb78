/** TextFileService: readFileToString reads a file line by line with BufferedReader.readLine
    and joins the lines with '\n'; writeStringToFile writes the text unchanged. The file system
    is left out: a file is its content. */
module TextFile {
  import opened Common

  predicate IsTerminator(c: char) {
    c == '\n' || c == '\r'
  }

  /** writeStringToFile(text, file): the file then holds exactly the text. */
  function WriteStringToFile(text: string): string {
    text
  }

  /** Index of the first line terminator at or after i (|s| when there is none). */
  function LineEnd(s: string, i: nat): (j: nat)
    requires i <= |s|
    ensures i <= j <= |s|
    ensures forall k :: i <= k < j ==> !IsTerminator(s[k])
    ensures j < |s| ==> IsTerminator(s[j])
    decreases |s| - i
  {
    if i == |s| || IsTerminator(s[i]) then i else LineEnd(s, i + 1)
  }

  /** Where the next line starts after the terminator at j: "\r\n" counts as one terminator. */
  function NextStart(s: string, j: nat): (n: nat)
    requires j < |s|
    ensures j < n <= |s|
  {
    if s[j] == '\r' && j + 1 < |s| && s[j + 1] == '\n' then j + 2 else j + 1
  }

  /** line is what readLine returns at position pos, and next is where it resumes: the
      characters up to the next '\n', '\r' or "\r\n" or the end, then past that terminator. */
  predicate IsLineAt(s: string, pos: nat, line: string, next: nat) {
    var j := pos + |line|;
    && j <= |s| && line == s[pos..j]
    && (forall c :: c in line ==> !IsTerminator(c))
    && (j == |s| ==> next == |s|)
    && (j < |s| ==>
          && IsTerminator(s[j])
          && (next == j + 1 || next == j + 2)
          && (next == j + 2 <==> s[j] == '\r' && j + 1 < |s| && s[j + 1] == '\n'))
  }

  /** BufferedReader.readLine() at position pos: None at end of input, otherwise the line and
      the position after its terminator. */
  function ReadLine(s: string, pos: nat): (r: Option<(string, nat)>)
    requires pos <= |s|
    ensures r.None? <==> pos == |s|
    ensures r.Some? ==> pos < r.value.1 <= |s|
    ensures r.Some? ==> IsLineAt(s, pos, r.value.0, r.value.1)
  {
    if pos == |s| then None
    else
      var j := LineEnd(s, pos);
      Some((s[pos..j], if j == |s| then j else NextStart(s, j)))
  }

  /** The lines successive readLine calls return, starting at position pos. */
  function LinesFrom(s: string, pos: nat): seq<string>
    requires pos <= |s|
    decreases |s| - pos
  {
    match ReadLine(s, pos)
    case None => []
    case Some((line, next)) => [line] + LinesFrom(s, next)
  }

  function Lines(s: string): seq<string> {
    LinesFrom(s, 0)
  }

  /** Reference definition: the lines separated by '\n'. */
  function Join(lines: seq<string>): string {
    if |lines| == 0 then ""
    else if |lines| == 1 then lines[0]
    else lines[0] + "\n" + Join(lines[1..])
  }

  /** What the StringBuilder holds after the loop: every line followed by '\n'. */
  function Appended(lines: seq<string>): string {
    if |lines| == 0 then "" else lines[0] + "\n" + Appended(lines[1..])
  }

  /** The text readFileToString returns for a file that reads without error. */
  function ReadBack(content: string): string {
    Join(Lines(content))
  }

  /** How many lines the loop appends when the readLine call numbered failAt (from 0) throws. */
  function LinesRead(content: string, failAt: Option<nat>): nat {
    var n := |Lines(content)|;
    match failAt
    case None => n
    case Some(k) => if k < n then k else n
  }

  lemma {:induction false} AppendedSnoc(lines: seq<string>, line: string)
    ensures Appended(lines + [line]) == Appended(lines) + line + "\n"
    decreases |lines|
  {
    if |lines| > 0 {
      assert (lines + [line])[1..] == lines[1..] + [line];
      AppendedSnoc(lines[1..], line);
    }
  }

  /** Deleting the last character of the appended lines joins them with '\n'. */
  lemma {:induction false} AppendedDropLast(lines: seq<string>)
    requires |lines| > 0
    ensures |Appended(lines)| > 0
    ensures Appended(lines)[..|Appended(lines)| - 1] == Join(lines)
    decreases |lines|
  {
    if |lines| > 1 {
      AppendedDropLast(lines[1..]);
      var rest := Appended(lines[1..]);
      assert Appended(lines)[..|Appended(lines)| - 1] == lines[0] + "\n" + rest[..|rest| - 1];
    }
  }

  /** One turn of the readFileToString loop: the line read is the next of the lines, and the
      buffer grows by it and '\n'. */
  lemma ReadOneLine(s: string, lines: seq<string>, pos: nat, count: nat, line: string, after: nat)
    requires pos <= |s| && count <= |lines|
    requires LinesFrom(s, pos) == lines[count..]
    requires ReadLine(s, pos) == Some((line, after))
    ensures count < |lines| && after <= |s|
    ensures LinesFrom(s, after) == lines[count + 1..]
    ensures Appended(lines[..count + 1]) == Appended(lines[..count]) + line + "\n"
  {
    assert lines[count..] == [line] + LinesFrom(s, after);
    assert lines[..count + 1] == lines[..count] + [line];
    AppendedSnoc(lines[..count], line);
  }

  /** readFileToString(file): the loop appends each line and '\n' until readLine returns null
      or throws; an IOException is reported and swallowed, so the lines read before it are
      kept; finally the last '\n' is deleted. failAt models the readLine call that throws. */
  method ReadFileToString(content: string, failAt: Option<nat>) returns (text: string)
    ensures text == Join(Lines(content)[..LinesRead(content, failAt)])
  {
    ghost var lines := Lines(content);
    var sb := "";
    var pos := 0;
    var count := 0;
    while true
      invariant pos <= |content|
      invariant count <= |lines|
      invariant LinesFrom(content, pos) == lines[count..]
      invariant sb == Appended(lines[..count])
      invariant failAt.Some? ==> count <= failAt.value
      decreases |content| - pos
    {
      if failAt == Some(count) {
        break;
      }
      var next := ReadLine(content, pos);
      if next.None? {
        break;
      }
      var (line, after) := next.value;
      ReadOneLine(content, lines, pos, count, line, after);
      sb := sb + line + "\n";
      pos := after;
      count := count + 1;
    }
    assert count == LinesRead(content, failAt);
    if |sb| > 0 {
      AppendedDropLast(lines[..count]);
      sb := sb[..|sb| - 1];
    }
    text := sb;
  }

  /** Lines never contain a terminator. */
  lemma {:induction false} LinesFromHaveNoTerminators(s: string, pos: nat)
    requires pos <= |s|
    ensures forall l, c :: l in LinesFrom(s, pos) && c in l ==> !IsTerminator(c)
    decreases |s| - pos
  {
    if pos < |s| {
      var j := LineEnd(s, pos);
      var next := if j == |s| then j else NextStart(s, j);
      LinesFromHaveNoTerminators(s, next);
      assert forall c :: c in s[pos..j] ==> !IsTerminator(c);
    }
  }

  lemma {:induction false} JoinHasNoCarriageReturn(lines: seq<string>)
    requires forall l :: l in lines ==> '\r' !in l
    ensures '\r' !in Join(lines)
    decreases |lines|
  {
    if |lines| > 1 {
      JoinHasNoCarriageReturn(lines[1..]);
    }
  }

  /** '\r' and "\r\n" act as terminators and come out as '\n': the result has no '\r'. */
  lemma ReadBackHasNoCarriageReturn(content: string)
    ensures '\r' !in ReadBack(content)
  {
    LinesFromHaveNoTerminators(content, 0);
    JoinHasNoCarriageReturn(Lines(content));
  }

  lemma {:induction false} JoinLinesFromLength(s: string, pos: nat)
    requires pos <= |s|
    ensures |Join(LinesFrom(s, pos))| <= |s| - pos
    decreases |s| - pos
  {
    if pos < |s| {
      var j := LineEnd(s, pos);
      if j < |s| {
        var next := NextStart(s, j);
        JoinLinesFromLength(s, next);
      }
    }
  }

  /** Reading never makes the text longer than the file. */
  lemma ReadBackNotLonger(content: string)
    ensures |ReadBack(content)| <= |content|
  {
    JoinLinesFromLength(content, 0);
  }

  /** An empty file and a file holding one '\n' both read as the empty string. */
  lemma ReadBackOfEmptyLines()
    ensures ReadBack("") == ""
    ensures ReadBack("\n") == ""
  {
    assert LinesFrom("\n", 1) == [];
  }

  lemma {:induction false} JoinLinesFromIsSuffix(s: string, pos: nat)
    requires pos <= |s|
    requires '\r' !in s
    requires |s| > 0 ==> s[|s| - 1] != '\n'
    ensures Join(LinesFrom(s, pos)) == s[pos..]
    decreases |s| - pos
  {
    if pos < |s| {
      var j := LineEnd(s, pos);
      if j < |s| {
        assert s[j] == '\n';
        var next := NextStart(s, j);
        assert next == j + 1 < |s|;
        JoinLinesFromIsSuffix(s, next);
        assert LinesFrom(s, next) != [];
        assert s[pos..] == s[pos..j] + "\n" + s[next..];
      }
    }
  }

  /** Round trip: text without '\r' and without a trailing '\n' reads back unchanged from the
      file writeStringToFile wrote. */
  lemma ReadBackOfWrittenText(text: string)
    requires '\r' !in text
    requires |text| > 0 ==> text[|text| - 1] != '\n'
    ensures ReadBack(WriteStringToFile(text)) == text
  {
    JoinLinesFromIsSuffix(text, 0);
  }

  /** The round trip is lossy otherwise: "\r\n" is normalised and the final '\n' dropped. */
  lemma ReadBackNormalises()
    ensures ReadBack("a\r\nb\n") == "a\nb"
  {
    var s := "a\r\nb\n";
    assert LineEnd(s, 0) == 1 && NextStart(s, 1) == 3;
    assert LineEnd(s, 3) == 4 && NextStart(s, 4) == 5;
    assert s[0..1] == "a" && s[3..4] == "b";
    assert ReadLine(s, 0) == Some(("a", 3));
    assert ReadLine(s, 3) == Some(("b", 5));
    assert LinesFrom(s, 5) == [];
    assert LinesFrom(s, 3) == ["b"];
    assert Lines(s) == ["a", "b"];
  }
}
