/**
  The paragraph gatherer of xfmt and the one-line lookahead it reads
  through. gatherLine merges consecutive physical lines into one logical
  line: the first line is always taken; a further line is taken only when
  its prefix equals the paragraph's, its content is not empty and its
  content does not start with a non-text byte, and it is appended after one
  space. "First line" means "the paragraph's content is still empty", so a
  line with empty content leaves the paragraph unstarted and the next line
  replaces its prefix and terminator.
 */
module Gathering {
  import opened Prefix
  import opened LineSource

  /** A logical line under construction: its prefix, its content and the
      terminator it will be written with. */
  datatype Paragraph = Paragraph(prefix: string, content: string, end: string)

  /** What gathering returns: the paragraph and the lines it left unread. */
  datatype Gathered = Gathered(para: Paragraph, rest: seq<PhysLine>)

  /** The empty accumulator gatherLine starts from. */
  const NotStarted := Paragraph("", "", "")

  /** The ("", "") result that tells the driver the input is exhausted. */
  predicate IsSentinel(p: Paragraph) {
    p.prefix + p.content == "" && p.end == ""
  }

  /** The loop of gatherLine, from the accumulator `acc` on. */
  function GatherFrom(lines: seq<PhysLine>, acc: Paragraph): (g: Gathered)
    ensures |g.rest| <= |lines| && g.rest == lines[|lines| - |g.rest|..]
    ensures lines != [] && acc.content == "" ==> |g.rest| < |lines|
    ensures lines == [] ==> g == Gathered(acc, [])
    decreases |lines|
  {
    if lines == [] then Gathered(acc, [])
    else
      var line := lines[0];
      var end := if acc.content == "" then line.end else acc.end;
      var c := ParseLine(line.content);
      if acc.content != "" && (acc.prefix != c.prefix || c.content == "" || StartsWithNonText(c.content)) then
        Gathered(Paragraph(acc.prefix, acc.content, end), lines)
      else
        GatherFrom(lines[1..], Paragraph(c.prefix, if acc.content != "" then acc.content + " " + c.content else acc.content + c.content, end))
  }

  /** gatherLine on the lines still to be read: it leaves a suffix of them
      unread, and it takes at least one line whenever one is left. */
  function Gather(lines: seq<PhysLine>): (g: Gathered)
    ensures |g.rest| <= |lines| && g.rest == lines[|lines| - |g.rest|..]
    ensures lines != [] ==> |g.rest| < |lines|
  {
    GatherFrom(lines, NotStarted)
  }

  /** The accumulator stops looking like the sentinel once a real line has
      been taken, and never turns back. */
  lemma {:induction false} GatherNotSentinel(lines: seq<PhysLine>, acc: Paragraph)
    requires forall l <- lines :: IsLine(l)
    requires lines != [] || !IsSentinel(acc)
    ensures !IsSentinel(GatherFrom(lines, acc).para)
    decreases |lines|
  {
    if lines != [] {
      var line := lines[0];
      var c := ParseLine(line.content);
      assert IsLine(line);
      assert forall l <- lines[1..] :: l in lines;
      if !(acc.content != "" && (acc.prefix != c.prefix || c.content == "" || StartsWithNonText(c.content))) {
        var end := if acc.content == "" then line.end else acc.end;
        var next := Paragraph(c.prefix, if acc.content != "" then acc.content + " " + c.content else acc.content + c.content, end);
        assert !IsSentinel(next);
        GatherNotSentinel(lines[1..], next);
      }
    }
  }

  /** gatherLine returns the sentinel exactly when no line is left. */
  lemma GatherSentinelIff(lines: seq<PhysLine>)
    requires forall l <- lines :: IsLine(l)
    ensures IsSentinel(Gather(lines).para) <==> lines == []
  {
    if lines != [] {
      GatherNotSentinel(lines, NotStarted);
    } else {
      assert Gather(lines) == Gathered(NotStarted, []);
    }
  }

  /** The gathered paragraph parses back into its own prefix and content:
      a merged line has the paragraph's prefix, and its content is appended
      after a space, so parsing the whole logical line finds the same
      prefix. */
  lemma {:induction false} GatherReparses(lines: seq<PhysLine>, acc: Paragraph)
    requires ParseLine(acc.prefix + acc.content) == Classified(acc.prefix, acc.content)
    ensures var p := GatherFrom(lines, acc).para;
      ParseLine(p.prefix + p.content) == Classified(p.prefix, p.content)
    decreases |lines|
  {
    if lines != [] {
      var line := lines[0];
      var end := if acc.content == "" then line.end else acc.end;
      var c := ParseLine(line.content);
      if acc.content != "" && (acc.prefix != c.prefix || c.content == "" || StartsWithNonText(c.content)) {
      } else if acc.content != "" {
        ReparseExtended(acc.prefix, acc.content, " " + c.content);
        assert acc.content + " " + c.content == acc.content + (" " + c.content);
        GatherReparses(lines[1..], Paragraph(c.prefix, acc.content + " " + c.content, end));
      } else {
        assert acc.content + c.content == c.content;
        GatherReparses(lines[1..], Paragraph(c.prefix, acc.content + c.content, end));
      }
    }
  }

  /** Prefix fidelity of gatherLine: re-parsing the logical line it returns
      recovers the paragraph's prefix and content. */
  lemma GatherPrefixStable(lines: seq<PhysLine>)
    ensures var p := Gather(lines).para;
      ParseLine(p.prefix + p.content) == Classified(p.prefix, p.content)
  {
    assert ParseLine("" + "") == Classified("", "");
    GatherReparses(lines, NotStarted);
  }

  /** Whether a peeked line joins a started paragraph with the given
      prefix: same prefix, non-empty content, and text at its start. */
  predicate Joins(prefix: string, l: PhysLine) {
    var c := ParseLine(l.content);
    c.prefix == prefix && c.content != "" && !StartsWithNonText(c.content)
  }

  /** Reference gatherer, first of two phases: extend a started paragraph
      with each following line that joins it, each after one space. */
  function Collect(acc: Paragraph, lines: seq<PhysLine>): Gathered
    decreases |lines|
  {
    if lines != [] && Joins(acc.prefix, lines[0]) then
      Collect(Paragraph(acc.prefix, acc.content + " " + ParseLine(lines[0].content).content, acc.end), lines[1..])
    else Gathered(acc, lines)
  }

  /** Reference gatherer, second phase: lines with empty content are
      skipped while another line follows, and the first line with content
      starts the paragraph with its own prefix and terminator; input that
      ends with such lines yields the last of them with empty content. */
  function RefGather(lines: seq<PhysLine>): Gathered
    decreases |lines|
  {
    if lines == [] then Gathered(NotStarted, [])
    else
      var c := ParseLine(lines[0].content);
      if c.content != "" then Collect(Paragraph(c.prefix, c.content, lines[0].end), lines[1..])
      else if |lines| == 1 then Gathered(Paragraph(c.prefix, "", lines[0].end), [])
      else RefGather(lines[1..])
  }

  lemma {:induction false} GatherFromStarted(lines: seq<PhysLine>, acc: Paragraph)
    requires acc.content != ""
    ensures GatherFrom(lines, acc) == Collect(acc, lines)
    decreases |lines|
  {
    if lines != [] && Joins(acc.prefix, lines[0]) {
      var c := ParseLine(lines[0].content);
      GatherFromStarted(lines[1..], Paragraph(c.prefix, acc.content + " " + c.content, acc.end));
    }
  }

  lemma {:induction false} GatherFromBlank(lines: seq<PhysLine>, acc: Paragraph)
    requires acc.content == "" && lines != []
    ensures GatherFrom(lines, acc) == RefGather(lines)
    decreases |lines|
  {
    var c := ParseLine(lines[0].content);
    var next := Paragraph(c.prefix, acc.content + c.content, lines[0].end);
    assert acc.content + c.content == c.content;
    assert GatherFrom(lines, acc) == GatherFrom(lines[1..], next);
    if c.content != "" {
      GatherFromStarted(lines[1..], next);
    } else if |lines| > 1 {
      GatherFromBlank(lines[1..], next);
    }
  }

  /** gatherLine agrees with the two-phase reference gatherer. */
  lemma GatherMatchesReference(lines: seq<PhysLine>)
    ensures Gather(lines) == RefGather(lines)
  {
    if lines != [] {
      GatherFromBlank(lines, NotStarted);
    }
  }

  /** The contents of the given lines, each after one space. */
  function SpacedContents(lines: seq<PhysLine>): string {
    if lines == [] then "" else " " + ParseLine(lines[0].content).content + SpacedContents(lines[1..])
  }

  /** The number of leading lines that join a paragraph with the given
      prefix. */
  function RunLength(prefix: string, lines: seq<PhysLine>): (k: nat)
    ensures k <= |lines|
  {
    if lines != [] && Joins(prefix, lines[0]) then 1 + RunLength(prefix, lines[1..]) else 0
  }

  /** Every line within the run joins. */
  lemma {:induction false} RunJoins(prefix: string, lines: seq<PhysLine>, i: nat)
    requires i < RunLength(prefix, lines)
    ensures Joins(prefix, lines[i])
    decreases i
  {
    if i > 0 {
      RunJoins(prefix, lines[1..], i - 1);
      assert lines[i] == lines[1..][i - 1];
    }
  }

  /** The line right after the run does not join. */
  lemma {:induction false} RunStops(prefix: string, lines: seq<PhysLine>)
    requires RunLength(prefix, lines) < |lines|
    ensures !Joins(prefix, lines[RunLength(prefix, lines)])
    decreases |lines|
  {
    if Joins(prefix, lines[0]) {
      var k := RunLength(prefix, lines);
      RunStops(prefix, lines[1..]);
      assert lines[k] == lines[1..][k - 1];
    }
  }

  /** The run is maximal: every line in it joins, the first line after it
      does not. */
  lemma RunLengthMaximal(prefix: string, lines: seq<PhysLine>)
    ensures var k := RunLength(prefix, lines);
      && (forall i | 0 <= i < k :: Joins(prefix, lines[i]))
      && (k < |lines| ==> !Joins(prefix, lines[k]))
  {
    var k := RunLength(prefix, lines);
    forall i | 0 <= i < k
      ensures Joins(prefix, lines[i])
    {
      RunJoins(prefix, lines, i);
    }
    if k < |lines| {
      RunStops(prefix, lines);
    }
  }

  /** Appending the first line's content after one space, then the spaced
      contents of the next k - 1 lines, appends the spaced contents of the
      first k lines. */
  lemma SpacedContentsTake(a: string, lines: seq<PhysLine>, k: nat)
    requires 1 <= k <= |lines|
    ensures a + " " + ParseLine(lines[0].content).content + SpacedContents(lines[1..][..k - 1])
      == a + SpacedContents(lines[..k])
  {
    var run := lines[1..][..k - 1];
    assert lines[..k] == [lines[0]] + run;
    SpacedContentsCons(lines[0], run);
    SpaceRegroup(a, ParseLine(lines[0].content).content, SpacedContents(run));
  }

  lemma SpaceRegroup(a: string, r: string, t: string)
    ensures a + " " + r + t == a + (" " + r + t)
  {
  }

  lemma SpacedContentsCons(l: PhysLine, lines: seq<PhysLine>)
    ensures SpacedContents([l] + lines) == " " + ParseLine(l.content).content + SpacedContents(lines)
  {
    assert ([l] + lines)[1..] == lines;
  }

  /** Collect leaves exactly the lines after the run of joining lines. */
  lemma {:induction false} CollectRest(acc: Paragraph, lines: seq<PhysLine>)
    ensures Collect(acc, lines).rest == lines[RunLength(acc.prefix, lines)..]
    decreases |lines|
  {
    if lines != [] && Joins(acc.prefix, lines[0]) {
      var r := ParseLine(lines[0].content).content;
      var next := Paragraph(acc.prefix, acc.content + " " + r, acc.end);
      var k := RunLength(acc.prefix, lines);
      CollectRest(next, lines[1..]);
      assert lines[1..][k - 1..] == lines[k..];
    }
  }

  /** Collect keeps the paragraph's prefix and terminator, and its content
      grows by the contents of the run of joining lines, each after one
      space. */
  lemma {:induction false} CollectContent(acc: Paragraph, lines: seq<PhysLine>)
    ensures var k := RunLength(acc.prefix, lines);
      Collect(acc, lines).para == Paragraph(acc.prefix, acc.content + SpacedContents(lines[..k]), acc.end)
    decreases |lines|
  {
    var k := RunLength(acc.prefix, lines);
    if lines != [] && Joins(acc.prefix, lines[0]) {
      var r := ParseLine(lines[0].content).content;
      var next := Paragraph(acc.prefix, acc.content + " " + r, acc.end);
      CollectContent(next, lines[1..]);
      SpacedContentsTake(acc.content, lines, k);
    } else {
      assert lines[..0] == [];
      assert acc.content + [] == acc.content;
    }
  }

  /** Collect takes exactly the run of joining lines: the paragraph keeps
      its prefix and terminator, its content grows by the contents of the
      run, each after one space, and the lines after the run are left. */
  lemma CollectRun(acc: Paragraph, lines: seq<PhysLine>)
    ensures var k := RunLength(acc.prefix, lines);
      Collect(acc, lines) == Gathered(Paragraph(acc.prefix, acc.content + SpacedContents(lines[..k]), acc.end), lines[k..])
  {
    CollectRest(acc, lines);
    CollectContent(acc, lines);
  }

  /** One round of the loop of gatherLine: a line that does not join the
      started paragraph stops gathering and stays unread; any other line is
      taken. */
  lemma GatherStep(lines: seq<PhysLine>, acc: Paragraph)
    requires lines != []
    ensures var c := ParseLine(lines[0].content);
      if acc.content != "" && (acc.prefix != c.prefix || c.content == "" || StartsWithNonText(c.content)) then
        GatherFrom(lines, acc) == Gathered(acc, lines)
      else
        var end := if acc.content == "" then lines[0].end else acc.end;
        var content := if acc.content != "" then acc.content + " " + c.content else c.content;
        GatherFrom(lines, acc) == GatherFrom(lines[1..], Paragraph(c.prefix, content, end))
  {
    if acc.content == "" {
      assert acc.content + ParseLine(lines[0].content).content == ParseLine(lines[0].content).content;
    }
  }

  /**
    The lookahead buffer over the reader, shared by the library's formatter
    and the command's parser: the input still to be read (the unread part
    of `input` from `pos` on) and the one line peeked but not yet consumed
    (`curLine`, `curLineend`; both empty when nothing is buffered).
   */
  class Parser {
    const input: string
    var pos: nat
    var curLine: string
    var curLineend: string

    ghost predicate Valid()
      reads this
    {
      pos <= |input|
    }

    /** The buffer holds a peeked line. */
    predicate Buffered()
      reads this
    {
      curLine != "" || curLineend != ""
    }

    /** The lines still to be gathered: the buffered one, then the ones not
        yet read. */
    ghost function Pending(): seq<PhysLine>
      reads this
      requires Valid()
    {
      (if Buffered() then [PhysLine(curLine, curLineend)] else []) + SplitFrom(input, pos)
    }

    constructor (input: string)
      ensures Valid() && this.input == input && pos == 0 && !Buffered()
      ensures Pending() == SplitLines(input)
    {
      this.input := input;
      pos := 0;
      curLine, curLineend := "", "";
    }

    /** peekLine: the buffered line if there is one, otherwise the next
        chunk read, split at its terminator and kept in the buffer. The
        sentinel ("", "") comes back only when no line is left. */
    method PeekLine() returns (line: string, end: string)
      requires Valid()
      modifies this
      ensures Valid() && Pending() == old(Pending())
      ensures old(Buffered()) ==> unchanged(this) && line == curLine && end == curLineend
      ensures !old(Buffered()) ==> pos == ChunkEnd(input, old(pos))
      ensures !old(Buffered()) && old(Pending()) != [] ==>
        line + end == input[old(pos)..pos] && IsTerminator(end)
      ensures (line == "" && end == "") <==> old(Pending()) == []
      ensures old(Pending()) != [] ==>
        Buffered() && line == curLine && end == curLineend && old(Pending())[0] == PhysLine(line, end)
    {
      if curLine != "" || curLineend != "" {
        return curLine, curLineend;
      }
      var next := ChunkEnd(input, pos);
      var chunk := input[pos..next];
      if chunk == "" {
        return "", "";
      }
      ChunkLine(input, pos);
      pos := next;
      var l := Terminated(chunk);
      curLine, curLineend := l.content, l.end;
      return curLine, curLineend;
    }

    /** consumeLine: empties the buffer; the source panics when it is
        already empty. */
    method ConsumeLine()
      requires Valid() && Buffered()
      modifies this
      ensures Valid() && !Buffered() && pos == old(pos)
      ensures Pending() == old(Pending())[1..]
    {
      curLine := "";
      curLineend := "";
    }

    /** gatherLine: the next logical line, as the prefix and content of the
        gathered paragraph run together, and its terminator; the lines it
        merged are consumed and the line that stopped it stays buffered. */
    method GatherLine() returns (line: string, end: string)
      requires Valid()
      modifies this
      ensures Valid()
      ensures var g := Gather(old(Pending()));
        line == g.para.prefix + g.para.content && end == g.para.end && Pending() == g.rest
      ensures (line == "" && end == "") <==> old(Pending()) == []
      ensures old(Pending()) != [] ==> |Pending()| < |old(Pending())|
    {
      ghost var start := Pending();
      assert forall l <- start :: IsLine(l) by {
        SplitFromShape(input, pos);
      }
      GatherSentinelIff(start);
      ghost var g := Gather(start);
      ghost var todo := start;
      var para, paraEnd := "", "";
      var paraPrefix := "";
      while true
        invariant Valid() && Pending() == todo
        invariant GatherFrom(todo, Paragraph(paraPrefix, para, paraEnd)) == g
        decreases |todo|
      {
        var peeked, peekedEnd := PeekLine();
        if peeked == "" && peekedEnd == "" {
          assert g == Gathered(Paragraph(paraPrefix, para, paraEnd), todo);
          break;
        }
        GatherStep(todo, Paragraph(paraPrefix, para, paraEnd));
        if para == "" {
          paraEnd := peekedEnd;
        }
        var c := ParseLine(peeked);
        if para != "" && (paraPrefix != c.prefix || c.content == "" || StartsWithNonText(c.content)) {
          assert g == Gathered(Paragraph(paraPrefix, para, paraEnd), todo);
          break;
        }
        paraPrefix := c.prefix;
        if para != "" {
          para := para + " ";
        }
        para := para + c.content;
        ConsumeLine();
        todo := todo[1..];
      }
      line, end := paraPrefix + para, paraEnd;
    }
  }
}
