/**
  Concrete runs of the reader and the gatherer that pin down their less
  obvious behaviour: an interior blank line does not separate paragraphs,
  a trailing blank line is still a logical line, a list item takes the
  plain text after it but not the other way round, and 'Z' does not count
  as text.
 */
module Scenarios {
  import opened Prefix
  import opened LineSource
  import opened Gathering

  /** Reading "a\n\nb\n" yields three lines, the middle one blank. */
  lemma ReadsThreeLines(input: string)
    requires input == "a\n\nb\n"
    ensures SplitLines(input) == [PhysLine("a", "\n"), PhysLine("", "\n"), PhysLine("b", "\n")]
  {
    assert ChunkEnd(input, 0) == 2;
    assert ChunkEnd(input, 2) == 3;
    assert ChunkEnd(input, 3) == 5;
    assert LineAt(input, 0) == PhysLine("a", "\n") by { assert input[0..2] == "a\n"; }
    assert LineAt(input, 2) == PhysLine("", "\n") by { assert input[2..3] == "\n"; }
    assert LineAt(input, 3) == PhysLine("b", "\n") by { assert input[3..5] == "b\n"; }
    assert SplitFrom(input, 5) == [];
    assert SplitFrom(input, 3) == [PhysLine("b", "\n")];
    assert SplitFrom(input, 2) == [PhysLine("", "\n"), PhysLine("b", "\n")];
    assert SplitLines(input) == SplitFrom(input, 0);
  }

  /** A line that starts with neither a blank nor a comment marker has no
      prefix. */
  lemma ParsePlain(s: string)
    requires s != [] && !IsBlank(s[0]) && s[0] != '/' && s[0] != '#'
    ensures ParseLine(s) == Classified("", s)
  {
    assert SkipBlanks(s, 0) == 0;
    assert MarkerLen(s, 0) == 0;
    assert s[..0] == "" && s[0..] == s;
  }

  /** A started paragraph stops at a blank line, which stays unread. */
  lemma GatherStopsAtBlank()
    ensures Gather([PhysLine("a", "\n"), PhysLine("", "\n"), PhysLine("b", "\n")])
      == Gathered(Paragraph("", "a", "\n"), [PhysLine("", "\n"), PhysLine("b", "\n")])
  {
    var lines := [PhysLine("a", "\n"), PhysLine("", "\n"), PhysLine("b", "\n")];
    ParsePlain("a");
    assert ParseLine("") == Classified("", "");
    assert GatherFrom(lines, NotStarted) == GatherFrom(lines[1..], Paragraph("", "a", "\n"));
  }

  /** The blank line then leaves the paragraph unstarted, and the next line
      is taken as its first line: the blank line disappears from the
      output. */
  lemma GatherAbsorbsBlank()
    ensures Gather([PhysLine("", "\n"), PhysLine("b", "\n")]) == Gathered(Paragraph("", "b", "\n"), [])
  {
    ParsePlain("b");
    assert ParseLine("") == Classified("", "");
    assert GatherFrom([PhysLine("", "\n"), PhysLine("b", "\n")], NotStarted)
      == GatherFrom([PhysLine("b", "\n")], Paragraph("", "", "\n"));
    assert GatherFrom([PhysLine("b", "\n")], Paragraph("", "", "\n")) == GatherFrom([], Paragraph("", "b", "\n"));
  }

  /** A blank line at the end of the input is still a logical line, with
      empty content and its terminator, and not the sentinel. */
  lemma GatherTrailingBlank()
    ensures Gather([PhysLine("", "\n")]) == Gathered(Paragraph("", "", "\n"), [])
    ensures !IsSentinel(Gather([PhysLine("", "\n")]).para)
  {
    assert ParseLine("") == Classified("", "");
    assert GatherFrom([PhysLine("", "\n")], NotStarted) == GatherFrom([], Paragraph("", "", "\n"));
  }

  /** There is no break prefix: a line starting with a lower-case letter
      joins any started paragraph without prefix, such as a dash item, so
      the text after an item is folded into it. */
  lemma PlainTextJoins(l: PhysLine)
    requires l.content != [] && 'a' <= l.content[0] <= 'z'
    ensures Joins("", l)
  {
    ParsePlain(l.content);
  }

  /** A dash, star or numbered item never joins the paragraph before it:
      its first character is not text. */
  lemma ItemNeverJoins(prefix: string, l: PhysLine)
    requires l.content != [] && (l.content[0] == '-' || l.content[0] == '*' || '0' <= l.content[0] <= '9')
    ensures !Joins(prefix, l)
  {
    assert StartsWithNonText(l.content);
    ParsePlain(l.content);
  }

  /** 'Z' counts as non-text, while 'Y' and 'z' do not. */
  lemma UpperZIsNotText()
    ensures StartsWithNonText("Zoo") && !StartsWithNonText("Yak") && !StartsWithNonText("zoo")
  {
  }
}
