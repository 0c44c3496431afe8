/**
  The reformatting driver of the xfmt package: logical lines are gathered,
  re-parsed into prefix and content, the content is wrapped, and every
  segment is written as prefix, segment, terminator.
 */
module Xfmt {
  import opened Prefix
  import opened Wrapping
  import opened LineSource
  import opened Gathering

  /** Config: the maximum width of the content of a line, not counting its
      prefix. */
  datatype Config = Config(maxWidth: int)

  /** The text written for one logical line: each segment in order, preceded
      by the prefix and followed by the terminator. */
  function Emit(prefix: string, segs: seq<string>, end: string): string {
    if segs == [] then "" else Emit(prefix, segs[..|segs| - 1], end) + prefix + segs[|segs| - 1] + end
  }

  /** Nothing is written for a logical line exactly when every segment,
      written with its prefix and terminator, is empty. */
  lemma {:induction false} EmitEmptyIff(prefix: string, segs: seq<string>, end: string)
    ensures Emit(prefix, segs, end) == "" <==> forall k | 0 <= k < |segs| :: prefix + segs[k] + end == ""
    decreases |segs|
  {
    if segs != [] {
      var init := segs[..|segs| - 1];
      EmitEmptyIff(prefix, init, end);
      assert forall k | 0 <= k < |init| :: init[k] == segs[k];
    }
  }

  /** The whole output for the given physical lines: one logical line at a
      time until the gatherer returns the sentinel. Lines that are read
      always produce some output when the width is not negative. */
  function FormatLines(lines: seq<PhysLine>, width: int): (out: string)
    ensures width >= 0 && lines != [] && (forall l <- lines :: IsLine(l)) ==> out != ""
    decreases |lines|
  {
    var g := Gather(lines);
    ParagraphWrites(lines, width);
    if IsSentinel(g.para) then ""
    else
      var c := ParseLine(g.para.prefix + g.para.content);
      Emit(c.prefix, Wrap(c.content, width), g.para.end) + FormatLines(g.rest, width)
  }

  /** The output of Format for the given input. For a width that is not
      negative it is empty exactly when the input is; under a negative
      width a blank line wraps to no segment and writes nothing. */
  function FormatText(input: string, width: int): (output: string)
    ensures width >= 0 ==> (output == "" <==> input == "")
  {
    SplitLinesShape(input);
    assert input != "" ==> SplitLines(input) == [LineAt(input, 0)] + SplitFrom(input, ChunkEnd(input, 0));
    FormatLines(SplitLines(input), width)
  }

  /** The first logical line of lines that were read is a real one, and for
      a width that is not negative it writes something: its last segment,
      written with its prefix and terminator, is not empty. */
  lemma ParagraphWrites(lines: seq<PhysLine>, width: int)
    ensures lines != [] && (forall l <- lines :: IsLine(l)) ==>
      var p := Gather(lines).para;
      var c := ParseLine(p.prefix + p.content);
      && !IsSentinel(p)
      && (width >= 0 ==> Emit(c.prefix, Wrap(c.content, width), p.end) != "")
  {
    if lines != [] && (forall l <- lines :: IsLine(l)) {
      var p := Gather(lines).para;
      GatherSentinelIff(lines);
      GatherPrefixStable(lines);
      if width >= 0 {
        ParseLineGrammar(p.prefix + p.content);
        var segs := Wrap(p.content, width);
        WrapNonEmpty(p.content, width);
        var k := |segs| - 1;
        assert p.prefix + segs[k] + p.end != "" by {
          if p.content != "" {
            assert segs[k] in segs;
          }
        }
        EmitEmptyIff(p.prefix, segs, p.end);
      }
    }
  }

  lemma EmitLast(prefix: string, segs: seq<string>, i: nat, end: string)
    requires i < |segs|
    ensures Emit(prefix, segs[..i + 1], end) == Emit(prefix, segs[..i], end) + prefix + segs[i] + end
  {
    assert segs[..i + 1][..i] == segs[..i];
  }

  lemma Regroup(a: string, b: string, c: string)
    ensures a + (b + c) == a + b + c
  {
  }

  /** One round of the driver: when gatherLine returns `line` and `end` and
      leaves `rest`, the text for the lines is the text for that logical
      line followed by the text for `rest`. */
  lemma FormatRound(lines: seq<PhysLine>, width: int, line: string, end: string, rest: seq<PhysLine>)
    requires var g := Gather(lines);
      line == g.para.prefix + g.para.content && end == g.para.end && rest == g.rest
    requires line != "" || end != ""
    ensures var c := ParseLine(line);
      FormatLines(lines, width) == Emit(c.prefix, Wrap(c.content, width), end) + FormatLines(rest, width)
  {
  }

  /** Each logical line is written with the prefix gatherLine found for it
      and with the terminator of its first line with content (or of the
      last line taken when none has content): re-parsing the
      gathered line does not move the boundary between prefix and
      content. */
  lemma FormatParagraph(lines: seq<PhysLine>, width: int)
    requires !IsSentinel(Gather(lines).para)
    ensures var p := Gather(lines).para;
      FormatLines(lines, width) == Emit(p.prefix, Wrap(p.content, width), p.end) + FormatLines(Gather(lines).rest, width)
  {
    GatherPrefixStable(lines);
  }

  /**
    The formatter: the line source it reads through (which holds the
    lookahead buffer), the configuration, and the output written so far.
   */
  class Formatter {
    const src: Parser
    const config: Config
    var out: string

    constructor (input: string, config: Config)
      ensures fresh(src) && src.Valid() && src.input == input && src.Pending() == SplitLines(input)
      ensures this.config == config && out == ""
    {
      src := new Parser(input);
      this.config := config;
      out := "";
    }

    /** write: the text is appended to the output. */
    method Write(s: string)
      modifies this`out
      ensures out == old(out) + s
    {
      out := out + s;
    }

    /** The inner loop of format: each segment is written preceded by the
        prefix and followed by the terminator. */
    method WriteSegments(prefix: string, segs: seq<string>, end: string)
      modifies this`out
      ensures out == old(out) + Emit(prefix, segs, end)
    {
      for i := 0 to |segs|
        invariant out == old(out) + Emit(prefix, segs[..i], end)
      {
        Write(prefix);
        Write(segs[i]);
        Write(end);
        EmitLast(prefix, segs, i, end);
        assert out == old(out) + (Emit(prefix, segs[..i], end) + prefix + segs[i] + end);
      }
      assert segs[..|segs|] == segs;
    }

    /** format: every logical line still to be read is written out. */
    method Format()
      requires src.Valid()
      modifies this`out, src
      ensures src.Valid() && src.Pending() == []
      ensures out == old(out) + FormatLines(old(src.Pending()), config.maxWidth)
    {
      ghost var todo := src.Pending();
      ghost var total := out + FormatLines(todo, config.maxWidth);
      while true
        invariant src.Valid() && src.Pending() == todo
        invariant total == out + FormatLines(todo, config.maxWidth)
        decreases |todo|
      {
        var line, end := src.GatherLine();
        if line == "" && end == "" {
          assert src.Pending() == [];
          break;
        }
        var c := ParseLine(line);
        var segs := SplitLine(c.content, config.maxWidth);
        FormatRound(todo, config.maxWidth, line, end, src.Pending());
        ghost var written := Emit(c.prefix, segs, end);
        todo := src.Pending();
        Regroup(out, written, FormatLines(todo, config.maxWidth));
        WriteSegments(c.prefix, segs, end);
      }
    }
  }

  /** Format: reads the whole input and returns what is written. */
  method Format(input: string, config: Config) returns (output: string)
    ensures output == FormatText(input, config.maxWidth)
  {
    var f := new Formatter(input, config);
    f.Format();
    output := f.out;
  }
}
