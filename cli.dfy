/**
  The xfmt command: it reads standard input, reformats it with the width
  given by its -width flag, and writes the result to standard output. Its
  loop is the library's, over its own parser.
 */
module Cli {
  import opened Prefix
  import opened Wrapping
  import opened Gathering
  import opened Xfmt

  /** The inner loop of main: each segment is written after the output so
      far, preceded by the prefix and followed by the terminator. */
  method WriteSegments(output: string, prefix: string, segs: seq<string>, end: string) returns (written: string)
    ensures written == output + Emit(prefix, segs, end)
  {
    written := output;
    for i := 0 to |segs|
      invariant written == output + Emit(prefix, segs[..i], end)
    {
      written := written + prefix;
      written := written + segs[i];
      written := written + end;
      EmitLast(prefix, segs, i, end);
      assert written == output + (Emit(prefix, segs[..i], end) + prefix + segs[i] + end);
    }
    assert segs[..|segs|] == segs;
  }

  /** main: standard input is the given text and the returned text is what
      is written to standard output. */
  method Run(input: string, width: int) returns (output: string)
    ensures output == FormatText(input, width)
  {
    output := "";
    var p := new Parser(input);
    while true
      invariant p.Valid()
      invariant FormatText(input, width) == output + FormatLines(p.Pending(), width)
      decreases |p.Pending()|
    {
      ghost var pending := p.Pending();
      var line, end := p.GatherLine();
      if line == "" && end == "" {
        break;
      }
      var c := ParseLine(line);
      var segs := SplitLine(c.content, width);
      FormatRound(pending, width, line, end, p.Pending());
      Regroup(output, Emit(c.prefix, segs, end), FormatLines(p.Pending(), width));
      output := WriteSegments(output, c.prefix, segs, end);
    }
  }
}
