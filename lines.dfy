/**
  The line source of xfmt: the buffered reader's ReadString('\n') over the
  input, and the split of each chunk read into the line's content and its
  terminator ("\r\n", "\n", or nothing at the end of the input). Reading
  is modelled by a position into the whole input.
 */
module LineSource {

  /** A physical line: its content and its terminator. */
  datatype PhysLine = PhysLine(content: string, end: string)

  /** A line actually read: never both parts empty, which is what tells it
      apart from the empty buffer. */
  predicate IsLine(l: PhysLine) {
    l.content != [] || l.end != []
  }

  predicate IsTerminator(e: string) {
    e == "\r\n" || e == "\n" || e == ""
  }

  /** strings.HasSuffix(s, "\n") */
  predicate EndsWithLF(s: string) {
    |s| >= 1 && s[|s| - 1] == '\n'
  }

  /** strings.HasSuffix(s, "\r") */
  predicate EndsWithCR(s: string) {
    |s| >= 1 && s[|s| - 1] == '\r'
  }

  /** Where bufio.Reader.ReadString('\n') stops when reading from position
      `i`: just past the first newline at or after `i`, or at the end of the
      input. The chunk it returns is s[i..ChunkEnd(s, i)]. */
  function ChunkEnd(s: string, i: nat): (j: nat)
    requires i <= |s|
    ensures i <= j <= |s|
    ensures i < |s| ==> i < j
    ensures forall k | i <= k < j - 1 :: s[k] != '\n'
    ensures j == |s| || s[j - 1] == '\n'
    decreases |s| - i
  {
    if i == |s| then i
    else if s[i] == '\n' then i + 1
    else ChunkEnd(s, i + 1)
  }

  /** The terminator split of peekLine: a trailing "\r\n" is taken before a
      trailing "\n"; a chunk without a trailing newline has no terminator.
      The terminator is one of the three, and it is empty exactly when the
      chunk has no trailing newline. */
  function Terminated(chunk: string): (l: PhysLine)
    ensures IsTerminator(l.end)
    ensures l.end == "" <==> !EndsWithLF(chunk)
  {
    if EndsWithLF(chunk) && EndsWithCR(chunk[..|chunk| - 1]) then PhysLine(chunk[..|chunk| - 2], "\r\n")
    else if EndsWithLF(chunk) then PhysLine(chunk[..|chunk| - 1], "\n")
    else PhysLine(chunk, "")
  }

  /** The split loses nothing, and a lone "\n" is taken only when no "\r"
      stands before it. */
  lemma TerminatedSplit(chunk: string)
    ensures var l := Terminated(chunk);
      && l.content + l.end == chunk
      && (l.end == "\n" ==> !EndsWithCR(l.content))
  {
    if EndsWithLF(chunk) && EndsWithCR(chunk[..|chunk| - 1]) {
      assert chunk[..|chunk| - 2] + "\r\n" == chunk;
    } else if EndsWithLF(chunk) {
      assert chunk[..|chunk| - 1] + "\n" == chunk;
    } else {
      assert chunk + "" == chunk;
    }
  }

  /** The line split from the chunk read at position `i`. */
  function LineAt(s: string, i: nat): PhysLine
    requires i <= |s|
  {
    Terminated(s[i..ChunkEnd(s, i)])
  }

  /** A line split from a chunk read: it is a real line, its content holds
      no newline, and only a chunk that ends the input lacks a terminator. */
  lemma ChunkLine(s: string, i: nat)
    requires i < |s|
    ensures var l := LineAt(s, i);
      IsLine(l) && IsTerminator(l.end) && '\n' !in l.content && (l.end == "" ==> ChunkEnd(s, i) == |s|)
  {
    var l := LineAt(s, i);
    TerminatedSplit(s[i..ChunkEnd(s, i)]);
    assert forall k | 0 <= k < |l.content| :: l.content[k] == s[i + k];
  }

  /** The physical lines of the input from position `i` on, in order, as
      repeated reads split them. Every read takes at least one character, so
      there are no more lines than characters left. */
  function SplitFrom(s: string, i: nat): (lines: seq<PhysLine>)
    requires i <= |s|
    ensures |lines| <= |s| - i
    decreases |s| - i
  {
    if i == |s| then [] else [LineAt(s, i)] + SplitFrom(s, ChunkEnd(s, i))
  }

  /** The physical lines of the whole input. */
  function SplitLines(s: string): seq<PhysLine> {
    SplitFrom(s, 0)
  }

  /** Every line read is a real line with a terminator and no newline in
      its content, and only the last line of the input can lack the
      terminator. */
  lemma {:induction false} SplitFromShape(s: string, i: nat)
    requires i <= |s|
    ensures var lines := SplitFrom(s, i);
      && (forall l <- lines :: IsLine(l) && IsTerminator(l.end) && '\n' !in l.content)
      && (forall n | 0 <= n < |lines| - 1 :: lines[n].end != "")
    decreases |s| - i
  {
    if i < |s| {
      var j := ChunkEnd(s, i);
      var l := LineAt(s, i);
      var rest := SplitFrom(s, j);
      var lines := [l] + rest;
      ChunkLine(s, i);
      SplitFromShape(s, j);
      assert SplitFrom(s, i) == lines;
      assert rest != [] ==> l.end != "" by {
        if j == |s| {
          assert rest == [];
        }
      }
      forall n | 0 <= n < |lines|
        ensures IsLine(lines[n]) && IsTerminator(lines[n].end) && '\n' !in lines[n].content
      {
        if n > 0 {
          assert lines[n] == rest[n - 1];
        }
      }
      forall n | 0 <= n < |lines| - 1
        ensures lines[n].end != ""
      {
        if n > 0 {
          assert lines[n] == rest[n - 1];
        }
      }
    }
  }

  /** SplitFromShape for the whole input. */
  lemma SplitLinesShape(s: string)
    ensures var lines := SplitLines(s);
      && (forall l <- lines :: IsLine(l) && IsTerminator(l.end) && '\n' !in l.content)
      && (forall n | 0 <= n < |lines| - 1 :: lines[n].end != "")
  {
    SplitFromShape(s, 0);
    assert SplitLines(s) == SplitFrom(s, 0);
  }

  /** The text the lines were read from: each content followed by its
      terminator. */
  function Unsplit(lines: seq<PhysLine>): string {
    if lines == [] then "" else lines[0].content + lines[0].end + Unsplit(lines[1..])
  }

  lemma UnsplitCons(l: PhysLine, lines: seq<PhysLine>)
    ensures Unsplit([l] + lines) == l.content + l.end + Unsplit(lines)
  {
    assert ([l] + lines)[1..] == lines;
  }

  /** The line read at `i` followed by the input after its chunk is the
      input from `i` on. */
  lemma LineAtRest(s: string, i: nat)
    requires i <= |s|
    ensures LineAt(s, i).content + LineAt(s, i).end + s[ChunkEnd(s, i)..] == s[i..]
  {
    var j := ChunkEnd(s, i);
    TerminatedAppend(s[i..j], s[j..]);
    SliceJoin(s, i, j);
  }

  lemma TerminatedAppend(chunk: string, t: string)
    ensures Terminated(chunk).content + Terminated(chunk).end + t == chunk + t
  {
    TerminatedSplit(chunk);
  }

  lemma SliceJoin(s: string, i: nat, j: nat)
    requires i <= j <= |s|
    ensures s[i..j] + s[j..] == s[i..]
  {
  }

  /** Reading from position `i` loses and adds nothing: the lines put back
      together are the rest of the input. */
  lemma {:induction false} SplitFromRoundTrip(s: string, i: nat)
    requires i <= |s|
    ensures Unsplit(SplitFrom(s, i)) == s[i..]
    decreases |s| - i
  {
    if i < |s| {
      var j := ChunkEnd(s, i);
      var l := LineAt(s, i);
      SplitFromRoundTrip(s, j);
      UnsplitCons(l, SplitFrom(s, j));
      LineAtRest(s, i);
    }
  }

  /** Reading loses and adds nothing: the lines put back together are the
      input. */
  lemma SplitLinesRoundTrip(s: string)
    ensures Unsplit(SplitLines(s)) == s
  {
    SplitFromRoundTrip(s, 0);
  }
}
