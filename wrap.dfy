/**
  The line wrapper of xfmt (splitLine): content longer than the maximum
  width is cut at single spaces and the words are packed greedily into
  segments. The width is a parameter, so the same model serves the
  configured width of the library and the `-width` flag of the command.
 */
module Wrapping {

  /** strings.Split(s, " "): the pieces between single spaces. A string with
      n spaces has n + 1 pieces, and the empty string has one, empty, piece. */
  function Split(s: string): (words: seq<string>)
    ensures |words| >= 1
    ensures forall w <- words :: ' ' !in w
  {
    if s == [] then [""]
    else if s[0] == ' ' then [""] + Split(s[1..])
    else
      var rest := Split(s[1..]);
      [[s[0]] + rest[0]] + rest[1..]
  }

  /** strings.Join(words, " "). */
  function Join(words: seq<string>): string {
    if words == [] then ""
    else if |words| == 1 then words[0]
    else words[0] + " " + Join(words[1..])
  }

  /** Joining the pieces with single spaces gives the string back. */
  lemma {:induction false} JoinSplit(s: string)
    ensures Join(Split(s)) == s
  {
    if s == [] {
    } else if s[0] == ' ' {
      JoinSplit(s[1..]);
      assert Join(Split(s)) == "" + " " + Join(Split(s[1..]));
    } else {
      var rest := Split(s[1..]);
      JoinSplit(s[1..]);
      if |rest| == 1 {
        assert Split(s) == [[s[0]] + rest[0]];
      } else {
        assert Split(s)[1..] == rest[1..];
        assert Join(rest) == rest[0] + " " + Join(rest[1..]);
        assert Join(Split(s)) == ([s[0]] + rest[0]) + " " + Join(rest[1..]);
      }
    }
  }

  /** The first word of `s`: the text before its first space. */
  function FirstWord(s: string): string {
    Split(s)[0]
  }

  /** A word that continues after a space does not change the first word. */
  lemma {:induction false} FirstWordOfLonger(a: string, b: string)
    ensures FirstWord(a + " " + b) == FirstWord(a)
  {
    if a != [] && a[0] != ' ' {
      assert (a + " " + b)[1..] == a[1..] + " " + b;
      FirstWordOfLonger(a[1..], b);
    } else if a != [] {
      assert (a + " " + b)[0] == ' ';
    } else {
      assert (a + " " + b)[0] == ' ';
    }
  }

  /** A string without spaces is its own only word. */
  lemma {:induction false} SplitWord(w: string)
    requires ' ' !in w
    ensures Split(w) == [w]
  {
    if w != [] {
      assert ' ' !in w[1..] by {
        forall i | 0 <= i < |w[1..]| ensures w[1..][i] != ' ' {
          assert w[1..][i] == w[i + 1];
        }
      }
      SplitWord(w[1..]);
      assert [w[0]] + w[1..] == w;
    }
  }

  /** The packing loop of splitLine, from the current `line` on: a word is
      added to the line after one space while that stays within `width`;
      otherwise the line is closed and the word starts the next one. An
      empty line is never closed and never emitted. */
  function PackFrom(words: seq<string>, line: string, width: int): (segs: seq<string>)
    ensures forall seg <- segs :: seg != ""
    ensures line != "" ==> segs != []
  {
    if words == [] then (if line != "" then [line] else [])
    else
      var w := words[0];
      if line != "" && |line| + 1 + |w| > width then [line] + PackFrom(words[1..], w, width)
      else PackFrom(words[1..], if line != "" then line + " " + w else line + w, width)
  }

  /** splitLine as a function of its input and the width: content within
      the width is one segment, unchanged; longer content never yields an
      empty segment. */
  function Wrap(s: string, width: int): (segs: seq<string>)
    ensures |s| <= width ==> segs == [s]
    ensures |s| > width ==> forall seg <- segs :: seg != ""
  {
    if |s| <= width then [s] else PackFrom(Split(s), "", width)
  }

  /** splitLine: content within the width is returned as it is, longer
      content is split into words that are packed greedily. */
  method SplitLine(s: string, maxWidth: int) returns (r: seq<string>)
    ensures |s| <= maxWidth ==> r == [s]
    ensures r == Wrap(s, maxWidth)
  {
    if |s| <= maxWidth {
      return [s];
    }
    var line := "";
    r := [];
    var words := Split(s);
    for i := 0 to |words|
      invariant r + PackFrom(words[i..], line, maxWidth) == PackFrom(words, "", maxWidth)
    {
      var w := words[i];
      assert words[i..][1..] == words[i + 1..];
      if line != "" && |line| + 1 + |w| > maxWidth {
        r := r + [line];
        line := w;
        continue;
      }
      if line != "" {
        line := line + " ";
      }
      line := line + w;
    }
    if line != "" {
      r := r + [line];
    }
  }

  /** Every packed segment fits the width, or is the line it started from,
      or is one of the words. */
  lemma {:induction false} PackBound(words: seq<string>, line: string, width: int)
    ensures forall seg <- PackFrom(words, line, width) :: |seg| <= width || seg == line || seg in words
  {
    if words != [] {
      var w := words[0];
      assert forall x <- words[1..] :: x in words;
      if line != "" && |line| + 1 + |w| > width {
        PackBound(words[1..], w, width);
      } else {
        var next := if line != "" then line + " " + w else line + w;
        assert line == "" ==> next == w;
        PackBound(words[1..], next, width);
      }
    }
  }

  /** Width bound: a segment longer than the width is a single word of the
      input, and so holds no space. */
  lemma WrapWidth(s: string, width: int)
    ensures forall seg <- Wrap(s, width) :: |seg| <= width || (seg in Split(s) && ' ' !in seg)
  {
    if |s| > width {
      PackBound(Split(s), "", width);
    }
  }

  /** The first packed segment starts with the first word of the line the
      packing started from. */
  lemma {:induction false} PackHead(words: seq<string>, line: string, width: int)
    requires line != ""
    ensures PackFrom(words, line, width) != []
    ensures FirstWord(PackFrom(words, line, width)[0]) == FirstWord(line)
  {
    if words != [] {
      var w := words[0];
      if |line| + 1 + |w| <= width {
        PackHead(words[1..], line + " " + w, width);
        FirstWordOfLonger(line, w);
      }
    }
  }

  /** No segment could have taken the first word of the next segment after
      one space within the width. */
  predicate Greedy(segs: seq<string>, width: int) {
    forall i | 0 <= i < |segs| - 1 :: |segs[i]| + 1 + |FirstWord(segs[i + 1])| > width
  }

  /** Greedy packing: each segment was closed only because the first word of
      the next segment did not fit after it with one space. */
  lemma {:induction false} PackGreedy(words: seq<string>, line: string, width: int)
    requires forall w <- words :: ' ' !in w
    ensures Greedy(PackFrom(words, line, width), width)
  {
    if words != [] {
      var w := words[0];
      assert forall x <- words[1..] :: x in words;
      if line != "" && |line| + 1 + |w| > width {
        var tail := PackFrom(words[1..], w, width);
        PackGreedy(words[1..], w, width);
        if w != "" {
          PackHead(words[1..], w, width);
          SplitWord(w);
        }
        var segs := PackFrom(words, line, width);
        assert segs == [line] + tail;
        forall i | 0 <= i < |segs| - 1
          ensures |segs[i]| + 1 + |FirstWord(segs[i + 1])| > width
        {
          if i > 0 {
            assert segs[i] == tail[i - 1] && segs[i + 1] == tail[i];
          } else {
            assert segs[1] == tail[0];
          }
        }
      } else {
        var next := if line != "" then line + " " + w else line + w;
        assert PackFrom(words, line, width) == PackFrom(words[1..], next, width);
        PackGreedy(words[1..], next, width);
      }
    }
  }

  /** Greedy wrapping: no segment could have taken the next segment's first
      word within the width. */
  lemma WrapGreedy(s: string, width: int)
    ensures Greedy(Wrap(s, width), width)
  {
    if |s| > width {
      assert Wrap(s, width) == PackFrom(Split(s), "", width);
      PackGreedy(Split(s), "", width);
    }
  }

  /** Content without leading, trailing or doubled spaces. */
  predicate WellSpaced(s: string) {
    && s != []
    && s[0] != ' '
    && s[|s| - 1] != ' '
    && forall i | 0 <= i < |s| - 1 :: !(s[i] == ' ' && s[i + 1] == ' ')
  }

  /** Well-spaced content has no empty word. */
  lemma {:induction false} WellSpacedWords(s: string)
    requires WellSpaced(s)
    ensures forall w <- Split(s) :: w != ""
  {
    var rest := Split(s[1..]);
    if |s| == 1 {
      assert rest == [""];
    } else if s[1] == ' ' {
      assert WellSpaced(s[2..]) by {
        assert forall i | 0 <= i < |s[2..]| :: s[2..][i] == s[i + 2];
      }
      WellSpacedWords(s[2..]);
      assert rest == [""] + Split(s[2..]);
    } else {
      assert WellSpaced(s[1..]) by {
        assert forall i | 0 <= i < |s[1..]| :: s[1..][i] == s[i + 1];
      }
      WellSpacedWords(s[1..]);
    }
    assert Split(s) == [[s[0]] + rest[0]] + rest[1..];
    assert forall x <- rest[1..] :: x in rest;
  }

  /** Joining a line in front of more words. */
  lemma JoinCons(w: string, ws: seq<string>)
    requires ws != []
    ensures Join([w] + ws) == w + " " + Join(ws)
  {
    assert ([w] + ws)[1..] == ws;
  }

  /** Joining is unchanged when a word is glued to the line before it with
      the same single space. */
  lemma JoinGlue(line: string, w: string, rest: seq<string>)
    ensures Join([line + " " + w] + rest) == Join([line] + ([w] + rest))
  {
    JoinCons(line, [w] + rest);
    if rest != [] {
      JoinCons(line + " " + w, rest);
      JoinCons(w, rest);
    } else {
      assert [line + " " + w] + rest == [line + " " + w];
      assert [w] + rest == [w];
    }
  }

  /** With no empty word, packing loses and reorders nothing: joining the
      segments with single spaces gives the line followed by the words. */
  lemma {:induction false} PackJoin(words: seq<string>, line: string, width: int)
    requires forall w <- words :: w != ""
    ensures Join(PackFrom(words, line, width)) == Join((if line == "" then [] else [line]) + words)
  {
    if words == [] {
      assert (if line == "" then [] else [line]) + words == (if line == "" then [] else [line]);
    } else {
      var w := words[0];
      var rest := words[1..];
      assert forall x <- rest :: x in words;
      assert words == [w] + rest;
      assert w in words;
      if line != "" && |line| + 1 + |w| > width {
        PackJoin(rest, w, width);
        assert Join(PackFrom(words, line, width)) == Join([line] + words) by {
          JoinCons(line, PackFrom(rest, w, width));
          JoinCons(line, words);
        }
      } else if line != "" {
        PackJoin(rest, line + " " + w, width);
        JoinGlue(line, w, rest);
      } else {
        PackJoin(rest, w, width);
        assert line + w == w;
        assert [] + words == [w] + rest;
      }
    }
  }

  /** Word preservation: for well-spaced content, no segment is empty and
      joining the segments with single spaces gives the content back. */
  lemma WrapJoin(s: string, width: int)
    requires WellSpaced(s)
    ensures forall seg <- Wrap(s, width) :: seg != ""
    ensures Join(Wrap(s, width)) == s
  {
    if |s| > width {
      WellSpacedWords(s);
      PackJoin(Split(s), "", width);
      assert [] + Split(s) == Split(s);
      JoinSplit(s);
    }
  }

  /** Wrapping content that does not start with a space yields at least one
      segment, and only non-empty ones. Empty content yields the single
      empty segment when the width is not negative, and no segment at all
      under a negative width; content that starts with spaces can be lost
      the same way. */
  lemma WrapNonEmpty(s: string, width: int)
    requires if s == [] then width >= 0 else s[0] != ' '
    ensures Wrap(s, width) != []
    ensures s != [] ==> forall seg <- Wrap(s, width) :: seg != ""
  {
    if |s| > width {
      var words := Split(s);
      assert words[0] != "" by {
        assert words[0] == [s[0]] + Split(s[1..])[0];
      }
      assert "" + words[0] == words[0];
      assert PackFrom(words, "", width) == PackFrom(words[1..], words[0], width);
    }
  }
}
