/**
  The prefix classifier of xfmt: a physical line splits into a structural
  prefix (blanks, an optional `//` or `#` comment marker, blanks) and the
  content that follows it; plus the byte test that decides whether content
  looks like running text.

  Strings are sequences of characters in which each character stands for
  one byte of the input.
 */
module Prefix {

  /** A character in the cut set " \t" of the trims in parseLine. */
  predicate IsBlank(c: char) {
    c == ' ' || c == '\t'
  }

  /** strings.TrimLeft(s[i:], " \t") as a position: the index of the first
      character at or after `i` that is not a blank. */
  function SkipBlanks(s: string, i: nat): (j: nat)
    requires i <= |s|
    ensures i <= j <= |s|
    ensures forall k | i <= k < j :: IsBlank(s[k])
    ensures j == |s| || !IsBlank(s[j])
    decreases |s| - i
  {
    if i < |s| && IsBlank(s[i]) then SkipBlanks(s, i + 1) else i
  }

  /** SkipBlanks stops at the first non-blank: a blank run from `i` to a
      non-blank (or the end) at `j` is skipped exactly. */
  lemma {:induction false} SkipBlanksTo(s: string, i: nat, j: nat)
    requires i <= j <= |s|
    requires forall k | i <= k < j :: IsBlank(s[k])
    requires j == |s| || !IsBlank(s[j])
    ensures SkipBlanks(s, i) == j
    decreases j - i
  {
    if i < j {
      SkipBlanksTo(s, i + 1, j);
    }
  }

  /** strings.HasPrefix(t, "//") or strings.HasPrefix(t, "#"). */
  predicate StartsWithMarker(t: string) {
    (2 <= |t| && t[0] == '/' && t[1] == '/') || (1 <= |t| && t[0] == '#')
  }

  /** The length of the comment marker at position `i`: `//` is tried
      first, then `#`. */
  function MarkerLen(s: string, i: nat): nat
    requires i <= |s|
  {
    if i + 2 <= |s| && s[i] == '/' && s[i + 1] == '/' then 2
    else if i < |s| && s[i] == '#' then 1
    else 0
  }

  /** The marker lies within the line; it is taken exactly when the rest of
      the line starts with one, and which one is fixed by its first
      character, so `//` is taken whole. */
  lemma MarkerLenMarker(s: string, i: nat)
    requires i <= |s|
    ensures var n := MarkerLen(s, i);
      && n <= 2 && i + n <= |s|
      && (n != 0 <==> StartsWithMarker(s[i..]))
      && (n == 2 ==> s[i] == '/' && s[i + 1] == '/')
      && (n == 1 ==> s[i] == '#')
  {
    assert i < |s| ==> s[i..][0] == s[i];
    assert i + 2 <= |s| ==> s[i..][1] == s[i + 1];
  }

  /** The two strings parseLine returns. */
  datatype Classified = Classified(prefix: string, content: string)

  /** The prefix grammar: the prefix is `lead` blanks, then a marker of
      length `mark` (none, `//` or `#`), then blanks up to its end; the
      content does not start with a blank, and when no marker was taken it
      does not start with one either. */
  predicate Grammar(c: Classified, lead: nat, mark: nat) {
    var p := c.prefix;
    && mark <= 2
    && lead + mark <= |p|
    && (forall k | 0 <= k < lead :: IsBlank(p[k]))
    && (mark == 2 ==> p[lead] == '/' && p[lead + 1] == '/')
    && (mark == 1 ==> p[lead] == '#')
    && (forall k | lead + mark <= k < |p| :: IsBlank(p[k]))
    && (c.content == [] || !IsBlank(c.content[0]))
    && (mark == 0 ==> !StartsWithMarker(c.content))
  }

  /** parseLine: trim blanks, take `//` or `#`, trim blanks again; all that
      was taken is the prefix, the rest is the content. (The source builds
      the prefix by concatenating the pieces it takes, which is the part of
      `s` in front of the content.) */
  function ParseLine(s: string): (c: Classified)
    ensures c.prefix + c.content == s
  {
    var lead := SkipBlanks(s, 0);
    var end := SkipBlanks(s, lead + MarkerLen(s, lead));
    assert s[..end] + s[end..] == s;
    Classified(s[..end], s[end..])
  }

  /** A split of `s` at `end` obeys the grammar when `s` has the blanks,
      marker and blanks the grammar asks for in front of `end`. */
  lemma GrammarAt(s: string, lead: nat, mark: nat, end: nat)
    requires mark <= 2 && lead + mark <= end <= |s|
    requires forall k | 0 <= k < lead :: IsBlank(s[k])
    requires mark == 2 ==> s[lead] == '/' && s[lead + 1] == '/'
    requires mark == 1 ==> s[lead] == '#'
    requires forall k | lead + mark <= k < end :: IsBlank(s[k])
    requires end == |s| || !IsBlank(s[end])
    requires mark == 0 ==> end == lead && !StartsWithMarker(s[end..])
    ensures Grammar(Classified(s[..end], s[end..]), lead, mark)
  {
    var c := Classified(s[..end], s[end..]);
    assert forall k | 0 <= k < end :: c.prefix[k] == s[k];
    assert c.content != [] ==> c.content[0] == s[end];
  }

  /** What parseLine returns obeys the prefix grammar. */
  lemma ParseLineGrammar(s: string)
    ensures exists lead: nat, mark: nat :: Grammar(ParseLine(s), lead, mark)
  {
    var lead := SkipBlanks(s, 0);
    var mark := MarkerLen(s, lead);
    var end := SkipBlanks(s, lead + mark);
    if mark == 0 {
      assert end == lead;
      var r := s[end..];
      assert 1 <= |r| ==> r[0] == s[end];
      assert 2 <= |r| ==> r[1] == s[end + 1];
    }
    GrammarAt(s, lead, mark, end);
    assert ParseLine(s) == Classified(s[..end], s[end..]);
  }

  /** The grammar determines the split: ParseLine returns the only
      classification of `s` that satisfies it. */
  lemma ParseLineUnique(s: string, c: Classified, lead: nat, mark: nat)
    requires c.prefix + c.content == s
    requires Grammar(c, lead, mark)
    ensures ParseLine(s) == c
  {
    var n := |c.prefix|;
    assert forall k | 0 <= k < n :: s[k] == c.prefix[k];
    assert n < |s| ==> s[n] == c.content[0];
    if mark == 0 {
      SkipBlanksTo(s, 0, n);
      assert MarkerLen(s, n) == 0 by {
        if n + 2 <= |s| {
          assert s[n + 1] == c.content[1];
        }
      }
    } else {
      SkipBlanksTo(s, 0, lead);
      assert MarkerLen(s, lead) == mark;
    }
    SkipBlanksTo(s, lead + mark, n);
    assert s[..n] == c.prefix && s[n..] == c.content;
  }

  /** Re-parsing a classified line with non-empty content and more content
      appended (nothing, or a space and more words, as the paragraph
      gatherer appends) keeps the
      same prefix: what the driver relies on when it splits the gathered
      paragraph again. */
  lemma ReparseExtended(p: string, r: string, t: string)
    requires ParseLine(p + r) == Classified(p, r)
    requires r != []
    requires t == [] || t[0] == ' '
    ensures ParseLine(p + (r + t)) == Classified(p, r + t)
  {
    ParseLineGrammar(p + r);
    var lead: nat, mark: nat :| Grammar(Classified(p, r), lead, mark);
    assert (r + t)[0] == r[0];
    assert 2 <= |r + t| ==> (r + t)[1] == if 2 <= |r| then r[1] else t[0];
    assert Grammar(Classified(p, r + t), lead, mark);
    ParseLineUnique(p + (r + t), Classified(p, r + t), lead, mark);
  }

  /** Why ReparseExtended restricts what is appended: content "/" has no
      prefix, but extended to "//x" it starts with a comment marker that
      re-parsing moves into the prefix. */
  lemma ReparseArbitraryExtension(r: string, t: string)
    requires r == "/" && t == "/x"
    ensures ParseLine(r) == Classified("", r)
    ensures ParseLine(r + t) == Classified("//", "x")
  {
    assert SkipBlanks(r, 0) == 0 && MarkerLen(r, 0) == 0;
    assert r[..0] == "" && r[0..] == r;
    var s := r + t;
    assert SkipBlanks(s, 0) == 0 && MarkerLen(s, 0) == 2 && SkipBlanks(s, 2) == 2;
    assert s[..2] == "//" && s[2..] == "x";
  }

  /** The ASCII letters, as a reader would expect them. */
  predicate IsAsciiLetter(c: char) {
    ('A' <= c <= 'Z') || ('a' <= c <= 'z')
  }

  /** startsWithNonText. The upper-case test is written `c < 'Z'` where the
      lower-case test is written `c <= 'z'`, so 'Z' counts as non-text
      while 'z' does not; characters from 0x80 on never count as non-text.
      Callers only reach it with non-empty content. */
  function StartsWithNonText(s: string): (r: bool)
    requires |s| > 0
    ensures r <==> (s[0] < 0x80 as char && !IsAsciiLetter(s[0])) || s[0] == 'Z'
  {
    var c := s[0];
    c < 0x80 as char && !(c >= 'A' && c < 'Z') && !(c >= 'a' && c <= 'z')
  }
}
