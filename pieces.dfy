/** The splitting and cleaning rule of read_pieces_from_file: commas become
    line breaks, the text is split into lines, every line is stripped of
    surrounding white space, and blank lines are dropped. */
module Pieces {

  /** Python's str.isspace, code point by code point. */
  predicate IsSpace(c: char)
  {
    ('\t' <= c <= '\r') || ('\U{1C}' <= c <= ' ') || c == '\U{85}' || c == '\U{A0}'
    || c == '\U{1680}' || ('\U{2000}' <= c <= '\U{200A}') || c == '\U{2028}' || c == '\U{2029}'
    || c == '\U{202F}' || c == '\U{205F}' || c == '\U{3000}'
  }

  /** The line boundaries recognised by Python's str.splitlines. */
  predicate IsLineBreak(c: char)
  {
    c == '\n' || c == '\r' || c == '\U{0B}' || c == '\U{0C}' || c == '\U{1C}' || c == '\U{1D}'
    || c == '\U{1E}' || c == '\U{85}' || c == '\U{2028}' || c == '\U{2029}'
  }

  /** content.replace(',', '\n') */
  function ReplaceCommas(s: string): (r: string)
    ensures |r| == |s|
    ensures forall i :: 0 <= i < |s| ==> r[i] == if s[i] == ',' then '\n' else s[i]
  {
    if s == [] then [] else [if s[0] == ',' then '\n' else s[0]] + ReplaceCommas(s[1..])
  }

  predicate NoLineBreak(s: string)
  {
    forall c :: c in s ==> !IsLineBreak(c)
  }

  /** Whether s starts with "\r\n", which str.splitlines takes as a single
      boundary. */
  predicate StartsWithCrLf(s: string)
  {
    |s| >= 2 && s[0] == '\r' && s[1] == '\n'
  }

  /** The length of the line boundary at the start of s (0 when there is
      none). */
  function BreakLength(s: string): (n: nat)
    ensures n <= |s|
  {
    if StartsWithCrLf(s) then 2 else if s != [] && IsLineBreak(s[0]) then 1 else 0
  }

  /** The text of s cut at every line boundary: one more line than there
      are boundaries, the last one empty when s ends with a boundary. */
  function Lines(s: string): (r: seq<string>)
    ensures |r| >= 1
    decreases |s|
  {
    if s == [] then [[]]
    else if BreakLength(s) > 0 then [[]] + Lines(s[BreakLength(s)..])
    else
      var rest := Lines(s[1..]);
      [[s[0]] + rest[0]] + rest[1..]
  }

  /** No line holds a line boundary. */
  lemma {:induction false} LinesNoBreak(s: string)
    ensures forall i :: 0 <= i < |Lines(s)| ==> NoLineBreak(Lines(s)[i])
    decreases |s|
  {
    if s != [] {
      var n := BreakLength(s);
      if n > 0 {
        LinesNoBreak(s[n..]);
        assert Lines(s) == [[]] + Lines(s[n..]);
      } else {
        LinesNoBreak(s[1..]);
        var rest := Lines(s[1..]);
        assert NoLineBreak(rest[0]);
        assert !IsLineBreak(s[0]);
        forall i | 0 <= i < |Lines(s)| ensures NoLineBreak(Lines(s)[i]) {
          if i > 0 {
            assert Lines(s)[i] == rest[i];
          }
        }
      }
    }
  }

  /** Every character of a line comes from s. */
  lemma {:induction false} LinesFrom(s: string, i: nat, c: char)
    ensures i < |Lines(s)| && c in Lines(s)[i] ==> c in s
    decreases |s|
  {
    if s != [] && i < |Lines(s)| && c in Lines(s)[i] {
      var n := BreakLength(s);
      if n > 0 {
        LinesFrom(s[n..], i - 1, c);
        assert c in s[n..];
        assert s == s[..n] + s[n..];
      } else {
        var rest := Lines(s[1..]);
        if i == 0 {
          if c != s[0] {
            assert c in rest[0];
            LinesFrom(s[1..], 0, c);
          }
        } else {
          LinesFrom(s[1..], i, c);
        }
        assert s == [s[0]] + s[1..];
      }
    }
  }

  /** str.splitlines(): the lines of s without a final empty line, so that
      "" gives no line at all and "a\n" gives just "a". */
  function SplitLines(s: string): (r: seq<string>)
    ensures forall i :: 0 <= i < |r| ==> NoLineBreak(r[i])
    ensures |r| <= |Lines(s)| && forall i :: 0 <= i < |r| ==> r[i] == Lines(s)[i]
    ensures |r| == if Lines(s)[|Lines(s)| - 1] == [] then |Lines(s)| - 1 else |Lines(s)|
  {
    LinesNoBreak(s);
    var lines := Lines(s);
    if lines[|lines| - 1] == [] then lines[..|lines| - 1] else lines
  }

  /** The line boundaries of s, in order. */
  function Breaks(s: string): seq<string>
    decreases |s|
  {
    if s == [] then []
    else if BreakLength(s) > 0 then [s[..BreakLength(s)]] + Breaks(s[BreakLength(s)..])
    else Breaks(s[1..])
  }

  /** Puts the lines back together, with breaks[i] between lines i and i + 1. */
  function Unsplit(lines: seq<string>, breaks: seq<string>): string
    requires |lines| == |breaks| + 1
  {
    if breaks == [] then lines[0]
    else lines[0] + breaks[0] + Unsplit(lines[1..], breaks[1..])
  }

  lemma UnsplitBreakStep(rest: seq<string>, b: string, bs: seq<string>)
    requires |rest| == |bs| + 1
    ensures Unsplit([[]] + rest, [b] + bs) == b + Unsplit(rest, bs)
  {
    assert ([[]] + rest)[1..] == rest;
    assert ([b] + bs)[1..] == bs;
    var t := Unsplit(rest, bs);
    assert Unsplit([[]] + rest, [b] + bs) == ([] + b) + t;
    assert [] + b == b;
  }

  lemma ConcatAssoc(a: string, b: string, c: string, d: string)
    ensures (a + b) + c + d == a + (b + c + d)
  {
  }

  lemma UnsplitCharStep(c: char, rest: seq<string>, bs: seq<string>)
    requires |rest| == |bs| + 1
    ensures Unsplit([[c] + rest[0]] + rest[1..], bs) == [c] + Unsplit(rest, bs)
  {
    var lines := [[c] + rest[0]] + rest[1..];
    if bs != [] {
      assert lines[1..] == rest[1..];
      ConcatAssoc([c], rest[0], bs[0], Unsplit(rest[1..], bs[1..]));
    }
  }

  /** One unfolding of Lines and Breaks at a boundary. */
  lemma LinesAtBreak(s: string)
    requires s != [] && BreakLength(s) > 0
    ensures Lines(s) == [[]] + Lines(s[BreakLength(s)..])
    ensures Breaks(s) == [s[..BreakLength(s)]] + Breaks(s[BreakLength(s)..])
  {
  }

  /** One unfolding of Lines and Breaks at an ordinary character. */
  lemma LinesAtChar(s: string)
    requires s != [] && BreakLength(s) == 0
    ensures Lines(s) == [[s[0]] + Lines(s[1..])[0]] + Lines(s[1..])[1..]
    ensures Breaks(s) == Breaks(s[1..])
  {
  }

  /** The round trip for s, given it for the text after its first
      boundary. */
  lemma RoundTripAtBreak(s: string)
    requires s != [] && BreakLength(s) > 0
    requires |Lines(s[BreakLength(s)..])| == |Breaks(s[BreakLength(s)..])| + 1
    requires Unsplit(Lines(s[BreakLength(s)..]), Breaks(s[BreakLength(s)..])) == s[BreakLength(s)..]
    ensures |Lines(s)| == |Breaks(s)| + 1
    ensures Unsplit(Lines(s), Breaks(s)) == s
  {
    var n := BreakLength(s);
    var rest, bs := Lines(s[n..]), Breaks(s[n..]);
    LinesAtBreak(s);
    UnsplitBreakStep(rest, s[..n], bs);
    assert s == s[..n] + s[n..];
  }

  /** The round trip for s, given it for the text after its first
      character, which is not a boundary. */
  lemma RoundTripAtChar(s: string)
    requires s != [] && BreakLength(s) == 0
    requires |Lines(s[1..])| == |Breaks(s[1..])| + 1
    requires Unsplit(Lines(s[1..]), Breaks(s[1..])) == s[1..]
    ensures |Lines(s)| == |Breaks(s)| + 1
    ensures Unsplit(Lines(s), Breaks(s)) == s
  {
    var rest, bs := Lines(s[1..]), Breaks(s[1..]);
    LinesAtChar(s);
    UnsplitCharStep(s[0], rest, bs);
    assert s == [s[0]] + s[1..];
  }

  /** Cutting at the boundaries loses nothing: the lines and the
      boundaries rebuild s. */
  lemma {:induction false} LinesRoundTrip(s: string)
    ensures |Lines(s)| == |Breaks(s)| + 1
    ensures Unsplit(Lines(s), Breaks(s)) == s
    decreases |s|
  {
    if s != [] {
      var n := BreakLength(s);
      if n > 0 {
        LinesRoundTrip(s[n..]);
        RoundTripAtBreak(s);
      } else {
        LinesRoundTrip(s[1..]);
        RoundTripAtChar(s);
      }
    }
  }

  /** str.splitlines() differs from the cut at every boundary only by the
      final empty line, which it leaves out. */
  lemma SplitLinesDropsFinalEmpty(s: string)
    ensures Lines(s) == SplitLines(s) || Lines(s) == SplitLines(s) + [[]]
    ensures forall i :: 0 <= i < |SplitLines(s)| ==> SplitLines(s)[i] == Lines(s)[i]
    ensures Lines(s)[|Lines(s)| - 1] == [] <==> |SplitLines(s)| == |Lines(s)| - 1
  {
    var lines := Lines(s);
    if lines[|lines| - 1] == [] {
      assert lines == lines[..|lines| - 1] + [[]];
    }
  }

  /** The number of white-space characters at the start of s. */
  function LeadingSpaces(s: string): (n: nat)
    ensures n <= |s|
    ensures forall i :: 0 <= i < n ==> IsSpace(s[i])
    ensures n == |s| || !IsSpace(s[n])
  {
    if s != [] && IsSpace(s[0]) then 1 + LeadingSpaces(s[1..]) else 0
  }

  /** item.lstrip() */
  function StripLeft(s: string): (r: string)
    ensures |r| <= |s| && r == s[|s| - |r|..]
    ensures forall i :: 0 <= i < |s| - |r| ==> IsSpace(s[i])
    ensures r == [] || !IsSpace(r[0])
  {
    s[LeadingSpaces(s)..]
  }

  /** item.rstrip() */
  function StripRight(s: string): (r: string)
    ensures |r| <= |s| && forall i :: 0 <= i < |r| ==> r[i] == s[i]
    ensures forall i :: |r| <= i < |s| ==> IsSpace(s[i])
    ensures r == [] || !IsSpace(r[|r| - 1])
  {
    if s != [] && IsSpace(s[|s| - 1]) then StripRight(s[..|s| - 1]) else s
  }

  /** item.strip(): white space removed from both ends. */
  function Strip(s: string): (r: string)
    ensures exists i :: TrimmedAt(s, r, i)
    ensures forall c :: c in r ==> c in s
    ensures r == [] || (!IsSpace(r[0]) && !IsSpace(r[|r| - 1]))
  {
    var l := StripLeft(s);
    var r := StripRight(l);
    StripTrims(s);
    assert forall c :: c in r ==> c in l;
    assert forall c :: c in l ==> c in s;
    r
  }

  /** r is the slice of s starting at i, and everything of s outside that
      slice is white space. */
  predicate TrimmedAt(s: string, r: string, i: int)
  {
    0 <= i <= |s| - |r| && r == s[i..i + |r|]
    && forall k :: 0 <= k < |s| && (k < i || i + |r| <= k) ==> IsSpace(s[k])
  }

  /** Stripping the left end and then the right end cuts only white space. */
  lemma StripTrims(s: string)
    ensures TrimmedAt(s, StripRight(StripLeft(s)), |s| - |StripLeft(s)|)
  {
    var l := StripLeft(s);
    var r := StripRight(l);
    var i := |s| - |l|;
    assert r == l[..|r|];
    assert l == s[i..];
    forall k | 0 <= k < |s| && (k < i || i + |r| <= k) ensures IsSpace(s[k]) {
      if i + |r| <= k {
        assert s[k] == l[k - i];
      }
    }
  }

  /** What read_pieces_from_file keeps of a piece: non-empty, no white
      space at either end, no comma and no line break inside. */
  predicate IsPiece(p: string)
  {
    p != [] && !IsSpace(p[0]) && !IsSpace(p[|p| - 1])
    && ',' !in p && NoLineBreak(p)
  }

  /** Every item stripped, as the loop over the raw items sees them. */
  function StripAll(items: seq<string>): (r: seq<string>)
    ensures |r| == |items|
    ensures forall i :: 0 <= i < |items| ==> r[i] == Strip(items[i])
  {
    seq(|items|, i requires 0 <= i < |items| => Strip(items[i]))
  }

  /** The non-blank entries of xs, in order. */
  function DropBlanks(xs: seq<string>): seq<string>
  {
    if xs == [] then []
    else
      var last := xs[|xs| - 1];
      DropBlanks(xs[..|xs| - 1]) + if last == [] then [] else [last]
  }

  /** The pieces read from a file whose text is content. */
  function CleanPieces(content: string): seq<string>
  {
    DropBlanks(StripAll(SplitLines(ReplaceCommas(content))))
  }

  /** One more entry is appended unless it is blank. */
  lemma DropBlanksStep(xs: seq<string>, i: nat)
    requires i < |xs|
    ensures DropBlanks(xs[..i + 1]) == DropBlanks(xs[..i]) + if xs[i] == [] then [] else [xs[i]]
  {
    assert xs[..i + 1][..i] == xs[..i];
  }

  /** Only non-blank entries of xs are kept. */
  lemma {:induction false} DropBlanksSound(xs: seq<string>)
    ensures forall p :: p in DropBlanks(xs) ==> p != [] && p in xs
  {
    if xs != [] {
      var n := |xs| - 1;
      DropBlanksSound(xs[..n]);
      DropBlanksStep(xs, n);
      assert xs[..n + 1] == xs;
      assert forall p :: p in xs[..n] ==> p in xs;
    }
  }

  /** Every non-blank entry of xs is kept. */
  lemma {:induction false} DropBlanksKeeps(xs: seq<string>, i: nat)
    requires i < |xs| && xs[i] != []
    ensures xs[i] in DropBlanks(xs)
  {
    var n := |xs| - 1;
    DropBlanksStep(xs, n);
    assert xs[..n + 1] == xs;
    if i < n {
      DropBlanksKeeps(xs[..n], i);
    } else {
      var after := DropBlanks(xs);
      assert after[|after| - 1] == xs[n];
    }
  }

  /** Stripping a line with no comma and no line break that is not blank
      gives a well-formed piece. */
  lemma StripGivesPiece(line: string)
    requires ',' !in line && NoLineBreak(line) && Strip(line) != []
    ensures IsPiece(Strip(line))
  {
  }

  /** Every piece read is well formed. */
  lemma CleanPiecesWellFormed(content: string)
    ensures forall p :: p in CleanPieces(content) ==> IsPiece(p)
  {
    var replaced := ReplaceCommas(content);
    var lines := SplitLines(replaced);
    var stripped := StripAll(lines);
    DropBlanksSound(stripped);
    assert ',' !in replaced;
    forall p | p in CleanPieces(content) ensures IsPiece(p) {
      var i :| 0 <= i < |stripped| && stripped[i] == p;
      LinesFrom(replaced, i, ',');
      assert ',' !in lines[i];
      StripGivesPiece(lines[i]);
    }
  }

  /** No piece is lost: every line (after commas become line breaks) that
      is not blank gives a piece. */
  lemma CleanPiecesComplete(content: string, line: string)
    requires line in SplitLines(ReplaceCommas(content)) && Strip(line) != []
    ensures Strip(line) in CleanPieces(content)
  {
    var lines := SplitLines(ReplaceCommas(content));
    var i :| 0 <= i < |lines| && lines[i] == line;
    DropBlanksKeeps(StripAll(lines), i);
  }

  /** read_pieces_from_file once the file's text has been read: the loop
      strips every raw item and keeps the non-blank ones in order. */
  method ReadPieces(content: string) returns (pieces: seq<string>)
    ensures pieces == CleanPieces(content)
    ensures forall p :: p in pieces ==> IsPiece(p)
  {
    var rawItems := SplitLines(ReplaceCommas(content));
    ghost var stripped := StripAll(rawItems);
    pieces := [];
    var i := 0;
    while i < |rawItems|
      invariant i <= |rawItems|
      invariant pieces == DropBlanks(stripped[..i])
    {
      var cleaned := Strip(rawItems[i]);
      DropBlanksStep(stripped, i);
      if cleaned != [] {
        pieces := pieces + [cleaned];
      }
      i := i + 1;
    }
    assert stripped[..|rawItems|] == stripped;
    assert pieces == CleanPieces(content);
    CleanPiecesWellFormed(content);
  }
}
