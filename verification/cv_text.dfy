/** The text handling of the PDF renderer that decides what is drawn: bullet lists from
    newline-separated text, cover-letter paragraphs, and the header's subtitle and contact
    line. Coordinates, fonts and the rest of the drawing are outside the model. */
module CvText {
  import opened Outcomes
  import opened Text
  import opened Profile
  import opened OutputParse

  // ---------------------------------------------------------------------------------
  // Bullets
  // ---------------------------------------------------------------------------------

  predicate IsMarker(c: char) {
    c == '-' || c == '•'
  }

  /** Removing the match of `^[-•]\s*`: a marker that is the line's first character goes,
      with the whitespace right after it; nothing else changes. */
  function StripMarker(line: string): (r: string)
    ensures |r| <= |line| && r == line[|line| - |r|..]
    ensures !(|line| > 0 && IsMarker(line[0])) ==> r == line
    ensures |line| > 0 && IsMarker(line[0]) ==>
      |r| < |line| && AllSpace(line[1..|line| - |r|]) && (r == [] || !IsSpace(r[0]))
  {
    if |line| > 0 && IsMarker(line[0]) then
      var t := line[1..];
      assert line[1..|line| - |TrimStart(t)|] == t[..|t| - |TrimStart(t)|];
      TrimStart(t)
    else line
  }

  /** One line as a bullet: the marker stripped, then trimmed. */
  function CleanLine(line: string): (r: string)
    ensures r == [] || Tidy(r)
  {
    TrimTidy(StripMarker(line));
    Trim(StripMarker(line))
  }

  lemma TrimTidy(s: string)
    ensures Trim(s) == [] || Tidy(Trim(s))
  {
  }

  /** Non-empty, with no whitespace at either end. */
  predicate Tidy(x: string) {
    |x| > 0 && !IsSpace(x[0]) && !IsSpace(x[|x| - 1])
  }

  /** The cleaned lines that are not empty, in line order. */
  function BulletLines(lines: seq<string>): (r: seq<string>)
    ensures |r| <= |lines|
  {
    if |lines| == 0 then []
    else
      var c := CleanLine(lines[0]);
      (if |c| > 0 then [c] else []) + BulletLines(lines[1..])
  }

  /** Every bullet is non-empty and has no whitespace at either end. */
  lemma {:induction false} BulletsTidy(lines: seq<string>)
    ensures forall x :: x in BulletLines(lines) ==> Tidy(x)
  {
    if |lines| > 0 {
      BulletsTidy(lines[1..]);
    }
  }

  /** `parseBullets(text)`. */
  function ParseBullets(text: string): (r: seq<string>)
    ensures !Truthy(text) ==> r == []
    ensures forall x :: x in r ==> Tidy(x)
  {
    if !Truthy(text) then []
    else
      BulletsTidy(Split(text, '\n'));
      BulletLines(Split(text, '\n'))
  }

  /** Bullets are taken line by line: the bullets of consecutive lines are the bullets of
      the first lines followed by those of the rest. With the one-line case below, this
      fixes the result completely, order included. */
  lemma {:induction false} BulletLinesAppend(xs: seq<string>, ys: seq<string>)
    ensures BulletLines(xs + ys) == BulletLines(xs) + BulletLines(ys)
  {
    if xs == [] {
      assert xs + ys == ys;
    } else {
      assert (xs + ys)[1..] == xs[1..] + ys;
      BulletLinesAppend(xs[1..], ys);
      var c := CleanLine(xs[0]);
      AppendAssoc(if Truthy(c) then [c] else [], BulletLines(xs[1..]), BulletLines(ys));
    }
  }

  /** One line gives its cleaned text, or nothing when only a marker and whitespace are
      left. */
  lemma BulletLine(line: string)
    ensures BulletLines([line]) == if Truthy(CleanLine(line)) then [CleanLine(line)] else []
  {
    assert [line][1..] == [];
  }

  /** Splitting at a first newline gives the first line, then the rest's lines. */
  lemma SplitFirstLine(first: string, rest: string)
    requires '\n' !in first
    ensures Split(first + "\n" + rest, '\n') == [first] + Split(rest, '\n')
  {
    assert first + "\n" + rest == first + ("\n" + rest);
    SplitPrefix(first, "\n" + rest, '\n');
    assert ("\n" + rest)[1..] == rest;
    assert Split("\n" + rest, '\n') == [[]] + Split(rest, '\n');
    assert first + [] == first;
  }

  /** Every text, the empty one included, yields the bullets of its lines. */
  lemma ParseBulletsOfLines(text: string)
    ensures ParseBullets(text) == BulletLines(Split(text, '\n'))
  {
    if text == "" {
      assert Split(text, '\n') == [""];
      BulletLine("");
      assert CleanLine("") == [];
    }
  }

  /** A line with no newline is its own only line. */
  lemma OneLine(line: string)
    requires '\n' !in line
    ensures Split(line, '\n') == [line]
  {
    SplitPrefix(line, [], '\n');
    assert line + [] == line;
  }

  /** Splitting on the first newline: the bullets of a text are those of its first line
      followed by those of the rest. The early return for `''` agrees with the general
      case, since the one line `''` yields nothing. */
  lemma ParseBulletsFirstLine(first: string, rest: string)
    requires '\n' !in first
    ensures ParseBullets(first + "\n" + rest) == ParseBullets(first) + ParseBullets(rest)
    ensures ParseBullets("") == []
  {
    SplitFirstLine(first, rest);
    ParseBulletsOfLines(first + "\n" + rest);
    ParseBulletsOfLines(first);
    ParseBulletsOfLines(rest);
    ParseBulletsOfLines("");
    OneLine(first);
    BulletLinesAppend([first], Split(rest, '\n'));
  }

  /** Only one marker, and only in first position, is stripped: a line made of a marker
      and tidy text gives that text even when the text itself starts with a marker, as
      `--x` gives `-x`. */
  lemma OnlyFirstMarker(m: char, rest: string)
    requires IsMarker(m) && Tidy(rest) && '\n' !in rest
    ensures ParseBullets([m] + rest) == [rest]
  {
    var line := [m] + rest;
    assert '\n' !in line;
    OneLine(line);
    assert line[1..] == rest;
    assert StripMarker(line) == rest;
    TrimOfTrimmed(rest);
    BulletLine(line);
  }

  /** A marker after indentation is not stripped: the line is only trimmed, as `  - x`
      gives `- x`. */
  lemma IndentedMarker(indent: string, rest: string)
    requires |indent| > 0 && AllSpace(indent) && Tidy(rest) && '\n' !in indent && '\n' !in rest
    ensures ParseBullets(indent + rest) == [rest]
  {
    var line := indent + rest;
    assert line[0] == indent[0];
    assert '\n' !in line;
    OneLine(line);
    assert StripMarker(line) == line;
    TrimStartAfterSpaces(indent, rest);
    assert Trim(line) == TrimEnd(rest) == rest;
    BulletLine(line);
  }

  // ---------------------------------------------------------------------------------
  // Cover-letter paragraphs
  // ---------------------------------------------------------------------------------

  /** A blank line from `i` to `j`: two newlines with nothing but whitespace between. */
  predicate BlankLine(s: string, i: int, j: int) {
    0 <= i < j < |s| && s[i] == '\n' && s[j] == '\n' && AllSpace(s[i + 1..j])
  }

  ghost predicate NoBlankLine(s: string) {
    forall i, j :: !BlankLine(s, i, j)
  }

  /** No blank line starts in `[start, p)`. */
  ghost predicate NoMatchBetween(s: string, start: nat, p: nat) {
    forall q, j :: start <= q < p && BlankLine(s, q, j) ==> false
  }

  /** The whitespace run after the newline at `p`. */
  function Run(s: string, p: nat): string
    requires p < |s|
  {
    s[p + 1..p + 1 + LeadingSpaces(s[p + 1..])]
  }

  /** Any blank line from `p` ends inside the whitespace run after `p`. */
  lemma BlankLineInRun(s: string, p: nat, j: nat)
    requires BlankLine(s, p, j)
    ensures j - p - 1 < |Run(s, p)| && Run(s, p)[j - p - 1] == '\n'
  {
    var u := s[p + 1..];
    assert AllSpace(u[..j - p]) by {
      forall k | 0 <= k < j - p ensures IsSpace(u[k]) {
        if k < j - p - 1 {
          assert u[k] == s[p + 1..j][k];
        } else {
          assert u[k] == s[j];
        }
      }
    }
    LeadingSpacesAtLeast(u, j - p);
  }

  /** A blank line from `p` ends at or before the run's last newline. */
  lemma BlankLineWithinRun(s: string, p: nat, j: nat)
    requires BlankLine(s, p, j)
    ensures LastIndex(Run(s, p), '\n').Some? && j - p - 1 <= LastIndex(Run(s, p), '\n').value
  {
    BlankLineInRun(s, p, j);
    var run := Run(s, p);
    assert run[j - p - 1] in run;
  }

  /** Every blank line from `p` ends at or before the run's last newline. */
  lemma BlankLinesWithinRun(s: string, p: nat)
    requires p < |s|
    ensures var last := LastIndex(Run(s, p), '\n');
      forall j :: p < j < |s| && BlankLine(s, p, j) ==> last.Some? && j - p - 1 <= last.value
  {
    forall j | p < j < |s| && BlankLine(s, p, j)
      ensures LastIndex(Run(s, p), '\n').Some? && j - p - 1 <= LastIndex(Run(s, p), '\n').value
    {
      BlankLineWithinRun(s, p, j);
    }
  }

  /** The run's last newline closes a blank line opened by the newline at `p`. */
  lemma RunClosesBlankLine(s: string, p: nat, k: nat)
    requires p < |s| && s[p] == '\n' && k < |Run(s, p)| && Run(s, p)[k] == '\n'
    ensures BlankLine(s, p, p + 1 + k)
  {
    var u := s[p + 1..];
    assert AllSpace(s[p + 1..p + 1 + k]) by {
      forall i | p + 1 <= i < p + 1 + k ensures IsSpace(s[i]) {
        assert s[i] == u[..LeadingSpaces(u)][i - p - 1];
      }
    }
    assert s[p + 1 + k] == Run(s, p)[k];
  }

  /** Where a match of `\n\s*\n` tried at `p` ends (exclusive): a match needs a newline at
      `p` and ends after the last newline of the whitespace run that follows. */
  function MatchEnd(s: string, p: nat): (r: Option<nat>)
    requires p < |s|
    ensures r.None? <==> forall j :: p < j < |s| ==> !BlankLine(s, p, j)
    ensures r.Some? ==> p + 2 <= r.value <= |s| && BlankLine(s, p, r.value - 1)
    ensures r.Some? ==> forall j :: r.value <= j < |s| ==> !BlankLine(s, p, j)
  {
    var last := LastIndex(Run(s, p), '\n');
    BlankLinesWithinRun(s, p);
    if s[p] != '\n' then None
    else
      match last
      case None => None
      case Some(k) =>
        RunClosesBlankLine(s, p, k);
        Some(p + 1 + k + 1)
  }

  /** With a newline at `p`, the match ends right after the run's last newline. */
  lemma MatchEndAt(s: string, p: nat, k: nat)
    requires p < |s| && s[p] == '\n' && LastIndex(Run(s, p), '\n') == Some(k)
    ensures MatchEnd(s, p) == Some(p + k + 2)
  {
  }

  /** The pieces of splitting on `\n\s*\n`, scanning from `p` for the next match, with the
      current piece starting at `start`. Each position is tried in turn; after a match the
      scan resumes where the match ended. */
  function Pieces(s: string, start: nat, p: nat): (r: seq<string>)
    requires start <= p <= |s| && NoMatchBetween(s, start, p)
    ensures |r| >= 1
    ensures forall k :: 0 <= k < |r| ==> NoBlankLine(r[k])
    ensures NoMatchBetween(s, start, |s|) ==> r == [s[start..]]
    decreases |s| - p
  {
    if p == |s| then
      PieceClean(s, start, p);
      assert s[start..p] == s[start..];
      [s[start..]]
    else
      match MatchEnd(s, p)
      case None =>
        NoMatchExtend(s, start, p);
        Pieces(s, start, p + 1)
      case Some(e) =>
        PieceClean(s, start, p);
        [s[start..p]] + Pieces(s, e, e)
  }

  /** A position where no match starts extends a match-free range. */
  lemma NoMatchExtend(s: string, start: nat, p: nat)
    requires start <= p < |s| && NoMatchBetween(s, start, p) && MatchEnd(s, p).None?
    ensures NoMatchBetween(s, start, p + 1)
  {
  }

  /** A blank line inside a slice is a blank line of the whole string. */
  lemma BlankLineShift(s: string, start: nat, p: nat, i: nat, j: nat)
    requires start <= p <= |s| && BlankLine(s[start..p], i, j)
    ensures BlankLine(s, start + i, start + j)
  {
    var t := s[start..p];
    forall m | start + i + 1 <= m < start + j ensures IsSpace(s[m]) {
      assert s[m] == t[i + 1..j][m - start - i - 1];
    }
  }

  /** A piece in which no match starts holds no blank line. */
  lemma PieceClean(s: string, start: nat, p: nat)
    requires start <= p <= |s| && NoMatchBetween(s, start, p)
    ensures NoBlankLine(s[start..p])
  {
    forall i: nat, j: nat | BlankLine(s[start..p], i, j) ensures BlankLine(s, start + i, start + j) {
      BlankLineShift(s, start, p, i, j);
    }
  }

  /** A piece with no match starting in it up to and including the position `p` of the
      next match's first newline holds no blank line, even counting that newline. */
  lemma PieceCleanNext(s: string, start: nat, p: nat)
    requires start <= p < |s| && NoMatchBetween(s, start, p)
    ensures NoBlankLine(s[start..p + 1])
  {
    var t := s[start..p + 1];
    forall i: nat, j: nat | BlankLine(t, i, j) ensures BlankLine(s, start + i, start + j) {
      BlankLineShift(s, start, p + 1, i, j);
    }
  }

  /** A match of `\n\s*\n`: a newline, whitespace, and a newline. */
  predicate IsGap(g: string) {
    |g| >= 2 && g[0] == '\n' && g[|g| - 1] == '\n' && AllSpace(g)
  }

  /** The text a match found at `p` covers is a gap. */
  lemma MatchIsGap(s: string, p: nat, e: nat)
    requires p < |s| && MatchEnd(s, p) == Some(e)
    ensures IsGap(s[p..e])
  {
    MatchSpaces(s, p, e);
    var g := s[p..e];
    forall i | 0 <= i < |g| ensures IsSpace(g[i]) {
      if i > 0 {
        assert g[i] == s[p + 1..e][i - 1];
      }
    }
  }

  /** The gaps the split cuts out, in order: the text between one piece and the next. */
  function Gaps(s: string, start: nat, p: nat): (r: seq<string>)
    requires start <= p <= |s| && NoMatchBetween(s, start, p)
    ensures forall k :: 0 <= k < |r| ==> IsGap(r[k])
    decreases |s| - p
  {
    if p == |s| then []
    else
      match MatchEnd(s, p)
      case None =>
        NoMatchExtend(s, start, p);
        Gaps(s, start, p + 1)
      case Some(e) =>
        MatchIsGap(s, p, e);
        [s[p..e]] + Gaps(s, e, e)
  }

  /** The pieces with the gaps put back between them. */
  function Interleave(ps: seq<string>, gs: seq<string>): string
    requires |ps| >= 1 && |gs| == |ps| - 1
    decreases |gs|
  {
    if |gs| == 0 then ps[0] else ps[0] + gs[0] + Interleave(ps[1..], gs[1..])
  }

  /** At the end of the text the rest is the last piece. */
  lemma PiecesEnd(s: string, start: nat)
    requires start <= |s| && NoMatchBetween(s, start, |s|)
    ensures Pieces(s, start, |s|) == [s[start..]] && Gaps(s, start, |s|) == []
  {
  }

  /** A position where no match starts is passed over by both the pieces and the gaps. */
  lemma PiecesPass(s: string, start: nat, p: nat)
    requires start <= p < |s| && NoMatchBetween(s, start, p) && MatchEnd(s, p).None?
    ensures NoMatchBetween(s, start, p + 1)
    ensures Pieces(s, start, p) == Pieces(s, start, p + 1) && Gaps(s, start, p) == Gaps(s, start, p + 1)
  {
    NoMatchExtend(s, start, p);
  }

  /** A match at `p` ends the current piece and is the next gap; the scan resumes after it. */
  lemma PiecesAt(s: string, start: nat, p: nat, e: nat)
    requires start <= p < |s| && NoMatchBetween(s, start, p) && MatchEnd(s, p) == Some(e)
    ensures e <= |s|
    ensures Pieces(s, start, p) == [s[start..p]] + Pieces(s, e, e)
    ensures Gaps(s, start, p) == [s[p..e]] + Gaps(s, e, e)
  {
  }

  /** One step of putting the pieces back together. */
  lemma InterleaveCons(a: string, g: string, ps: seq<string>, gs: seq<string>)
    requires |ps| >= 1 && |gs| == |ps| - 1
    ensures Interleave([a] + ps, [g] + gs) == a + g + Interleave(ps, gs)
  {
    assert ([a] + ps)[1..] == ps && ([g] + gs)[1..] == gs;
  }

  /** A suffix cut at two points. */
  lemma SliceThree(s: string, start: nat, p: nat, e: nat)
    requires start <= p <= e <= |s|
    ensures s[start..] == s[start..p] + s[p..e] + s[e..]
  {
  }

  /** There is one gap fewer than there are pieces. */
  lemma {:induction false} GapsCount(s: string, start: nat, p: nat)
    requires start <= p <= |s| && NoMatchBetween(s, start, p)
    ensures |Gaps(s, start, p)| == |Pieces(s, start, p)| - 1
    decreases |s| - p
  {
    if p == |s| {
      PiecesEnd(s, start);
    } else if MatchEnd(s, p).None? {
      PiecesPass(s, start, p);
      GapsCount(s, start, p + 1);
    } else {
      var e := MatchEnd(s, p).value;
      PiecesAt(s, start, p, e);
      GapsCount(s, e, e);
    }
  }

  /** Putting the gaps back between the pieces gives back the text they were cut from. */
  lemma {:induction false} Reassemble(s: string, start: nat, p: nat)
    requires start <= p <= |s| && NoMatchBetween(s, start, p)
    ensures |Gaps(s, start, p)| == |Pieces(s, start, p)| - 1
    ensures Interleave(Pieces(s, start, p), Gaps(s, start, p)) == s[start..]
    decreases |s| - p
  {
    GapsCount(s, start, p);
    if p == |s| {
      PiecesEnd(s, start);
    } else if MatchEnd(s, p).None? {
      PiecesPass(s, start, p);
      Reassemble(s, start, p + 1);
    } else {
      var e := MatchEnd(s, p).value;
      PiecesAt(s, start, p, e);
      Reassemble(s, e, e);
      InterleaveCons(s[start..p], s[p..e], Pieces(s, e, e), Gaps(s, e, e));
      SliceThree(s, start, p, e);
    }
  }

  /** No prefix of `t` is whitespace ending in a newline. */
  predicate NoLeadingBlank(t: string) {
    forall m :: 0 <= m < |t| && t[m] == '\n' ==> !AllSpace(t[..m])
  }

  /** Two adjacent whitespace slices make one. */
  lemma SpaceSplice(s: string, a: nat, b: nat, c: nat)
    requires a <= b <= c <= |s|
    ensures AllSpace(s[a..b]) && AllSpace(s[b..c]) ==> AllSpace(s[a..c])
  {
    if AllSpace(s[a..b]) && AllSpace(s[b..c]) {
      forall i | a <= i < c ensures IsSpace(s[i]) {
        if i < b {
          assert s[i] == s[a..b][i - a];
        } else {
          assert s[i] == s[b..c][i - b];
        }
      }
    }
  }

  /** Everything a match covers after its first newline is whitespace. */
  lemma MatchSpaces(s: string, p: nat, e: nat)
    requires p < |s| && MatchEnd(s, p) == Some(e)
    ensures AllSpace(s[p + 1..e])
  {
    forall i | p + 1 <= i < e ensures IsSpace(s[i]) {
      if i < e - 1 {
        assert s[i] == s[p + 1..e - 1][i - p - 1];
      }
    }
  }

  /** A newline after a match is not reached by whitespace alone: otherwise the match
      at `p` could have run on to it. */
  lemma GreedyAt(s: string, p: nat, e: nat, m: nat)
    requires p < e <= e + m < |s| && s[p] == '\n' && s[e + m] == '\n'
    requires AllSpace(s[p + 1..e]) && !BlankLine(s, p, e + m)
    ensures !AllSpace(s[e..e + m])
  {
    SpaceSplice(s, p + 1, e, e + m);
  }

  /** A match takes the whole whitespace run: what follows it does not start with
      whitespace ending in a newline. */
  lemma MatchGreedy(s: string, p: nat, e: nat)
    requires p < |s| && MatchEnd(s, p) == Some(e)
    ensures NoLeadingBlank(s[e..])
  {
    var t := s[e..];
    MatchSpaces(s, p, e);
    assert s[p] == '\n' by {
      assert BlankLine(s, p, e - 1);
    }
    forall m | 0 <= m < |t| && t[m] == '\n' ensures !AllSpace(t[..m]) {
      assert s[e + m] == '\n' && !BlankLine(s, p, e + m);
      GreedyAt(s, p, e, m);
      assert s[e..e + m] == t[..m];
    }
  }

  /** A prefix keeps `NoLeadingBlank`. */
  lemma NoLeadingBlankPrefix(t: string, n: nat)
    requires n <= |t| && NoLeadingBlank(t)
    ensures NoLeadingBlank(t[..n])
  {
    forall m | 0 <= m < n && t[..n][m] == '\n' ensures !AllSpace(t[..n][..m]) {
      assert t[m] == '\n';
      assert t[..n][..m] == t[..m];
    }
  }

  /** Where the split cuts, for pieces `ps` of the text from `start`: the first piece
      starts the text; no match starts inside a piece or at the newline that opens the
      gap after it (so each match taken is the leftmost); and every piece after a gap
      starts with no whitespace ending in a newline (so the gap before it was taken
      whole), so that no piece between two gaps is whitespace only. */
  ghost predicate CutOk(s: string, start: nat, ps: seq<string>) {
    && |ps| >= 1 && start <= |s| && |ps[0]| <= |s| - start && ps[0] == s[start..start + |ps[0]|]
    && (|ps| >= 2 ==> start + |ps[0]| < |s| && s[start + |ps[0]|] == '\n')
    && (forall k :: 0 <= k < |ps| - 1 ==> NoBlankLine(ps[k] + "\n"))
    && (forall k :: 0 < k < |ps| ==> NoLeadingBlank(ps[k]))
    && (forall k :: 0 < k < |ps| - 1 ==> !AllSpace(ps[k]))
  }

  /** The split cuts where `CutOk` says. */
  lemma {:induction false} PiecesCut(s: string, start: nat, p: nat)
    requires start <= p <= |s| && NoMatchBetween(s, start, p)
    ensures CutOk(s, start, Pieces(s, start, p))
    decreases |s| - p
  {
    if p == |s| {
      PiecesEnd(s, start);
      CutEnd(s, start);
    } else if MatchEnd(s, p).None? {
      PiecesPass(s, start, p);
      PiecesCut(s, start, p + 1);
    } else {
      var e := MatchEnd(s, p).value;
      PiecesAt(s, start, p, e);
      PiecesCut(s, e, e);
      MatchGreedy(s, p, e);
      PieceCleanNext(s, start, p);
      CutStep(s, start, p, e, Pieces(s, e, e));
    }
  }

  /** The single last piece is cut correctly. */
  lemma CutEnd(s: string, start: nat)
    requires start <= |s|
    ensures CutOk(s, start, [s[start..]])
  {
    assert s[start..] == s[start..start + (|s| - start)];
  }

  /** At a match, the conditions of the rest carry over to the pieces with the current
      piece put in front. */
  lemma CutStep(s: string, start: nat, p: nat, e: nat, rest: seq<string>)
    requires start <= p < e <= |s| && s[p] == '\n'
    requires NoBlankLine(s[start..p + 1]) && NoLeadingBlank(s[e..]) && CutOk(s, e, rest)
    ensures CutOk(s, start, [s[start..p]] + rest)
  {
    var ps := [s[start..p]] + rest;
    assert ps[0] == s[start..p] && start + |ps[0]| == p;
    if |rest| >= 2 {
      FrontPieceNotBlank(s, e, rest);
    }
    assert s[start..p] + "\n" == s[start..p + 1];
    assert rest[0] == s[e..][..|rest[0]|];
    NoLeadingBlankPrefix(s[e..], |rest[0]|);
    forall k | 0 <= k < |ps| - 1 ensures NoBlankLine(ps[k] + "\n") {
      if k > 0 {
        assert ps[k] == rest[k - 1];
      }
    }
    forall k | 0 < k < |ps| ensures NoLeadingBlank(ps[k]) {
      assert ps[k] == rest[k - 1];
    }
    forall k | 0 < k < |ps| - 1 ensures !AllSpace(ps[k]) {
      assert ps[k] == rest[k - 1];
    }
  }

  /** The piece after a gap is not whitespace only when another gap follows it: that
      whitespace and the newline after it would have extended the gap before. */
  lemma FrontPieceNotBlank(s: string, e: nat, rest: seq<string>)
    requires e <= |s| && NoLeadingBlank(s[e..]) && CutOk(s, e, rest) && |rest| >= 2
    ensures !AllSpace(rest[0])
  {
    var (t, n) := (s[e..], |rest[0]|);
    assert t[n] == '\n';
    assert t[..n] == rest[0];
  }

  /** The split of a whole text: put back together with its gaps the pieces give the text;
      every gap is a `\n\s*\n` match; no piece holds a blank line, and no blank line starts
      in a piece before the gap that follows it; and each gap is taken whole, so no piece
      between two gaps is whitespace only. */
  lemma SplitCharacterised(text: string)
    ensures var ps := Pieces(text, 0, 0);
      var gs := Gaps(text, 0, 0);
      && |gs| == |ps| - 1
      && Interleave(ps, gs) == text
      && (forall k :: 0 <= k < |gs| ==> IsGap(gs[k]) && NoBlankLine(ps[k] + "\n"))
      && (forall k :: 0 <= k < |ps| ==> NoBlankLine(ps[k]))
      && (forall k :: 0 < k < |ps| ==> NoLeadingBlank(ps[k]))
      && (forall k :: 0 < k < |ps| - 1 ==> !AllSpace(ps[k]))
  {
    Reassemble(text, 0, 0);
    PiecesCut(text, 0, 0);
    assert text[0..] == text;
  }

  /** The pieces that are not whitespace only, as `.filter(p => p.trim().length > 0)`. */
  function KeepNonBlank(ps: seq<string>): (r: seq<string>)
    ensures |r| <= |ps|
    ensures forall k :: 0 <= k < |r| ==> !AllSpace(r[k]) && r[k] in ps
  {
    if ps == [] then []
    else
      TrimEmptyIff(ps[0]);
      (if Truthy(Trim(ps[0])) then [ps[0]] else []) + KeepNonBlank(ps[1..])
  }

  /** Filtering consecutive runs of pieces keeps the order of the runs. */
  lemma {:induction false} KeepNonBlankAppend(a: seq<string>, b: seq<string>)
    ensures KeepNonBlank(a + b) == KeepNonBlank(a) + KeepNonBlank(b)
  {
    if a == [] {
      assert a + b == b;
    } else {
      assert (a + b)[1..] == a[1..] + b;
      KeepNonBlankAppend(a[1..], b);
      AppendAssoc(if Truthy(Trim(a[0])) then [a[0]] else [], KeepNonBlank(a[1..]), KeepNonBlank(b));
    }
  }

  /** The filter keeps exactly the pieces that are not whitespace only. */
  lemma {:induction false} KeepNonBlankMembers(ps: seq<string>)
    ensures forall x :: x in KeepNonBlank(ps) <==> x in ps && !AllSpace(x)
  {
    if ps != [] {
      KeepNonBlankMembers(ps[1..]);
      KeepNonBlankCons(ps[0], ps[1..]);
      assert ps == [ps[0]] + ps[1..];
      TrimEmptyIff(ps[0]);
    }
  }

  /** A piece in front is kept exactly when it is not whitespace only. */
  lemma KeepNonBlankCons(x: string, ps: seq<string>)
    ensures KeepNonBlank([x] + ps) == (if Truthy(Trim(x)) then [x] else []) + KeepNonBlank(ps)
    ensures KeepNonBlank([x]) == if AllSpace(x) then [] else [x]
  {
    assert ([x] + ps)[1..] == ps;
    assert [x][1..] == [];
    TrimEmptyIff(x);
  }

  /** The paragraphs of a cover letter: exactly the pieces of the split that are not
      whitespace only. */
  function Paragraphs(text: string): (r: seq<string>)
    ensures forall k :: 0 <= k < |r| ==> NoBlankLine(r[k]) && !AllSpace(r[k])
    ensures forall x :: x in r <==> x in Pieces(text, 0, 0) && !AllSpace(x)
  {
    KeepNonBlankMembers(Pieces(text, 0, 0));
    KeepNonBlank(Pieces(text, 0, 0))
  }

  /** Empty text has no paragraph; text with no blank line and some non-space character
      is one paragraph, unchanged. */
  lemma ParagraphCases(text: string)
    ensures text == "" ==> Paragraphs(text) == []
    ensures NoBlankLine(text) && !AllSpace(text) ==> Paragraphs(text) == [text]
  {
    var ps := Pieces(text, 0, 0);
    TrimEmptyIff(text);
    if NoBlankLine(text) {
      assert NoMatchBetween(text, 0, |text|);
      assert ps == [text[0..]];
      assert text[0..] == text;
      assert KeepNonBlank(ps) == (if Truthy(Trim(text)) then [text] else []) + KeepNonBlank([]);
    }
  }

  /** Inside a match-free range, no match starts at `p`, and the range up to `p + 1` is
      match-free. */
  lemma NoMatchAt(s: string, start: nat, p: nat, p2: nat)
    requires start <= p < p2 <= |s| && NoMatchBetween(s, start, p2)
    ensures MatchEnd(s, p).None? && NoMatchBetween(s, start, p + 1)
  {
  }

  /** A position where no match starts is passed over. */
  lemma PiecesStep(s: string, start: nat, p: nat)
    requires start <= p < |s| && NoMatchBetween(s, start, p + 1) && NoMatchBetween(s, start, p)
    requires MatchEnd(s, p).None?
    ensures Pieces(s, start, p) == Pieces(s, start, p + 1)
  {
  }

  /** Scanning over positions where no match starts changes nothing. */
  lemma {:induction false} PiecesSkip(s: string, start: nat, p: nat, p2: nat)
    requires start <= p <= p2 <= |s| && NoMatchBetween(s, start, p2) && NoMatchBetween(s, start, p)
    ensures Pieces(s, start, p) == Pieces(s, start, p2)
    decreases p2 - p
  {
    if p < p2 {
      NoMatchAt(s, start, p, p2);
      PiecesStep(s, start, p);
      PiecesSkip(s, start, p + 1, p2);
    }
  }

  /** After the gap's first newline, the whitespace run reaches at least the gap's last
      newline, and any later character of the run is not a newline. */
  lemma GapRun(a: string, gap: string, b: string)
    requires '\n' !in b
    requires |gap| >= 2 && gap[0] == '\n' && gap[|gap| - 1] == '\n' && AllSpace(gap)
    ensures var run := Run(a + gap + b, |a|);
      && |gap| - 2 < |run| && run[|gap| - 2] == '\n'
      && forall k :: |gap| - 2 < k < |run| ==> run[k] != '\n'
  {
    var s := a + gap + b;
    var (n, e) := (|a|, |a| + |gap|);
    var u := s[n + 1..];
    assert u == gap[1..] + b;
    assert u[..|gap| - 1] == gap[1..];
    LeadingSpacesAtLeast(u, |gap| - 1);
    var run := Run(s, n);
    assert run == u[..LeadingSpaces(u)];
    forall k | |gap| - 2 < k < |run| ensures run[k] != '\n' {
      assert run[k] == u[k] == b[k - (|gap| - 1)];
    }
  }

  /** The blank-line gap after a line of text is matched as a whole. */
  lemma GapMatched(a: string, gap: string, b: string)
    requires '\n' !in b
    requires |gap| >= 2 && gap[0] == '\n' && gap[|gap| - 1] == '\n' && AllSpace(gap)
    ensures MatchEnd(a + gap + b, |a|) == Some(|a| + |gap|)
  {
    var s := a + gap + b;
    GapRun(a, gap, b);
    LastIndexAt(Run(s, |a|), '\n', |gap| - 2);
    assert s[|a|] == gap[0];
    MatchEndAt(s, |a|, |gap| - 2);
  }

  /** No match starts inside a line with no newline. */
  lemma NoMatchInLine(s: string, from: nat, to: nat)
    requires from <= to <= |s|
    requires forall q :: from <= q < to ==> s[q] != '\n'
    ensures NoMatchBetween(s, from, to)
  {
  }

  /** Around the gap, no match starts: neither line holds a newline. */
  lemma LinesAroundGap(a: string, gap: string, b: string)
    requires '\n' !in a && '\n' !in b
    ensures NoMatchBetween(a + gap + b, 0, |a|)
    ensures NoMatchBetween(a + gap + b, |a| + |gap|, |a + gap + b|)
  {
    var s := a + gap + b;
    var e := |a| + |gap|;
    forall q | 0 <= q < |a| ensures s[q] != '\n' {
      assert s[q] == a[q];
    }
    forall q | e <= q < |s| ensures s[q] != '\n' {
      assert s[q] == b[q - e];
    }
    NoMatchInLine(s, 0, |a|);
    NoMatchInLine(s, e, |s|);
  }

  /** The split of two lines around a blank-line gap gives the two lines. */
  lemma TwoPieces(a: string, gap: string, b: string)
    requires '\n' !in a && '\n' !in b
    requires |gap| >= 2 && gap[0] == '\n' && gap[|gap| - 1] == '\n' && AllSpace(gap)
    ensures Pieces(a + gap + b, 0, 0) == [a, b]
  {
    var s := a + gap + b;
    var (n, e) := (|a|, |a| + |gap|);
    LinesAroundGap(a, gap, b);
    PiecesSkip(s, 0, 0, n);
    GapMatched(a, gap, b);
    assert Pieces(s, 0, n) == [s[0..n]] + Pieces(s, e, e);
    assert Pieces(s, e, e) == [s[e..]];
    assert s[0..n] == a && s[e..] == b;
  }

  /** Two lines of text with a blank-line gap between them, however much whitespace the
      gap holds, are two paragraphs. */
  lemma TwoParagraphs(a: string, gap: string, b: string)
    requires '\n' !in a && '\n' !in b && !AllSpace(a) && !AllSpace(b)
    requires |gap| >= 2 && gap[0] == '\n' && gap[|gap| - 1] == '\n' && AllSpace(gap)
    ensures Paragraphs(a + gap + b) == [a, b]
  {
    TwoPieces(a, gap, b);
    TrimEmptyIff(a);
    TrimEmptyIff(b);
    assert KeepNonBlank([a, b]) == [a] + KeepNonBlank([b]);
    assert KeepNonBlank([b]) == [b] + KeepNonBlank([]);
  }

  // ---------------------------------------------------------------------------------
  // Header strings
  // ---------------------------------------------------------------------------------

  const Bullet: string := " • "

  /** The header subtitle: the location if present, then ` • ` and the suffix if present;
      nothing is drawn when it comes out empty. */
  function Subtitle(p: Personal): (r: Option<string>)
    ensures r.None? <==> !Truthy(p.location) && !Truthy(p.suffix)
    ensures r.Some? && Truthy(p.location) ==>
      |p.location| <= |r.value| && r.value[..|p.location|] == p.location
    ensures r.Some? && !Truthy(p.suffix) ==> r.value == p.location
    ensures r.Some? && Truthy(p.suffix) ==>
      |r.value| == |p.location| + 3 + |p.suffix| && r.value[|p.location|..|p.location| + 3] == Bullet &&
      r.value[|p.location| + 3..] == p.suffix
  {
    var s := (if Truthy(p.location) then p.location else "") + (if Truthy(p.suffix) then Bullet + p.suffix else "");
    if Truthy(s) then Some(s) else None
  }

  /** The contact links in order: the GitHub value, the literal `LinkedIn` (never the
      LinkedIn value itself), the email and the phone, each only when present. */
  function ContactLinks(p: Personal): (r: seq<string>)
    ensures |r| == Bit(p.github) + Bit(p.linkedin) + Bit(p.email) + Bit(p.phone)
    ensures forall k :: 0 <= k < |r| ==> Truthy(r[k])
    ensures Truthy(p.github) ==> r[0] == p.github
    ensures Truthy(p.linkedin) ==> r[Bit(p.github)] == "LinkedIn"
    ensures Truthy(p.email) ==> r[Bit(p.github) + Bit(p.linkedin)] == p.email
    ensures Truthy(p.phone) ==> r[Bit(p.github) + Bit(p.linkedin) + Bit(p.email)] == p.phone
  {
    (if Truthy(p.github) then [p.github] else [])
    + (if Truthy(p.linkedin) then ["LinkedIn"] else [])
    + (if Truthy(p.email) then [p.email] else [])
    + (if Truthy(p.phone) then [p.phone] else [])
  }

  /** One when the field is present, for counting the links before a field. */
  function Bit(field: string): nat {
    if Truthy(field) then 1 else 0
  }

  /** The contact line: the links joined by ` • `, not drawn when there is none. */
  function ContactLine(p: Personal): (r: Option<string>)
    ensures r.None? <==> ContactLinks(p) == []
  {
    var links := ContactLinks(p);
    if |links| > 0 then Some(Join(links, Bullet)) else None
  }

  /** The contact line holds the LinkedIn label and never the LinkedIn value: with only a
      LinkedIn value, the line is exactly `LinkedIn`; with all four, the four links in
      order. */
  lemma ContactLineShape(p: Personal)
    ensures !Truthy(p.github) && !Truthy(p.email) && !Truthy(p.phone) ==>
      ContactLine(p) == (if Truthy(p.linkedin) then Some("LinkedIn") else None)
    ensures Truthy(p.github) && Truthy(p.linkedin) && Truthy(p.email) && Truthy(p.phone) ==>
      ContactLine(p) == Some(p.github + Bullet + "LinkedIn" + Bullet + p.email + Bullet + p.phone)
  {
    if !Truthy(p.github) && !Truthy(p.email) && !Truthy(p.phone) && Truthy(p.linkedin) {
      assert ContactLinks(p) == ["LinkedIn"];
    }
    if Truthy(p.github) && Truthy(p.linkedin) && Truthy(p.email) && Truthy(p.phone) {
      var links := [p.github, "LinkedIn", p.email, p.phone];
      assert ContactLinks(p) == links;
      assert links[1..] == ["LinkedIn", p.email, p.phone];
      assert links[1..][1..] == [p.email, p.phone];
      assert Join([p.phone], Bullet) == p.phone;
      assert Join([p.email, p.phone], Bullet) == p.email + Bullet + p.phone;
      assert Join(links[1..], Bullet) == "LinkedIn" + Bullet + (p.email + Bullet + p.phone);
      assert Join(links, Bullet) == p.github + Bullet + ("LinkedIn" + Bullet + (p.email + Bullet + p.phone));
      var (x, y) := (p.github + Bullet, "LinkedIn" + Bullet);
      AppendAssoc(p.github, Bullet, "LinkedIn" + Bullet + (p.email + Bullet + p.phone));
      AppendAssoc("LinkedIn", Bullet, p.email + Bullet + p.phone);
      AppendAssoc(x, y, p.email + Bullet + p.phone);
      AppendAssoc(x + y, p.email + Bullet, p.phone);
      AppendAssoc(x + y, p.email, Bullet);
      AppendAssoc(x, "LinkedIn", Bullet);
      assert Join(links, Bullet) == p.github + Bullet + "LinkedIn" + Bullet + p.email + Bullet + p.phone;
      assert ContactLine(p) == Some(Join(links, Bullet));
    }
  }
}
