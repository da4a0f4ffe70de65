/**
 Line wrapping (`qvi_swrap`): words are laid out greedily on lines of bounded
 length, and a word longer than a line is cut into line-sized chunks.
 */
module LineWrap {

  /** The characters that separate words in stream extraction. */
  predicate IsSpace(c: char) {
    c == ' ' || c == '\t' || c == '\n' || c == '\U{0B}' || c == '\U{0C}' || c == '\r'
  }

  // ----- words, lines and visible characters of a text

  predicate Solid(w: string) {
    w != "" && forall i :: 0 <= i < |w| ==> !IsSpace(w[i])
  }

  predicate AllSolid(ws: seq<string>) {
    forall i :: 0 <= i < |ws| ==> Solid(ws[i])
  }

  /** The length of the longest prefix without white space. */
  function Run(s: string): (n: nat)
    ensures n <= |s| && (forall i :: 0 <= i < n ==> !IsSpace(s[i]))
    ensures n < |s| ==> IsSpace(s[n])
  {
    if s == "" || IsSpace(s[0]) then 0 else 1 + Run(s[1..])
  }

  function Words(s: string): seq<string> {
    if s == "" then []
    else if IsSpace(s[0]) then Words(s[1..])
    else [s[..Run(s)]] + Words(s[Run(s)..])
  }

  lemma {:induction false} WordsAreSolid(s: string)
    ensures AllSolid(Words(s))
    decreases |s|
  {
    if s != "" {
      if IsSpace(s[0]) {
        WordsAreSolid(s[1..]);
      } else {
        WordsAreSolid(s[Run(s)..]);
      }
    }
  }

  function Concat(ws: seq<string>): string {
    if ws == [] then "" else ws[0] + Concat(ws[1..])
  }

  /** A text without its white space. */
  function Visible(s: string): string {
    if s == "" then "" else (if IsSpace(s[0]) then "" else [s[0]]) + Visible(s[1..])
  }

  /** The lines of a text, cut at its newlines. */
  function Lines(s: string): (ls: seq<string>)
    ensures |ls| > 0
  {
    if s == "" then [""]
    else
      var ls := Lines(s[..|s| - 1]);
      var c := s[|s| - 1];
      if c == '\n' then ls + [""] else ls[|ls| - 1 := ls[|ls| - 1] + [c]]
  }

  lemma {:induction false} VisibleOfRun(s: string, n: nat)
    requires n <= |s| && forall i :: 0 <= i < n ==> !IsSpace(s[i])
    ensures Visible(s) == s[..n] + Visible(s[n..])
  {
    if n > 0 {
      VisibleOfRun(s[1..], n - 1);
      assert s[1..][n - 1..] == s[n..];
      assert s[..n] == [s[0]] + s[1..][..n - 1];
    }
  }

  lemma {:induction false} VisibleIsItsWords(s: string)
    ensures Visible(s) == Concat(Words(s))
    decreases |s|
  {
    if s != "" {
      if IsSpace(s[0]) {
        VisibleIsItsWords(s[1..]);
      } else {
        VisibleOfRun(s, Run(s));
        VisibleIsItsWords(s[Run(s)..]);
      }
    }
  }

  lemma {:induction false} RunIs(s: string, n: nat)
    requires n <= |s| && (forall i :: 0 <= i < n ==> !IsSpace(s[i])) && (n < |s| ==> IsSpace(s[n]))
    ensures Run(s) == n
  {
    if n > 0 { RunIs(s[1..], n - 1); }
  }

  lemma WordsOfSolid(w: string)
    requires Solid(w)
    ensures Words(w) == [w]
  {
    RunIs(w, |w|);
    assert w[..|w|] == w && w[|w|..] == "";
  }

  lemma {:induction false} WordsAfterSeparator(a: string, sep: char, w: string)
    requires IsSpace(sep) && Solid(w)
    ensures Words(a + [sep] + w) == Words(a) + [w]
    decreases |a|
  {
    var s := a + [sep] + w;
    if a == "" {
      assert s[1..] == w;
      WordsOfSolid(w);
    } else if IsSpace(a[0]) {
      assert s[1..] == a[1..] + [sep] + w;
      WordsAfterSeparator(a[1..], sep, w);
    } else {
      var n := Run(a);
      RunIs(s, n);
      assert s[..n] == a[..n] && s[n..] == a[n..] + [sep] + w;
      WordsAfterSeparator(a[n..], sep, w);
    }
  }

  /** Text without a newline extends the last line. */
  lemma {:induction false} LinesExtend(a: string, t: string)
    requires forall i :: 0 <= i < |t| ==> t[i] != '\n'
    ensures var ls := Lines(a); Lines(a + t) == ls[|ls| - 1 := ls[|ls| - 1] + t]
    decreases |t|
  {
    hide Lines;
    var ls := Lines(a);
    var last := ls[|ls| - 1];
    if t == "" {
      assert a + t == a && last + t == last;
      assert ls == ls[|ls| - 1 := last];
    } else {
      var l := |t| - 1;
      LinesExtend(a, t[..l]);
      LinesGrow(a + t[..l], t[l]);
      assert a + t == a + t[..l] + [t[l]];
      assert last + t == last + t[..l] + [t[l]];
    }
  }

  lemma LinesGrow(a: string, c: char)
    requires c != '\n'
    ensures var ls := Lines(a); Lines(a + [c]) == ls[|ls| - 1 := ls[|ls| - 1] + [c]]
  {
    assert (a + [c])[..|a + [c]| - 1] == a;
  }

  lemma LinesNewline(a: string)
    ensures Lines(a + ['\n']) == Lines(a) + [""]
  {
    assert (a + ['\n'])[..|a + ['\n']| - 1] == a;
  }

  lemma LinesBreak(a: string, t: string)
    requires forall i :: 0 <= i < |t| ==> t[i] != '\n'
    ensures Lines(a + ['\n'] + t) == Lines(a) + [t]
  {
    LinesNewline(a);
    var ls := Lines(a);
    LinesExtend(a + ['\n'], t);
    assert "" + t == t && (ls + [""])[|ls| := t] == ls + [t];
  }

  // ----- what wrapping computes

  /** A word cut into chunks that fit on a line. */
  function Pieces(w: string, max: nat): (r: seq<string>)
    requires max > 0
    ensures Solid(w) ==> AllSolid(r)
    ensures forall i :: 0 <= i < |r| ==> |r[i]| <= max
  {
    if |w| <= max then [w] else [w[..max]] + Pieces(w[max..], max)
  }

  function AllPieces(ws: seq<string>, max: nat): (r: seq<string>)
    requires max > 0
    ensures AllSolid(ws) ==> AllSolid(r)
    ensures forall i :: 0 <= i < |r| ==> |r[i]| <= max
  {
    if ws == [] then [] else AllPieces(ws[..|ws| - 1], max) + Pieces(ws[|ws| - 1], max)
  }

  /** The finished lines, each with its newline, and the line being filled. */
  datatype Layout = Layout(done: string, line: string) {
    function Text(): string { done + line }
  }

  function Place(l: Layout, piece: string, max: nat): Layout {
    if l.line == "" then Layout(l.done, piece)
    else if |l.line| + 1 + |piece| <= max then Layout(l.done, l.line + " " + piece)
    else Layout(l.done + l.line + "\n", piece)
  }

  function Greedy(pieces: seq<string>, max: nat): (l: Layout)
    ensures pieces != [] && AllSolid(pieces) ==> l.line != ""
  {
    if pieces == [] then Layout("", "")
    else Place(Greedy(pieces[..|pieces| - 1], max), pieces[|pieces| - 1], max)
  }

  function Wrapped(text: string, max: nat): string {
    if max == 0 then text else Greedy(AllPieces(Words(text), max), max).Text()
  }

  // ----- the loops of `qvi_swrap`

  method SkipSpaces(text: string, from: nat) returns (begin: nat)
    requires from <= |text|
    ensures from <= begin <= |text| && (begin < |text| ==> !IsSpace(text[begin]))
    ensures Words(text[begin..]) == Words(text[from..])
  {
    begin := from;
    while begin < |text| && IsSpace(text[begin])
      invariant from <= begin <= |text| && Words(text[begin..]) == Words(text[from..])
    {
      assert text[begin..][1..] == text[begin + 1..];
      begin := begin + 1;
    }
  }

  method ReadRun(text: string, begin: nat) returns (word: string, pos: nat)
    requires begin < |text|
    ensures begin <= pos <= |text| && word == text[begin..pos] && pos - begin == Run(text[begin..])
  {
    pos, word := begin, "";
    while pos < |text| && !IsSpace(text[pos])
      invariant begin <= pos <= |text| && word == text[begin..pos]
      invariant forall i :: begin <= i < pos ==> !IsSpace(text[i])
    {
      word := word + [text[pos]];
      pos := pos + 1;
    }
    RunIs(text[begin..], pos - begin);
  }

  /** Stream extraction: skips white space and takes the characters up to the next white space. */
  method ReadWord(text: string, from: nat) returns (found: bool, word: string, pos: nat)
    requires from <= |text|
    ensures found <==> Words(text[from..]) != []
    ensures found ==> from < pos <= |text| && Words(text[from..]) == [word] + Words(text[pos..])
  {
    var begin := SkipSpaces(text, from);
    if begin == |text| { return false, "", begin; }
    found := true;
    word, pos := ReadRun(text, begin);
    assert text[begin..][..pos - begin] == word && text[begin..][pos - begin..] == text[pos..];
  }

  lemma AllPiecesSnoc(ws: seq<string>, w: string, max: nat)
    requires max > 0
    ensures AllPieces(ws + [w], max) == AllPieces(ws, max) + Pieces(w, max)
  {
    assert (ws + [w])[..|ws|] == ws;
  }

  /** Puts one word on the page, cutting it first while it is longer than a line. */
  method PlaceWord(result0: string, curline0: string, word0: string, max: nat, ghost before: seq<string>)
      returns (result: string, curline: string)
    requires max > 0 && Solid(word0) && AllSolid(before)
    requires Layout(result0, curline0) == Greedy(before, max)
    ensures Layout(result, curline) == Greedy(before + Pieces(word0, max), max)
  {
    result, curline := result0, curline0;
    var word := word0;
    ghost var placed := before;
    while |word| > max
      invariant Solid(word) && AllSolid(placed)
      invariant placed + Pieces(word, max) == before + Pieces(word0, max)
      invariant var l := Greedy(placed, max);
                || Layout(result, curline) == l
                || (curline == "" && result == l.Text() + "\n" && |l.line| == max)
    {
      if curline != "" {
        result := result + curline + "\n";
        curline := "";
      }
      result := result + word[..max] + "\n";
      ghost var next := placed + [word[..max]];
      assert next[..|placed|] == placed;
      word := word[max..];
      placed := next;
    }
    ghost var all := placed + [word];
    assert all[..|placed|] == placed;
    if curline == "" {
      curline := word;
    } else if |curline| + 1 + |word| <= max {
      curline := curline + " " + word;
    } else {
      result := result + curline + "\n";
      curline := word;
    }
  }

  /** The words read so far are on the page and the others are still to come. */
  ghost predicate Wrapping(text: string, max: nat, read: seq<string>, rest: seq<string>, l: Layout)
    requires max > 0
  {
    AllSolid(read) && read + rest == Words(text) && l == Greedy(AllPieces(read, max), max)
  }

  lemma WrappingStep(text: string, max: nat, read: seq<string>, word: string, rest: seq<string>, l: Layout)
    requires max > 0 && Wrapping(text, max, read, [word] + rest, l)
    ensures Solid(word) && AllSolid(AllPieces(read, max))
    ensures Wrapping(text, max, read + [word], rest, Greedy(AllPieces(read, max) + Pieces(word, max), max))
  {
    hide Words, AllPieces, Pieces, Greedy, Solid;
    WordsAreSolid(text);
    assert Words(text)[|read|] == word;
    assert read + [word] + rest == read + ([word] + rest);
    AllPiecesSnoc(read, word, max);
  }

  lemma WrappingEnds(text: string, max: nat, read: seq<string>, l: Layout)
    requires max > 0 && Wrapping(text, max, read, [], l)
    ensures l.Text() == Wrapped(text, max)
  {
    assert read == Words(text);
  }

  method Swrap(text: string, maxLineLen: nat) returns (r: string)
    ensures r == Wrapped(text, maxLineLen)
  {
    if maxLineLen == 0 { return text; }
    var result, curline := "", "";
    ghost var read, rest := [], Words(text);
    var found, word, pos := ReadWord(text, 0);
    assert text[0..] == text;
    while found
      invariant found ==> 0 <= pos <= |text| && rest == [word] + Words(text[pos..])
      invariant found <==> rest != []
      invariant Wrapping(text, maxLineLen, read, rest, Layout(result, curline))
      decreases |rest|
    {
      WrappingStep(text, maxLineLen, read, word, Words(text[pos..]), Layout(result, curline));
      result, curline := PlaceWord(result, curline, word, maxLineLen, AllPieces(read, maxLineLen));
      read, rest := read + [word], Words(text[pos..]);
      found, word, pos := ReadWord(text, pos);
    }
    WrappingEnds(text, maxLineLen, read, Layout(result, curline));
    if curline != "" { result := result + curline; }
    return result;
  }

  // ----- what wrapping promises

  ghost predicate LinesFit(ls: seq<string>, max: nat) {
    forall i :: 0 <= i < |ls| ==> 0 < |ls[i]| <= max
  }

  ghost predicate BreakNeeded(ls: seq<string>, max: nat, i: nat)
    requires 0 < i < |ls|
  {
    Words(ls[i]) != [] && |ls[i - 1]| + 1 + |Words(ls[i])[0]| > max
  }

  /** A line ends only where the first word of the next line would not have fitted. */
  ghost predicate BreaksNeeded(ls: seq<string>, max: nat) {
    forall i :: 0 < i < |ls| ==> BreakNeeded(ls, max, i)
  }

  /** What a page of placed pieces looks like. */
  ghost predicate Page(l: Layout, ps: seq<string>, max: nat) {
    var ls := Lines(l.Text());
    && Words(l.Text()) == ps
    && ls[|ls| - 1] == l.line && Words(l.line) != []
    && LinesFit(ls, max) && BreaksNeeded(ls, max)
  }

  /** The last line may grow within the limit as long as its first word stays. */
  lemma LastLineGrows(ls: seq<string>, line: string, max: nat)
    requires ls != [] && LinesFit(ls, max) && BreaksNeeded(ls, max)
    requires var last := ls[|ls| - 1];
             0 < |line| <= max && Words(line) != [] && Words(last) != [] && Words(line)[0] == Words(last)[0]
    ensures var r := ls[|ls| - 1 := line]; LinesFit(r, max) && BreaksNeeded(r, max)
  {
    var r := ls[|ls| - 1 := line];
    forall i | 0 < i < |r| ensures BreakNeeded(r, max, i) {
      assert BreakNeeded(ls, max, i);
      BreakCarries(ls, r, max, i);
    }
  }

  lemma BreakCarries(a: seq<string>, b: seq<string>, max: nat, i: nat)
    requires 0 < i < |a| && i < |b| && BreakNeeded(a, max, i)
    requires a[i - 1] == b[i - 1] && Words(b[i]) != [] && Words(a[i])[0] == Words(b[i])[0]
    ensures BreakNeeded(b, max, i)
  {
  }

  /** A new line needs a first word that did not fit on the one before it. */
  lemma NewLine(ls: seq<string>, line: string, max: nat)
    requires ls != [] && LinesFit(ls, max) && BreaksNeeded(ls, max)
    requires 0 < |line| <= max && Words(line) != [] && |ls[|ls| - 1]| + 1 + |Words(line)[0]| > max
    ensures LinesFit(ls + [line], max) && BreaksNeeded(ls + [line], max)
  {
    var r := ls + [line];
    forall i | 0 < i < |r| ensures BreakNeeded(r, max, i) {
      if i < |ls| {
        assert BreakNeeded(ls, max, i);
        BreakCarries(ls, r, max, i);
      }
    }
  }

  lemma WordsOfLonger(l: Layout, sep: char, p: string)
    requires Solid(p) && IsSpace(sep)
    ensures Words(l.done + l.line + [sep] + p) == Words(l.Text()) + [p]
  {
    WordsAfterSeparator(l.Text(), sep, p);
  }

  /** A piece joining the last line. */
  lemma LinesOfLonger(l: Layout, p: string)
    requires Solid(p) && Lines(l.Text())[|Lines(l.Text())| - 1] == l.line
    ensures var ls := Lines(l.Text()); Lines(l.done + (l.line + " " + p)) == ls[|ls| - 1 := l.line + " " + p]
  {
    var tail := " " + p;
    LinesExtend(l.Text(), tail);
    assert l.done + (l.line + " " + p) == l.Text() + tail;
    assert l.line + tail == l.line + " " + p;
  }

  lemma FirstWordStays(line: string, p: string)
    requires Words(line) != [] && Solid(p)
    ensures Words(line + " " + p) != [] && Words(line + " " + p)[0] == Words(line)[0]
  {
    WordsAfterSeparator(line, ' ', p);
  }

  lemma PageFits(l: Layout, ps: seq<string>, p: string, max: nat)
    requires Page(l, ps, max) && Solid(p) && |l.line| + 1 + |p| <= max
    ensures Page(Layout(l.done, l.line + " " + p), ps + [p], max)
  {
    hide Words, Lines, Solid, LinesFit, BreaksNeeded;
    var line := l.line + " " + p;
    FirstWordStays(l.line, p);
    LinesOfLonger(l, p);
    WordsOfLonger(l, ' ', p);
    assert l.done + line == l.done + l.line + [' '] + p;
    LastLineGrows(Lines(l.Text()), line, max);
  }

  lemma PageBreaks(l: Layout, ps: seq<string>, p: string, max: nat)
    requires Page(l, ps, max) && Solid(p) && |l.line| + 1 + |p| > max >= |p|
    ensures Page(Layout(l.done + l.line + "\n", p), ps + [p], max)
  {
    WordsOfLonger(l, '\n', p);
    WordsOfSolid(p);
    LinesBreak(l.Text(), p);
    NewLine(Lines(l.Text()), p, max);
    assert l.done + l.line + ['\n'] + p == l.done + l.line + "\n" + p;
  }

  lemma FirstPiece(p: string, max: nat)
    requires Solid(p) && |p| <= max
    ensures Page(Layout("", p), [p], max)
  {
    WordsOfSolid(p);
    LinesExtend("", p);
    assert "" + p == p;
  }

  lemma {:induction false} GreedyPage(ps: seq<string>, max: nat)
    requires AllSolid(ps) && ps != [] && forall i :: 0 <= i < |ps| ==> |ps[i]| <= max
    ensures Page(Greedy(ps, max), ps, max)
  {
    var n := |ps| - 1;
    var p, before := ps[n], Greedy(ps[..n], max);
    assert ps == ps[..n] + [p];
    if n == 0 {
      FirstPiece(p, max);
    } else {
      GreedyPage(ps[..n], max);
      if |before.line| + 1 + |p| <= max {
        PageFits(before, ps[..n], p, max);
      } else {
        PageBreaks(before, ps[..n], p, max);
      }
    }
  }

  lemma ConcatStep(ws: seq<string>, w: string, rest: seq<string>)
    requires ws != [] && ws[0] == w && ws[1..] == rest
    ensures Concat(ws) == w + Concat(rest)
  {
  }

  lemma ConcatIsAssociative(a: string, b: string, c: string)
    ensures a + (b + c) == a + b + c
  {
  }

  lemma {:induction false} ConcatSplits(a: seq<string>, b: seq<string>)
    ensures Concat(a + b) == Concat(a) + Concat(b)
  {
    if a == [] {
      assert a + b == b;
    } else {
      var w, rest := a[0], a[1..];
      ConcatSplits(rest, b);
      ConcatStep(a, w, rest);
      assert (a + b)[1..] == rest + b;
      ConcatStep(a + b, w, rest + b);
      hide Concat;
      ConcatIsAssociative(w, Concat(rest), Concat(b));
    }
  }

  lemma {:induction false} PiecesRejoin(w: string, max: nat)
    requires max > 0
    ensures Concat(Pieces(w, max)) == w
    decreases |w|
  {
    if |w| > max {
      PiecesRejoin(w[max..], max);
      ConcatSplits([w[..max]], Pieces(w[max..], max));
    }
    assert Concat([w]) == w;
  }

  lemma {:induction false} AllPiecesRejoin(ws: seq<string>, max: nat)
    requires max > 0
    ensures Concat(AllPieces(ws, max)) == Concat(ws)
  {
    hide Pieces, AllSolid, Solid;
    if ws != [] {
      var n := |ws| - 1;
      AllPiecesRejoin(ws[..n], max);
      PiecesRejoin(ws[n], max);
      ConcatSplits(AllPieces(ws[..n], max), Pieces(ws[n], max));
      ConcatSplits(ws[..n], [ws[n]]);
      assert ws == ws[..n] + [ws[n]];
    }
  }

  /** A word is cut into pieces of full length and a last one that is not empty. */
  lemma {:induction false} PiecesAreFull(w: string, max: nat)
    requires max > 0 && w != ""
    ensures var ps := Pieces(w, max);
            && ps != [] && ps[|ps| - 1] != ""
            && forall i :: 0 <= i < |ps| - 1 ==> |ps[i]| == max
    decreases |w|
  {
    if |w| > max { PiecesAreFull(w[max..], max); }
  }

  // ----- the white space of the result

  /** The only white space is single blanks and newlines between visible characters. */
  ghost predicate Tidy(s: string) {
    forall i :: 0 <= i < |s| && IsSpace(s[i]) ==>
      && s[i] in {' ', '\n'}
      && 0 < i < |s| - 1 && !IsSpace(s[i - 1]) && !IsSpace(s[i + 1])
  }

  lemma TidyGrows(a: string, sep: char, p: string)
    requires Tidy(a) && a != "" && !IsSpace(a[|a| - 1]) && sep in {' ', '\n'} && Solid(p)
    ensures Tidy(a + [sep] + p) && !IsSpace((a + [sep] + p)[|a + [sep] + p| - 1])
  {
    var s := a + [sep] + p;
    forall i | 0 <= i < |s| && IsSpace(s[i])
      ensures s[i] in {' ', '\n'} && 0 < i < |s| - 1 && !IsSpace(s[i - 1]) && !IsSpace(s[i + 1])
    {
      assert i <= |a|;
      assert i < |a| ==> s[i] == a[i] && i < |a| - 1;
    }
  }

  lemma {:induction false} GreedyIsTidy(ps: seq<string>, max: nat)
    requires AllSolid(ps) && ps != []
    ensures var s := Greedy(ps, max).Text(); s != "" && Tidy(s) && !IsSpace(s[|s| - 1])
  {
    var n := |ps| - 1;
    var p, before := ps[n], Greedy(ps[..n], max);
    if n > 0 {
      GreedyIsTidy(ps[..n], max);
      var a := before.Text();
      var sep := if |before.line| + 1 + |p| <= max then ' ' else '\n';
      TidyGrows(a, sep, p);
      assert Greedy(ps, max).Text() == a + [sep] + p;
    }
  }

  /** Whatever white space the text has, the result has one blank or one newline between two words and none else. */
  lemma WrappedIsTidy(text: string, max: nat)
    requires max > 0
    ensures Tidy(Wrapped(text, max))
    ensures forall c :: c in Wrapped(text, max) ==> c !in {'\t', '\r', '\U{0B}', '\U{0C}'}
  {
    WordsAreSolid(text);
    if Words(text) != [] {
      NoPieces(Words(text), max);
      GreedyIsTidy(AllPieces(Words(text), max), max);
    }
  }

  lemma {:induction false} FittingWordsAreWhole(ws: seq<string>, max: nat)
    requires max > 0 && forall i :: 0 <= i < |ws| ==> |ws[i]| <= max
    ensures AllPieces(ws, max) == ws
  {
    if ws != [] { FittingWordsAreWhole(ws[..|ws| - 1], max); }
  }

  lemma WrappedWords(text: string, max: nat)
    requires max > 0
    ensures Words(Wrapped(text, max)) == AllPieces(Words(text), max)
  {
    var ps := AllPieces(Words(text), max);
    WordsAreSolid(text);
    if ps != [] { GreedyPage(ps, max); }
  }

  lemma NoPieces(ws: seq<string>, max: nat)
    requires max > 0 && ws != []
    ensures AllPieces(ws, max) != []
  {
  }

  /** Every line holds at least one character and at most `max`, and no line ends early. */
  lemma WrappedLinesFit(text: string, max: nat)
    requires max > 0
    ensures Words(text) == [] ==> Wrapped(text, max) == ""
    ensures Words(text) != [] ==> LinesFit(Lines(Wrapped(text, max)), max)
    ensures Words(text) != [] ==> BreaksNeeded(Lines(Wrapped(text, max)), max)
  {
    if Words(text) != [] {
      NoPieces(Words(text), max);
      WordsAreSolid(text);
      GreedyPage(AllPieces(Words(text), max), max);
    }
  }

  /** Wrapping only touches white space. */
  lemma WrappingKeepsText(text: string, max: nat)
    ensures Visible(Wrapped(text, max)) == Visible(text)
  {
    if max > 0 {
      WrappedWords(text, max);
      VisibleIsItsWords(text);
      VisibleIsItsWords(Wrapped(text, max));
      AllPiecesRejoin(Words(text), max);
    }
  }

  lemma {:induction false} VisibleCount(s: string, c: char)
    requires !IsSpace(c)
    ensures multiset(Visible(s))[c] == multiset(s)[c]
  {
    if s != "" {
      VisibleCount(s[1..], c);
      assert s == [s[0]] + s[1..];
    }
  }

  /** Every character that is not white space occurs as often as before. */
  lemma WrappingKeepsCounts(text: string, max: nat, c: char)
    requires c !in {' ', '\t', '\n', '\U{0B}', '\U{0C}', '\r'}
    ensures multiset(Wrapped(text, max))[c] == multiset(text)[c]
  {
    WrappingKeepsText(text, max);
    VisibleCount(text, c);
    VisibleCount(Wrapped(text, max), c);
  }

  /** Wrapping a wrapped text changes nothing, even where long words were cut. */
  lemma WrappingIsIdempotent(text: string, max: nat)
    ensures Wrapped(Wrapped(text, max), max) == Wrapped(text, max)
  {
    if max > 0 {
      WrappedWords(text, max);
      FittingWordsAreWhole(AllPieces(Words(text), max), max);
    }
  }
}
