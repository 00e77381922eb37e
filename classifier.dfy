/**
  The cell classifier of `find_character`: the pixels of one 25x25 cell of the
  blurred image are trimmed at the first all-background column and compared
  with every reference glyph, blurred at the current strength and trimmed the
  same way; the best-scoring glyph in alphabet order wins if it clears the
  threshold of the chosen tolerance.
 */
module Classifier {
  import opened Wrappers
  import opened Images

  /** The reference characters, in the order that decides ties. */
  const Alphabet: string := "abcdefghijklmnopqrstuvwxyzABCDEFGHIJKLMNOPQRSTUVWXYZ0123456789 !.:()@#$%^&*_+=-{}[]<>,/?'\"\\|"

  lemma AlphabetShape()
    ensures |Alphabet| == 92 && Alphabet[62] == ' '
  {
  }

  // ---------------------------------------------------------------------------
  // Cell extraction

  /** The 25x25 cell with top-left corner (x0, y0) lies inside `r`. */
  predicate CellFits(r: Raster, x0: nat, y0: nat)
  {
    r.Valid() && x0 + CharWidth <= r.width && y0 + CharHeight <= r.height
  }

  /** Column `k` of the cell at (x0, y0), top to bottom. */
  function CellColumn(r: Raster, x0: nat, y0: nat, k: nat): seq<Pixel>
    requires CellFits(r, x0, y0) && k < CharWidth
  {
    r.cols[x0 + k][y0..y0 + CharHeight]
  }

  /** Every pixel of the column is the background sentinel. */
  predicate IsBlank(column: seq<Pixel>)
  {
    forall i :: 0 <= i < |column| ==> column[i] == Sentinel
  }

  /** The retained columns of the cell from column `k` on, stopping at the first blank one. */
  function TrimFrom(r: Raster, x0: nat, y0: nat, k: nat): seq<Pixel>
    requires CellFits(r, x0, y0) && k <= CharWidth
    decreases CharWidth - k
  {
    if k == CharWidth then []
    else if IsBlank(CellColumn(r, x0, y0, k)) then []
    else CellColumn(r, x0, y0, k) + TrimFrom(r, x0, y0, k + 1)
  }

  /** The trimmed pixel sequence of the cell at (x0, y0). */
  function Trim(r: Raster, x0: nat, y0: nat): seq<Pixel>
    requires CellFits(r, x0, y0)
  {
    TrimFrom(r, x0, y0, 0)
  }

  /** Column `j` of a column-major pixel sequence. */
  function ColumnOf(t: seq<Pixel>, j: nat): seq<Pixel>
    requires (j + 1) * CharHeight <= |t|
  {
    t[j * CharHeight..(j + 1) * CharHeight]
  }

  /** `t` consists of `m` columns, the retained columns `k .. k+m-1` of the cell, none of them blank. */
  predicate RetainedColumns(r: Raster, x0: nat, y0: nat, k: nat, t: seq<Pixel>, m: nat)
    requires CellFits(r, x0, y0)
  {
    |t| == m * CharHeight && k + m <= CharWidth &&
    forall j :: 0 <= j < m ==>
      ColumnOf(t, j) == CellColumn(r, x0, y0, k + j) && !IsBlank(CellColumn(r, x0, y0, k + j))
  }

  /**
    The trimmed cell from column `k` on is the column-major concatenation of
    the cell's columns from `k` up to, not including, the first
    all-background column: a whole number of columns, none of them blank, and
    the column after the last one kept (if any) is blank.
   */
  lemma {:induction false} TrimFromShape(r: Raster, x0: nat, y0: nat, k: nat)
    requires CellFits(r, x0, y0) && k <= CharWidth
    ensures var t := TrimFrom(r, x0, y0, k);
            var m := |t| / CharHeight;
            RetainedColumns(r, x0, y0, k, t, m) &&
            (k + m < CharWidth ==> IsBlank(CellColumn(r, x0, y0, k + m)))
    decreases CharWidth - k
  {
    if k < CharWidth && !IsBlank(CellColumn(r, x0, y0, k)) {
      TrimFromShape(r, x0, y0, k + 1);
      var rest := TrimFrom(r, x0, y0, k + 1);
      RetainedCons(r, x0, y0, k, rest, |rest| / CharHeight);
      assert |TrimFrom(r, x0, y0, k)| / CharHeight == |rest| / CharHeight + 1;
    }
  }

  /** A retained, non-blank column `k` in front of the retained columns from `k + 1` on. */
  lemma RetainedCons(r: Raster, x0: nat, y0: nat, k: nat, rest: seq<Pixel>, m: nat)
    requires CellFits(r, x0, y0) && k < CharWidth && !IsBlank(CellColumn(r, x0, y0, k))
    requires RetainedColumns(r, x0, y0, k + 1, rest, m)
    ensures RetainedColumns(r, x0, y0, k, CellColumn(r, x0, y0, k) + rest, m + 1)
  {
    var col := CellColumn(r, x0, y0, k);
    var t := col + rest;
    assert |t| == (m + 1) * CharHeight;
    forall j | 0 <= j < m + 1
      ensures ColumnOf(t, j) == CellColumn(r, x0, y0, k + j)
      ensures !IsBlank(CellColumn(r, x0, y0, k + j))
    {
      if j == 0 {
        assert ColumnOf(t, 0) == col;
      } else {
        ColumnOfTail(col, rest, j);
        assert k + 1 + (j - 1) == k + j;
      }
    }
  }

  /** Past the first column, the columns of `col + rest` are those of `rest`. */
  lemma ColumnOfTail(col: seq<Pixel>, rest: seq<Pixel>, j: nat)
    requires |col| == CharHeight && 0 < j && (j + 1) * CharHeight <= |col| + |rest|
    ensures ColumnOf(col + rest, j) == ColumnOf(rest, j - 1)
  {
    assert (j - 1) * CharHeight == j * CharHeight - CharHeight;
  }

  /** The trimmed cell holds at most the cell's 25 columns of 25 pixels. */
  lemma TrimBound(r: Raster, x0: nat, y0: nat)
    requires CellFits(r, x0, y0)
    ensures |Trim(r, x0, y0)| <= CharWidth * CharHeight
  {
    TrimFromShape(r, x0, y0, 0);
    ColumnsBound(|Trim(r, x0, y0)|, |Trim(r, x0, y0)| / CharHeight);
  }

  /** At most 25 columns of 25 pixels each. */
  lemma ColumnsBound(n: nat, m: nat)
    requires n == m * CharHeight && m <= CharWidth
    ensures n <= CharWidth * CharHeight
  {
    MulMonotone(CharHeight, m, CharWidth);
  }

  /**
    The column loop of `find_character`: collect each column of the cell,
    stop at the first blank one, append the others.
   */
  method TrimCell(r: Raster, x0: nat, y0: nat) returns (pixels: seq<Pixel>)
    requires CellFits(r, x0, y0)
    ensures pixels == Trim(r, x0, y0)
  {
    pixels := [];
    for k := 0 to CharWidth
      invariant pixels + TrimFrom(r, x0, y0, k) == Trim(r, x0, y0)
    {
      var column := ReadCellColumn(r, x0, y0, k);
      if IsBlank(column) {
        break;
      }
      TrimStep(r, x0, y0, k, pixels);
      pixels := pixels + column;
    }
  }

  /** A retained column moves from the rest of the trim to the collected prefix. */
  lemma TrimStep(r: Raster, x0: nat, y0: nat, k: nat, prefix: seq<Pixel>)
    requires CellFits(r, x0, y0) && k < CharWidth && !IsBlank(CellColumn(r, x0, y0, k))
    ensures prefix + TrimFrom(r, x0, y0, k) == (prefix + CellColumn(r, x0, y0, k)) + TrimFrom(r, x0, y0, k + 1)
  {
    ConcatAssoc(prefix, CellColumn(r, x0, y0, k), TrimFrom(r, x0, y0, k + 1));
  }

  /** The row loop of `find_character`: column `k` of the cell, top to bottom. */
  method ReadCellColumn(r: Raster, x0: nat, y0: nat, k: nat) returns (column: seq<Pixel>)
    requires CellFits(r, x0, y0) && k < CharWidth
    ensures column == CellColumn(r, x0, y0, k)
  {
    column := [];
    for y := y0 to y0 + CharHeight
      invariant column == r.cols[x0 + k][y0..y]
    {
      assert r.cols[x0 + k][y0..y + 1] == r.cols[x0 + k][y0..y] + [r.cols[x0 + k][y]];
      column := column + [r.cols[x0 + k][y]];
    }
  }

  // ---------------------------------------------------------------------------
  // Pixel comparison

  function Abs(v: int): nat
  {
    if v < 0 then -v else v
  }

  /** The absolute value of the summed signed channel differences (not a sum of absolute differences). */
  function Distance(a: Pixel, b: Pixel): nat
  {
    Abs((a.r - b.r) + (a.g - b.g) + (a.b - b.b) + (a.a - b.a))
  }

  /** Opposite differences in two channels cancel: these two very different pixels are at distance 0. */
  lemma SignedChannelDifferencesCancel()
    ensures Distance(Rgba(255, 0, 0, 255), Rgba(0, 255, 0, 255)) == 0
  {
  }

  /** The largest distance at which two pixels still count as the same. */
  function Tolerance(strict: bool): nat
  {
    if strict then 5 else 10
  }

  predicate IsCommon(a: Pixel, b: Pixel, strict: bool)
  {
    Distance(a, b) <= Tolerance(strict)
  }

  /** The number of positions below `n` where `a` and `b` hold pixels within tolerance. */
  function CommonCount(a: seq<Pixel>, b: seq<Pixel>, strict: bool, n: nat): nat
    requires n <= |a| && n <= |b|
  {
    if n == 0 then 0
    else CommonCount(a, b, strict, n - 1) + (if IsCommon(a[n - 1], b[n - 1], strict) then 1 else 0)
  }

  /** At most every position is common, and every position is exactly when all are within tolerance. */
  lemma {:induction false} CommonCountBounds(a: seq<Pixel>, b: seq<Pixel>, strict: bool, n: nat)
    requires n <= |a| && n <= |b|
    ensures CommonCount(a, b, strict, n) <= n
    ensures CommonCount(a, b, strict, n) == n <==> forall i :: 0 <= i < n ==> IsCommon(a[i], b[i], strict)
  {
    if n > 0 {
      CommonCountBounds(a, b, strict, n - 1);
    }
  }

  /** The `commun_pixel` loop. */
  method CountCommon(a: seq<Pixel>, b: seq<Pixel>, strict: bool) returns (common: nat)
    requires |a| == |b|
    ensures common == CommonCount(a, b, strict, |a|)
  {
    common := 0;
    for i := 0 to |a|
      invariant common == CommonCount(a, b, strict, i)
    {
      var (p, q) := (a[i], b[i]);
      var diff := Abs((p.r - q.r) + (p.g - q.g) + (p.b - q.b) + (p.a - q.a));
      if (strict && diff <= 5) || (!strict && diff <= 10) {
        common := common + 1;
      }
    }
  }

  /** The integer percentage of positions within tolerance (`commun_pixel * 100 / len`). */
  function MatchPercent(a: seq<Pixel>, b: seq<Pixel>, strict: bool): nat
    requires |a| == |b| > 0
  {
    CommonCount(a, b, strict, |a|) * 100 / |a|
  }

  /** The percentage is at most 100, and 100 exactly when every position is within tolerance. */
  lemma MatchPercentBounds(a: seq<Pixel>, b: seq<Pixel>, strict: bool)
    requires |a| == |b| > 0
    ensures MatchPercent(a, b, strict) <= 100
    ensures MatchPercent(a, b, strict) == 100 <==> forall i :: 0 <= i < |a| ==> IsCommon(a[i], b[i], strict)
  {
    CommonCountBounds(a, b, strict, |a|);
    PercentBounds(CommonCount(a, b, strict, |a|), |a|);
  }

  /** The percentage `find_character` computes for a glyph of the cell's length. */
  method ScoreGlyph(glyph: seq<Pixel>, cell: seq<Pixel>, strict: bool) returns (percent: nat)
    requires |glyph| == |cell| > 0
    ensures percent == MatchPercent(glyph, cell, strict)
  {
    var common := CountCommon(glyph, cell, strict);
    percent := (common * 100) / |glyph|;
  }

  lemma PercentBounds(common: nat, n: nat)
    requires 0 < n && common <= n
    ensures common * 100 / n <= 100
    ensures common * 100 / n == 100 <==> common == n
  {
    if common == n {
      ExactQuotient(n, 100);
    } else {
      assert common * 100 < n * 100;
      QuotientBelow(common * 100, n, 100);
    }
  }

  /** A sequence compared with itself scores 100 in either mode. */
  lemma SelfMatchIsFull(a: seq<Pixel>, strict: bool)
    requires |a| > 0
    ensures MatchPercent(a, a, strict) == 100
  {
    forall i | 0 <= i < |a| ensures IsCommon(a[i], a[i], strict) {
      assert Distance(a[i], a[i]) == 0;
    }
    MatchPercentBounds(a, a, strict);
  }

  // ---------------------------------------------------------------------------
  // Choosing among the guesses

  /** One scored candidate: its letter and its match percentage. */
  datatype Guess = Guess(letter: char, percent: nat)

  /**
    `max_by` on the percentages: a left fold that keeps the running maximum
    only while it is strictly greater than the next guess, so among equal
    maxima the last one wins.
   */
  function LastMax(gs: seq<Guess>): (best: Option<Guess>)
    ensures best.None? <==> gs == []
    ensures best.Some? ==> best.value in gs
    ensures best.Some? ==> forall j :: 0 <= j < |gs| ==> gs[j].percent <= best.value.percent
  {
    if gs == [] then None
    else if |gs| == 1 then Some(gs[0])
    else
      var acc, next := LastMax(gs[..|gs| - 1]).value, gs[|gs| - 1];
      assert forall j :: 0 <= j < |gs| - 1 ==> gs[j] == gs[..|gs| - 1][j];
      Some(if acc.percent > next.percent then acc else next)
  }

  /** Position k holds a maximum percentage and every later position scores strictly less. */
  predicate IsLastMaximum(gs: seq<Guess>, k: nat)
  {
    k < |gs| &&
    (forall j :: 0 <= j < |gs| ==> gs[j].percent <= gs[k].percent) &&
    (forall j :: k < j < |gs| ==> gs[j].percent < gs[k].percent)
  }

  /** `LastMax` returns exactly the last maximum: the tie-break keeps the later guess. */
  lemma {:induction false} LastMaxIsLastMaximum(gs: seq<Guess>, k: nat)
    requires IsLastMaximum(gs, k)
    ensures LastMax(gs) == Some(gs[k])
  {
    if |gs| > 1 {
      var init := gs[..|gs| - 1];
      if k < |gs| - 1 {
        assert IsLastMaximum(init, k);
        LastMaxIsLastMaximum(init, k);
      } else {
        var acc := LastMax(init).value;
        var j :| 0 <= j < |init| && init[j] == acc;
        assert gs[j] == acc;
      }
    }
  }

  /** Acceptance threshold: 100 in strict mode, 70 in loose mode. */
  predicate Accepted(percent: nat, strict: bool)
  {
    (strict && percent >= 100) || (!strict && percent >= 70)
  }

  // ---------------------------------------------------------------------------
  // Classifying a trimmed cell against the trimmed reference glyphs

  /** Glyph `j` can be scored: its trimmed length equals the (non-empty) cell's. */
  predicate IsCandidate(cell: seq<Pixel>, trims: seq<seq<Pixel>>, j: nat)
  {
    j < |trims| && |trims[j]| == |cell| && |cell| > 0
  }

  function Percent(cell: seq<Pixel>, trims: seq<seq<Pixel>>, strict: bool, j: nat): nat
    requires IsCandidate(cell, trims, j)
  {
    MatchPercent(trims[j], cell, strict)
  }

  /** The guess pushed for candidate glyph `j`, whose letter is `letters[j]`. */
  function GuessOf(cell: seq<Pixel>, trims: seq<seq<Pixel>>, letters: string, strict: bool, j: nat): Guess
    requires IsCandidate(cell, trims, j) && j < |letters|
  {
    Guess(letters[j], Percent(cell, trims, strict, j))
  }

  /** The guesses pushed for glyphs `0 .. n-1`, in alphabet order. */
  function Guesses(cell: seq<Pixel>, trims: seq<seq<Pixel>>, letters: string, strict: bool, n: nat): seq<Guess>
    requires n <= |trims| <= |letters|
  {
    if n == 0 then []
    else if IsCandidate(cell, trims, n - 1) then
      Guesses(cell, trims, letters, strict, n - 1) + [GuessOf(cell, trims, letters, strict, n - 1)]
    else Guesses(cell, trims, letters, strict, n - 1)
  }

  /**
    The result of `find_character` given the trimmed cell and the trimmed
    blurred glyphs: a blank cell meeting a blank glyph is a space; otherwise
    the last best guess, if it clears the threshold.
   */
  function ClassifyTrimmed(cell: seq<Pixel>, trims: seq<seq<Pixel>>, strict: bool): Option<char>
    requires |trims| <= |Alphabet|
  {
    if cell == [] && [] in trims then Some(' ')
    else
      match LastMax(Guesses(cell, trims, Alphabet, strict, |trims|))
      case None => None
      case Some(g) => if Accepted(g.percent, strict) then Some(g.letter) else None
  }

  /** Among the candidates below n, k scores highest and all later ones score strictly less. */
  predicate IsLastBest(cell: seq<Pixel>, trims: seq<seq<Pixel>>, strict: bool, n: nat, k: nat)
  {
    k < n && IsCandidate(cell, trims, k) &&
    (forall j :: 0 <= j < n && IsCandidate(cell, trims, j) ==>
       Percent(cell, trims, strict, j) <= Percent(cell, trims, strict, k)) &&
    (forall j :: k < j < n && IsCandidate(cell, trims, j) ==>
       Percent(cell, trims, strict, j) < Percent(cell, trims, strict, k))
  }

  /** Without candidates among glyphs `0 .. n-1` nothing is pushed. */
  lemma {:induction false} NoCandidateNoGuess(cell: seq<Pixel>, trims: seq<seq<Pixel>>, letters: string, strict: bool, n: nat)
    requires n <= |trims| <= |letters|
    requires forall j :: 0 <= j < n ==> !IsCandidate(cell, trims, j)
    ensures Guesses(cell, trims, letters, strict, n) == []
  {
    if n > 0 {
      NoCandidateNoGuess(cell, trims, letters, strict, n - 1);
    }
  }

  /** The fold step of `LastMax` on one more guess. */
  lemma LastMaxSnoc(gs: seq<Guess>, g: Guess)
    requires gs != []
    ensures LastMax(gs + [g]) ==
              Some(if LastMax(gs).value.percent > g.percent then LastMax(gs).value else g)
  {
    assert (gs + [g])[..|gs + [g]| - 1] == gs;
  }

  /**
    The selection over the guesses of glyphs `0 .. n-1` is the guess of the
    last best-scoring candidate glyph.
   */
  lemma GuessesSelect(cell: seq<Pixel>, trims: seq<seq<Pixel>>, letters: string, strict: bool, n: nat)
    requires n <= |trims| <= |letters|
    requires exists j :: 0 <= j < n && IsCandidate(cell, trims, j)
    ensures exists k: nat :: IsLastBest(cell, trims, strict, n, k) &&
              LastMax(Guesses(cell, trims, letters, strict, n)) == Some(GuessOf(cell, trims, letters, strict, k))
  {
    var k := SelectedGlyph(cell, trims, letters, strict, n);
  }

  /** The last best candidate below `n`, with the selection landing on its guess. */
  lemma {:induction false} SelectedGlyph(cell: seq<Pixel>, trims: seq<seq<Pixel>>, letters: string, strict: bool, n: nat)
    returns (k: nat)
    requires n <= |trims| <= |letters|
    requires exists j :: 0 <= j < n && IsCandidate(cell, trims, j)
    ensures IsLastBest(cell, trims, strict, n, k)
    ensures LastMax(Guesses(cell, trims, letters, strict, n)) == Some(GuessOf(cell, trims, letters, strict, k))
  {
    if !IsCandidate(cell, trims, n - 1) {
      k := SelectedGlyph(cell, trims, letters, strict, n - 1);
      LastBestSkips(cell, trims, strict, n, k);
    } else if forall j :: 0 <= j < n - 1 ==> !IsCandidate(cell, trims, j) {
      k := n - 1;
      FirstCandidate(cell, trims, letters, strict, n);
    } else {
      var k0 := SelectedGlyph(cell, trims, letters, strict, n - 1);
      k := LaterCandidate(cell, trims, letters, strict, n, k0);
    }
  }

  /** A candidate after the last best so far either leaves the selection in place or takes it over. */
  lemma LaterCandidate(cell: seq<Pixel>, trims: seq<seq<Pixel>>, letters: string, strict: bool, n: nat, k0: nat)
    returns (k: nat)
    requires 0 < n <= |trims| <= |letters| && IsCandidate(cell, trims, n - 1)
    requires IsLastBest(cell, trims, strict, n - 1, k0)
    requires LastMax(Guesses(cell, trims, letters, strict, n - 1)) == Some(GuessOf(cell, trims, letters, strict, k0))
    ensures IsLastBest(cell, trims, strict, n, k)
    ensures LastMax(Guesses(cell, trims, letters, strict, n)) == Some(GuessOf(cell, trims, letters, strict, k))
  {
    var prev := Guesses(cell, trims, letters, strict, n - 1);
    var g := GuessOf(cell, trims, letters, strict, n - 1);
    LastMaxSnoc(prev, g);
    if Percent(cell, trims, strict, k0) > g.percent {
      k := k0;
      LastBestKeeps(cell, trims, strict, n, k);
    } else {
      k := n - 1;
      LastBestMoves(cell, trims, strict, n, k0);
    }
  }

  /** The first candidate is the last best so far, and its guess is the only one. */
  lemma FirstCandidate(cell: seq<Pixel>, trims: seq<seq<Pixel>>, letters: string, strict: bool, n: nat)
    requires 0 < n <= |trims| <= |letters| && IsCandidate(cell, trims, n - 1)
    requires forall j :: 0 <= j < n - 1 ==> !IsCandidate(cell, trims, j)
    ensures IsLastBest(cell, trims, strict, n, n - 1)
    ensures LastMax(Guesses(cell, trims, letters, strict, n)) == Some(GuessOf(cell, trims, letters, strict, n - 1))
  {
    NoCandidateNoGuess(cell, trims, letters, strict, n - 1);
    assert Guesses(cell, trims, letters, strict, n) == [GuessOf(cell, trims, letters, strict, n - 1)];
  }

  /** A glyph that is no candidate leaves the last best where it was. */
  lemma LastBestSkips(cell: seq<Pixel>, trims: seq<seq<Pixel>>, strict: bool, n: nat, k: nat)
    requires n > 0 && IsLastBest(cell, trims, strict, n - 1, k) && !IsCandidate(cell, trims, n - 1)
    ensures IsLastBest(cell, trims, strict, n, k)
  {
  }

  /** A later candidate scoring strictly less leaves the last best where it was. */
  lemma LastBestKeeps(cell: seq<Pixel>, trims: seq<seq<Pixel>>, strict: bool, n: nat, k: nat)
    requires n > 0 && IsLastBest(cell, trims, strict, n - 1, k) && IsCandidate(cell, trims, n - 1)
    requires Percent(cell, trims, strict, n - 1) < Percent(cell, trims, strict, k)
    ensures IsLastBest(cell, trims, strict, n, k)
  {
  }

  /** A later candidate scoring at least as much becomes the last best. */
  lemma LastBestMoves(cell: seq<Pixel>, trims: seq<seq<Pixel>>, strict: bool, n: nat, k: nat)
    requires n > 0 && IsLastBest(cell, trims, strict, n - 1, k) && IsCandidate(cell, trims, n - 1)
    requires Percent(cell, trims, strict, n - 1) >= Percent(cell, trims, strict, k)
    ensures IsLastBest(cell, trims, strict, n, n - 1)
  {
  }

  /** There is at most one last best candidate. */
  lemma LastBestUnique(cell: seq<Pixel>, trims: seq<seq<Pixel>>, strict: bool, n: nat, k: nat, k': nat)
    requires IsLastBest(cell, trims, strict, n, k) && IsLastBest(cell, trims, strict, n, k')
    ensures k == k'
  {
  }

  /**
    A blank cell is a space exactly when some glyph is blank too, in either
    mode, and is otherwise unclassified: no glyph of another length is scored.
   */
  lemma BlankCell(trims: seq<seq<Pixel>>, strict: bool)
    requires |trims| <= |Alphabet|
    ensures ClassifyTrimmed([], trims, strict) == if [] in trims then Some(' ') else None
  {
    NoCandidateNoGuess([], trims, Alphabet, strict, |trims|);
  }

  /**
    For a non-empty cell the answer is the letter of the last best-scoring
    glyph of equal trimmed length, if its percentage clears the threshold, and
    nothing otherwise.
   */
  lemma ClassifyPicksLastBest(cell: seq<Pixel>, trims: seq<seq<Pixel>>, strict: bool, k: nat)
    requires |trims| <= |Alphabet|
    requires IsLastBest(cell, trims, strict, |trims|, k)
    ensures ClassifyTrimmed(cell, trims, strict) ==
              if Accepted(Percent(cell, trims, strict, k), strict) then Some(Alphabet[k]) else None
  {
    assert IsCandidate(cell, trims, k);
    GuessesSelect(cell, trims, Alphabet, strict, |trims|);
    var k': nat :| IsLastBest(cell, trims, strict, |trims|, k') &&
              LastMax(Guesses(cell, trims, Alphabet, strict, |trims|)) == Some(GuessOf(cell, trims, Alphabet, strict, k'));
    LastBestUnique(cell, trims, strict, |trims|, k, k');
  }

  /** A non-empty cell that no glyph matches in length is unclassified. */
  lemma NoCandidateIsUnclassified(cell: seq<Pixel>, trims: seq<seq<Pixel>>, strict: bool)
    requires |trims| <= |Alphabet| && cell != []
    requires forall j :: 0 <= j < |trims| ==> |trims[j]| != |cell|
    ensures ClassifyTrimmed(cell, trims, strict) == None
  {
    NoCandidateNoGuess(cell, trims, Alphabet, strict, |trims|);
  }

  /**
    Whatever a non-empty cell is classified as is the letter of its last
    best-scoring glyph, and that glyph's percentage clears the threshold.
   */
  lemma ClassifiedIsLastBest(cell: seq<Pixel>, trims: seq<seq<Pixel>>, strict: bool, ch: char)
    requires |trims| <= |Alphabet| && cell != []
    requires ClassifyTrimmed(cell, trims, strict) == Some(ch)
    ensures exists k: nat :: IsLastBest(cell, trims, strict, |trims|, k) && Alphabet[k] == ch &&
              Accepted(Percent(cell, trims, strict, k), strict)
  {
    if forall j :: 0 <= j < |trims| ==> !IsCandidate(cell, trims, j) {
      NoCandidateNoGuess(cell, trims, Alphabet, strict, |trims|);
      assert false;
    }
    GuessesSelect(cell, trims, Alphabet, strict, |trims|);
  }

  /** Every character the classifier answers with is one of the alphabet. */
  lemma ClassifiedInAlphabet(cell: seq<Pixel>, trims: seq<seq<Pixel>>, strict: bool, ch: char)
    requires |trims| <= |Alphabet|
    requires ClassifyTrimmed(cell, trims, strict) == Some(ch)
    ensures ch in Alphabet
  {
    AlphabetShape();
    if cell == [] {
      if [] !in trims {
        NoCandidateNoGuess(cell, trims, Alphabet, strict, |trims|);
        assert false;
      }
    } else {
      ClassifiedIsLastBest(cell, trims, strict, ch);
    }
  }

  /** In strict mode an accepted glyph matches every pixel of the cell within distance 5. */
  lemma StrictMatchIsExact(cell: seq<Pixel>, trims: seq<seq<Pixel>>, ch: char)
    requires |trims| <= |Alphabet| && cell != []
    requires ClassifyTrimmed(cell, trims, true) == Some(ch)
    ensures exists k :: 0 <= k < |trims| && |trims[k]| == |cell| && Alphabet[k] == ch &&
              forall i :: 0 <= i < |cell| ==> Distance(trims[k][i], cell[i]) <= 5
  {
    ClassifiedIsLastBest(cell, trims, true, ch);
    var k: nat :| IsLastBest(cell, trims, true, |trims|, k) && Alphabet[k] == ch &&
             Accepted(Percent(cell, trims, true, k), true);
    MatchPercentBounds(trims[k], cell, true);
    assert forall i :: 0 <= i < |cell| ==> IsCommon(trims[k][i], cell[i], true);
  }

  /** A glyph whose trimmed pixels equal the cell's makes the cell classified, in either mode. */
  lemma ExactGlyphIsAccepted(cell: seq<Pixel>, trims: seq<seq<Pixel>>, strict: bool, k: nat)
    requires |trims| <= |Alphabet| && cell != []
    requires k < |trims| && trims[k] == cell
    ensures ClassifyTrimmed(cell, trims, strict).Some?
  {
    SelfMatchIsFull(cell, strict);
    assert IsCandidate(cell, trims, k);
    GuessesSelect(cell, trims, Alphabet, strict, |trims|);
    var k': nat :| IsLastBest(cell, trims, strict, |trims|, k') &&
              LastMax(Guesses(cell, trims, Alphabet, strict, |trims|)) == Some(GuessOf(cell, trims, Alphabet, strict, k'));
    assert Percent(cell, trims, strict, k') >= Percent(cell, trims, strict, k) == 100;
  }

  // ---------------------------------------------------------------------------
  // find_character over the image, with the Gaussian blur as a parameter

  /** The Gaussian blur of the image library, at a strength given in tenths of sigma. */
  type Gaussian = (Raster, nat) -> Raster

  /** The blur returns a raster of the size it was given. */
  ghost predicate PreservesSize(gauss: Gaussian)
  {
    forall g: Raster, s: nat :: g.Valid() ==>
      gauss(g, s).Valid() && gauss(g, s).width == g.width && gauss(g, s).height == g.height
  }

  /** Every reference glyph covers at least one cell. */
  predicate GlyphsFit(glyphs: seq<Raster>)
  {
    forall i :: 0 <= i < |glyphs| ==> CellFits(glyphs[i], 0, 0)
  }

  /** The trimmed reference glyphs, each blurred at strength `sigma`. */
  function BlurredGlyphTrims(glyphs: seq<Raster>, gauss: Gaussian, sigma: nat): (trims: seq<seq<Pixel>>)
    requires GlyphsFit(glyphs) && PreservesSize(gauss)
    ensures |trims| == |glyphs|
    ensures forall i :: 0 <= i < |glyphs| ==> trims[i] == Trim(gauss(glyphs[i], sigma), 0, 0)
  {
    seq(|glyphs|, i requires 0 <= i < |glyphs| => Trim(gauss(glyphs[i], sigma), 0, 0))
  }

  /**
    Every blurred glyph is trimmed like a cell: its trim is a whole number of
    the blurred glyph's own columns from the left edge, none of them blank,
    the next column (if any) is blank, and it holds at most 25·25 pixels.
   */
  lemma BlurredGlyphTrimShape(glyphs: seq<Raster>, gauss: Gaussian, sigma: nat, i: nat)
    requires GlyphsFit(glyphs) && PreservesSize(gauss) && i < |glyphs|
    ensures var g, t := gauss(glyphs[i], sigma), BlurredGlyphTrims(glyphs, gauss, sigma)[i];
            CellFits(g, 0, 0) &&
            RetainedColumns(g, 0, 0, 0, t, |t| / CharHeight) &&
            (|t| / CharHeight < CharWidth ==> IsBlank(CellColumn(g, 0, 0, |t| / CharHeight))) &&
            |t| <= CharWidth * CharHeight
  {
    var g := gauss(glyphs[i], sigma);
    assert CellFits(g, 0, 0);
    GlyphTrimShape(g);
    assert BlurredGlyphTrims(glyphs, gauss, sigma)[i] == Trim(g, 0, 0);
  }

  /** The trim of a raster's top-left cell, as `BlurredGlyphTrimShape` states it. */
  lemma GlyphTrimShape(g: Raster)
    requires CellFits(g, 0, 0)
    ensures var t := Trim(g, 0, 0);
            RetainedColumns(g, 0, 0, 0, t, |t| / CharHeight) &&
            (|t| / CharHeight < CharWidth ==> IsBlank(CellColumn(g, 0, 0, |t| / CharHeight))) &&
            |t| <= CharWidth * CharHeight
  {
    TrimFromShape(g, 0, 0, 0);
    TrimBound(g, 0, 0);
  }

  /** Cell (lid, cid) lies inside the image. */
  predicate CellInImage(img: Raster, lid: nat, cid: nat)
  {
    CellFits(img, cid * CharWidth, lid * CharHeight)
  }

  /** What `find_character(lid, cid, image, glyphs, sigma, strict)` returns. */
  function Classify(img: Raster, lid: nat, cid: nat, glyphs: seq<Raster>, gauss: Gaussian,
                    sigma: nat, strict: bool): Option<char>
    requires CellInImage(img, lid, cid) && |glyphs| <= |Alphabet| && GlyphsFit(glyphs) && PreservesSize(gauss)
  {
    ClassifyTrimmed(Trim(img, cid * CharWidth, lid * CharHeight), BlurredGlyphTrims(glyphs, gauss, sigma), strict)
  }

  /** Whatever `find_character` reads from a cell is a character of the alphabet. */
  lemma ClassifyInAlphabet(img: Raster, lid: nat, cid: nat, glyphs: seq<Raster>, gauss: Gaussian,
                           sigma: nat, strict: bool, ch: char)
    requires CellInImage(img, lid, cid) && |glyphs| <= |Alphabet| && GlyphsFit(glyphs) && PreservesSize(gauss)
    requires Classify(img, lid, cid, glyphs, gauss, sigma, strict) == Some(ch)
    ensures ch in Alphabet
  {
    ClassifiedInAlphabet(Trim(img, cid * CharWidth, lid * CharHeight), BlurredGlyphTrims(glyphs, gauss, sigma), strict, ch);
  }

  /**
    `find_character`: trim the cell, then score every glyph blurred at `sigma`,
    returning a space at once when a blank glyph meets a blank cell.
   */
  method FindCharacter(lid: nat, cid: nat, img: Raster, glyphs: seq<Raster>, gauss: Gaussian,
                       sigma: nat, strict: bool) returns (found: Option<char>)
    requires CellInImage(img, lid, cid) && |glyphs| <= |Alphabet| && GlyphsFit(glyphs) && PreservesSize(gauss)
    ensures found == Classify(img, lid, cid, glyphs, gauss, sigma, strict)
  {
    var cellPixels := TrimCell(img, cid * CharWidth, lid * CharHeight);
    var blank, guess := ScoreGlyphs(cellPixels, glyphs, gauss, sigma, strict, Alphabet);
    if blank {
      return Some(' ');
    }
    found := Choose(guess, cellPixels, BlurredGlyphTrims(glyphs, gauss, sigma), strict);
  }

  /**
    The glyph loop of `find_character`, with glyph `j` standing for
    `letters[j]`: it stops as soon as a blank glyph meets a blank cell, and
    otherwise pushes the guess of every glyph of the cell's trimmed length.
   */
  method ScoreGlyphs(cellPixels: seq<Pixel>, glyphs: seq<Raster>, gauss: Gaussian, sigma: nat, strict: bool,
                     letters: string) returns (blank: bool, guess: seq<Guess>)
    requires |glyphs| <= |letters| && GlyphsFit(glyphs) && PreservesSize(gauss)
    ensures var trims := BlurredGlyphTrims(glyphs, gauss, sigma);
            if cellPixels == [] && [] in trims then blank
            else !blank && guess == Guesses(cellPixels, trims, letters, strict, |trims|)
  {
    ghost var trims := BlurredGlyphTrims(glyphs, gauss, sigma);
    guess := [];
    for chId := 0 to |glyphs|
      invariant guess == Guesses(cellPixels, trims, letters, strict, chId)
      invariant cellPixels == [] ==> forall j :: 0 <= j < chId ==> trims[j] != []
    {
      var glyphPixels := TrimGlyph(glyphs, gauss, sigma, chId);
      if glyphPixels == [] && cellPixels == [] {
        assert trims[chId] in trims;
        return true, guess;
      }
      guess := PushGuess(guess, cellPixels, glyphPixels, trims, strict, chId, letters);
    }
    assert cellPixels == [] ==> [] !in trims;
    blank := false;
  }

  /** The glyph `chId` blurred at `sigma`, trimmed like a cell. */
  method TrimGlyph(glyphs: seq<Raster>, gauss: Gaussian, sigma: nat, chId: nat) returns (glyphPixels: seq<Pixel>)
    requires GlyphsFit(glyphs) && PreservesSize(gauss) && chId < |glyphs|
    ensures glyphPixels == BlurredGlyphTrims(glyphs, gauss, sigma)[chId]
  {
    var blurred := gauss(glyphs[chId], sigma);
    glyphPixels := TrimCell(blurred, 0, 0);
  }

  /** One glyph of the scoring loop: a glyph of the cell's trimmed length pushes its guess. */
  method PushGuess(guess: seq<Guess>, cellPixels: seq<Pixel>, glyphPixels: seq<Pixel>,
                   ghost trims: seq<seq<Pixel>>, strict: bool, chId: nat, letters: string)
    returns (guess': seq<Guess>)
    requires chId < |trims| <= |letters| && trims[chId] == glyphPixels
    requires !(glyphPixels == [] && cellPixels == [])
    requires guess == Guesses(cellPixels, trims, letters, strict, chId)
    ensures guess' == Guesses(cellPixels, trims, letters, strict, chId + 1)
  {
    guess' := guess;
    if |glyphPixels| == |cellPixels| {
      var matchPercent := ScoreGlyph(glyphPixels, cellPixels, strict);
      guess' := guess + [Guess(letters[chId], matchPercent)];
    }
  }

  /** The end of `find_character`: the last best guess, if it clears the threshold. */
  method Choose(guess: seq<Guess>, cellPixels: seq<Pixel>, ghost trims: seq<seq<Pixel>>, strict: bool)
    returns (found: Option<char>)
    requires |trims| <= |Alphabet| && guess == Guesses(cellPixels, trims, Alphabet, strict, |trims|)
    requires cellPixels == [] ==> [] !in trims
    ensures found == ClassifyTrimmed(cellPixels, trims, strict)
  {
    var possibleGuess := LastMax(guess);
    if possibleGuess.Some? && Accepted(possibleGuess.value.percent, strict) {
      return Some(possibleGuess.value.letter);
    }
    return None;
  }
}
