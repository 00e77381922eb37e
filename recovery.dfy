/**
  The recovery loop of `unblur_text`: the image is read as lines of 25x25
  cells, visited line by line and left to right. Until the Gaussian blur
  strength is known, each cell triggers a calibration search that probes the
  top-left cell in strict mode at strengths 0.0, 0.1, ..., 5.0; the first
  strength that classifies it is kept for good, and every later cell is
  classified in loose mode at that strength. Strengths are counted in tenths.
 */
module Recovery {
  import opened Wrappers
  import opened Images
  import opened Classifier

  /** The last strength the calibration search tries, in tenths (5.0). */
  const MaxSigmaStep: nat := 50

  /** A successful calibration: the strength found and the character it read. */
  datatype Calibration = Calibration(step: nat, ch: char)

  /** Number of whole cell columns (`chars_count`). */
  function Chars(img: Raster): nat
  {
    img.width / CharWidth
  }

  /** Number of whole cell lines (`lines_count`). */
  function Lines(img: Raster): nat
  {
    img.height / CharHeight
  }

  /** What every call in this module demands: one reference glyph per character of the alphabet. */
  ghost predicate Setting(img: Raster, glyphs: seq<Raster>, gauss: Gaussian)
  {
    img.Valid() && |glyphs| == |Alphabet| && GlyphsFit(glyphs) && PreservesSize(gauss)
  }

  /** Every cell the loops visit lies inside the image, and then so does the top-left one. */
  lemma CellInside(img: Raster, lid: nat, cid: nat)
    requires img.Valid() && lid < Lines(img) && cid < Chars(img)
    ensures CellInImage(img, lid, cid) && CellInImage(img, 0, 0)
  {
    assert lid * CharHeight + CharHeight <= img.height;
    assert cid * CharWidth + CharWidth <= img.width;
  }

  // ---------------------------------------------------------------------------
  // Calibration search

  /** The top-left cell read in strict mode at strength `step`. */
  function Probe(img: Raster, glyphs: seq<Raster>, gauss: Gaussian, step: nat): Option<char>
    requires Setting(img, glyphs, gauss) && CellInImage(img, 0, 0)
  {
    Classify(img, 0, 0, glyphs, gauss, step, true)
  }

  /** Reading the calibration cell at a strength, in tenths. */
  type Prober = nat -> Option<char>

  /**
    The search from strength `step` on: the first strength up to 5.0 whose
    probe succeeds, with the character read, or nothing.
   */
  function Search(probe: Prober, step: nat): Option<Calibration>
    decreases MaxSigmaStep + 1 - step
  {
    if step > MaxSigmaStep then None
    else
      match probe(step)
      case Some(ch) => Some(Calibration(step, ch))
      case None => Search(probe, step + 1)
  }

  /**
    The search finds the first strength from `step` up to 5.0 whose probe
    succeeds, with the character that probe read, and finds nothing exactly
    when every probe in that range fails.
   */
  lemma {:induction false} SearchFindsFirst(probe: Prober, step: nat)
    ensures var found := Search(probe, step);
            (found.Some? ==>
               step <= found.value.step <= MaxSigmaStep && probe(found.value.step) == Some(found.value.ch) &&
               forall s :: step <= s < found.value.step ==> probe(s) == None) &&
            (found.None? <==> forall s :: step <= s <= MaxSigmaStep ==> probe(s) == None)
    decreases MaxSigmaStep + 1 - step
  {
    if step <= MaxSigmaStep && probe(step).None? {
      SearchFindsFirst(probe, step + 1);
    }
  }

  /** A probe that fails moves the search on to the next strength. */
  lemma SearchSkips(probe: Prober, step: nat)
    requires step <= MaxSigmaStep && probe(step) == None
    ensures Search(probe, step) == Search(probe, step + 1)
  {
  }

  /** The calibration cell of an image: its top-left cell, read in strict mode. */
  ghost function TopLeftProbe(img: Raster, glyphs: seq<Raster>, gauss: Gaussian): Prober
  {
    (s: nat) => if Setting(img, glyphs, gauss) && CellInImage(img, 0, 0) then Probe(img, glyphs, gauss, s) else None
  }

  /** The outcome of the calibration search `unblur_text` runs while the strength is unknown. */
  ghost function Calibrate(img: Raster, glyphs: seq<Raster>, gauss: Gaussian): Option<Calibration>
  {
    if CellInImage(img, 0, 0) then Search(TopLeftProbe(img, glyphs, gauss), 0) else None
  }

  // ---------------------------------------------------------------------------
  // The loop over the cells, for any calibration outcome and any cell reading

  /** Reading cell (lid, cid) at a strength, in tenths. */
  type CellReader = (nat, nat, nat) -> Option<char>

  /** The characters a cell adds to the result. */
  function Emit(out: Option<char>): string
  {
    if out.Some? then [out.value] else []
  }

  /**
    One cell: with a known strength, the cell itself read at it; without one,
    the calibration outcome, which also yields the strength to keep.
   */
  function Visit(cal: Option<Calibration>, loose: CellReader, sigma: Option<nat>, lid: nat, cid: nat)
    : (Option<nat>, Option<char>)
  {
    match sigma
    case Some(s) => (sigma, loose(lid, cid, s))
    case None =>
      match cal
      case Some(c) => (Some(c.step), Some(c.ch))
      case None => (None, None)
  }

  /** The characters pushed from cell (lid, cid) on, with strength state `sigma` on arrival. */
  function RecoverFrom(cal: Option<Calibration>, loose: CellReader, lines: nat, chars: nat,
                       sigma: Option<nat>, lid: nat, cid: nat): string
    requires cid <= chars
    decreases lines - lid, chars - cid
  {
    if lid >= lines then ""
    else if cid == chars then RecoverFrom(cal, loose, lines, chars, sigma, lid + 1, 0)
    else
      var next := Visit(cal, loose, sigma, lid, cid);
      Emit(next.1) + RecoverFrom(cal, loose, lines, chars, next.0, lid, cid + 1)
  }

  /** The cells from (lid, cid) on, each read at strength `s`. */
  function LooseFrom(loose: CellReader, lines: nat, chars: nat, s: nat, lid: nat, cid: nat): string
    requires cid <= chars
    decreases lines - lid, chars - cid
  {
    if lid >= lines then ""
    else if cid == chars then LooseFrom(loose, lines, chars, s, lid + 1, 0)
    else Emit(loose(lid, cid, s)) + LooseFrom(loose, lines, chars, s, lid, cid + 1)
  }

  /** Number of cells visited from (lid, cid) on. */
  function Remaining(lines: nat, chars: nat, lid: nat, cid: nat): nat
    requires cid <= chars
  {
    if lid >= lines then 0
    else (lines - lid - 1) * chars + (chars - cid)
  }

  /** From the first cell on, every cell of the grid remains. */
  lemma RemainingFromStart(lines: nat, chars: nat)
    ensures Remaining(lines, chars, 0, 0) == lines * chars
  {
    if lines > 0 {
      MulSucc(lines - 1, chars);
    }
  }

  /** At most one character is pushed per cell. */
  lemma {:induction false} RecoverLength(cal: Option<Calibration>, loose: CellReader, lines: nat, chars: nat,
                                         sigma: Option<nat>, lid: nat, cid: nat)
    requires cid <= chars
    ensures |RecoverFrom(cal, loose, lines, chars, sigma, lid, cid)| <= Remaining(lines, chars, lid, cid)
    decreases lines - lid, chars - cid
  {
    if lid >= lines {
    } else if cid == chars {
      RecoverLength(cal, loose, lines, chars, sigma, lid + 1, 0);
      if lid + 1 < lines {
        MulSucc(lines - lid - 2, chars);
      }
    } else {
      var next := Visit(cal, loose, sigma, lid, cid);
      RecoverLength(cal, loose, lines, chars, next.0, lid, cid + 1);
    }
  }

  /** Once the strength is known it never changes: every later cell is read at it. */
  lemma {:induction false} StrengthIsKept(cal: Option<Calibration>, loose: CellReader, lines: nat, chars: nat,
                                          s: nat, lid: nat, cid: nat)
    requires cid <= chars
    ensures RecoverFrom(cal, loose, lines, chars, Some(s), lid, cid) == LooseFrom(loose, lines, chars, s, lid, cid)
    decreases lines - lid, chars - cid
  {
    if lid >= lines {
    } else if cid == chars {
      StrengthIsKept(cal, loose, lines, chars, s, lid + 1, 0);
    } else {
      StrengthIsKept(cal, loose, lines, chars, s, lid, cid + 1);
    }
  }

  /** Without a calibration, no cell adds anything. */
  lemma {:induction false} UncalibratedIsEmpty(loose: CellReader, lines: nat, chars: nat, lid: nat, cid: nat)
    requires cid <= chars
    ensures RecoverFrom(None, loose, lines, chars, None, lid, cid) == ""
    decreases lines - lid, chars - cid
  {
    if lid >= lines {
    } else if cid == chars {
      UncalibratedIsEmpty(loose, lines, chars, lid + 1, 0);
    } else {
      UncalibratedIsEmpty(loose, lines, chars, lid, cid + 1);
    }
  }

  /** Every character pushed comes from the calibration or from a cell reading. */
  lemma {:induction false} RecoveredFrom(cal: Option<Calibration>, loose: CellReader, lines: nat, chars: nat,
                                         sigma: Option<nat>, lid: nat, cid: nat, ch: char)
    requires cid <= chars
    requires ch in RecoverFrom(cal, loose, lines, chars, sigma, lid, cid)
    ensures (cal.Some? && ch == cal.value.ch) || exists l: nat, c: nat, s: nat :: loose(l, c, s) == Some(ch)
    decreases lines - lid, chars - cid
  {
    if lid >= lines {
    } else if cid == chars {
      RecoveredFrom(cal, loose, lines, chars, sigma, lid + 1, 0, ch);
    } else {
      var next := Visit(cal, loose, sigma, lid, cid);
      if ch in Emit(next.1) {
        if sigma.Some? {
          assert loose(lid, cid, sigma.value) == Some(ch);
        }
      } else {
        RecoveredFrom(cal, loose, lines, chars, next.0, lid, cid + 1, ch);
      }
    }
  }

  // ---------------------------------------------------------------------------
  // The loop over the image

  /** Cell (lid, cid) read in loose mode at a strength, for the cells inside the image. */
  ghost function LooseReader(img: Raster, glyphs: seq<Raster>, gauss: Gaussian): CellReader
  {
    (lid: nat, cid: nat, s: nat) =>
      if Setting(img, glyphs, gauss) && CellInImage(img, lid, cid)
      then Classify(img, lid, cid, glyphs, gauss, s, false)
      else None
  }

  /** The text `unblur_text` returns. */
  ghost function Recover(img: Raster, glyphs: seq<Raster>, gauss: Gaussian): string
    requires Setting(img, glyphs, gauss)
  {
    RecoverFrom(Calibrate(img, glyphs, gauss), LooseReader(img, glyphs, gauss), Lines(img), Chars(img), None, 0, 0)
  }

  /** The text has at most one character per whole cell of the image. */
  lemma RecoverBound(img: Raster, glyphs: seq<Raster>, gauss: Gaussian)
    requires Setting(img, glyphs, gauss)
    ensures |Recover(img, glyphs, gauss)| <= Lines(img) * Chars(img)
  {
    RecoverLength(Calibrate(img, glyphs, gauss), LooseReader(img, glyphs, gauss), Lines(img), Chars(img), None, 0, 0);
    RemainingFromStart(Lines(img), Chars(img));
  }

  /** When no strength up to 5.0 reads the top-left cell, the result is empty. */
  lemma FailedCalibrationGivesEmpty(img: Raster, glyphs: seq<Raster>, gauss: Gaussian)
    requires Setting(img, glyphs, gauss)
    requires CellInImage(img, 0, 0) ==> forall s :: 0 <= s <= MaxSigmaStep ==> Probe(img, glyphs, gauss, s) == None
    ensures Recover(img, glyphs, gauss) == ""
  {
    if CellInImage(img, 0, 0) {
      SearchFindsFirst(TopLeftProbe(img, glyphs, gauss), 0);
    }
    UncalibratedIsEmpty(LooseReader(img, glyphs, gauss), Lines(img), Chars(img), 0, 0);
  }

  /**
    A successful calibration reads the top-left cell, the first one visited,
    in strict mode; the rest of the image is then read in loose mode at the
    strength found.
   */
  lemma CalibratedRecovery(img: Raster, glyphs: seq<Raster>, gauss: Gaussian, c: Calibration)
    requires Setting(img, glyphs, gauss) && Calibrate(img, glyphs, gauss) == Some(c)
    ensures 0 < Chars(img)
    ensures Recover(img, glyphs, gauss) ==
            [c.ch] + LooseFrom(LooseReader(img, glyphs, gauss), Lines(img), Chars(img), c.step, 0, 1)
  {
    assert 0 < Lines(img) && 0 < Chars(img);
    StrengthIsKept(Some(c), LooseReader(img, glyphs, gauss), Lines(img), Chars(img), c.step, 0, 1);
  }

  /** Every character of the recovered text is one of the alphabet. */
  lemma RecoveredInAlphabet(img: Raster, glyphs: seq<Raster>, gauss: Gaussian, ch: char)
    requires Setting(img, glyphs, gauss)
    requires ch in Recover(img, glyphs, gauss)
    ensures ch in Alphabet
  {
    var cal, loose := Calibrate(img, glyphs, gauss), LooseReader(img, glyphs, gauss);
    RecoveredFrom(cal, loose, Lines(img), Chars(img), None, 0, 0, ch);
    if cal.Some? && ch == cal.value.ch {
      SearchFindsFirst(TopLeftProbe(img, glyphs, gauss), 0);
      ClassifyInAlphabet(img, 0, 0, glyphs, gauss, cal.value.step, true, ch);
    } else {
      var l: nat, c: nat, s: nat :| loose(l, c, s) == Some(ch);
      ClassifyInAlphabet(img, l, c, glyphs, gauss, s, false, ch);
    }
  }

  // ---------------------------------------------------------------------------
  // unblur_text

  /**
    The calibration search of `unblur_text`: probe the top-left cell in strict
    mode at 0.0, 0.1, ... up to 5.0 and keep the first strength that reads it.
   */
  method SearchSigma(img: Raster, glyphs: seq<Raster>, gauss: Gaussian) returns (sigma: Option<nat>, found: Option<char>)
    requires Setting(img, glyphs, gauss) && CellInImage(img, 0, 0)
    ensures Calibrate(img, glyphs, gauss).None? ==> sigma == None && found == None
    ensures Calibrate(img, glyphs, gauss).Some? ==>
              sigma == Some(Calibrate(img, glyphs, gauss).value.step) &&
              found == Some(Calibrate(img, glyphs, gauss).value.ch)
  {
    ghost var probe := TopLeftProbe(img, glyphs, gauss);
    sigma, found := None, None;
    var searchSigma: nat := 0;
    while true
      invariant searchSigma <= MaxSigmaStep
      invariant Search(probe, searchSigma) == Calibrate(img, glyphs, gauss)
      decreases MaxSigmaStep - searchSigma
    {
      var foundChar := FindCharacter(0, 0, img, glyphs, gauss, searchSigma, true);
      if foundChar.Some? {
        sigma, found := Some(searchSigma), foundChar;
        return;
      }
      SearchSkips(probe, searchSigma);
      searchSigma := searchSigma + 1;
      if searchSigma > MaxSigmaStep {
        return;
      }
    }
  }

  /** One pass of the inner loop body: the character for cell (lid, cid) and the strength state after it. */
  method ReadCell(img: Raster, glyphs: seq<Raster>, gauss: Gaussian, sigma: Option<nat>, lid: nat, cid: nat)
    returns (sigma': Option<nat>, resultChar: Option<char>)
    requires Setting(img, glyphs, gauss) && lid < Lines(img) && cid < Chars(img)
    ensures (sigma', resultChar) ==
            Visit(Calibrate(img, glyphs, gauss), LooseReader(img, glyphs, gauss), sigma, lid, cid)
  {
    CellInside(img, lid, cid);
    match sigma {
      case Some(s) =>
        sigma' := sigma;
        resultChar := FindCharacter(lid, cid, img, glyphs, gauss, s, false);
      case None =>
        sigma', resultChar := SearchSigma(img, glyphs, gauss);
    }
  }

  /** `unblur_text` on the decoded image, given the rendered reference glyphs in alphabet order. */
  method UnblurText(img: Raster, glyphs: seq<Raster>, gauss: Gaussian) returns (result: string)
    requires Setting(img, glyphs, gauss)
    ensures result == Recover(img, glyphs, gauss)
  {
    ghost var cal, loose := Calibrate(img, glyphs, gauss), LooseReader(img, glyphs, gauss);
    result := "";
    var sigma: Option<nat> := None;
    var charsCount, linesCount := img.width / CharWidth, img.height / CharHeight;
    for lid := 0 to linesCount
      invariant result + RecoverFrom(cal, loose, linesCount, charsCount, sigma, lid, 0) == Recover(img, glyphs, gauss)
    {
      ghost var prefix := result;
      var line;
      line, sigma := ReadLine(img, glyphs, gauss, charsCount, sigma, lid);
      result := result + line;
      ConcatAssoc(prefix, line, RecoverFrom(cal, loose, linesCount, charsCount, sigma, lid + 1, 0));
    }
  }

  /**
    The inner loop of `unblur_text`: the characters of line `lid`, left to
    right, and the strength state after its last cell.
   */
  method ReadLine(img: Raster, glyphs: seq<Raster>, gauss: Gaussian, charsCount: nat, sigma0: Option<nat>, lid: nat)
    returns (line: string, sigma: Option<nat>)
    requires Setting(img, glyphs, gauss) && charsCount == Chars(img) && lid < Lines(img)
    ensures var cal, loose := Calibrate(img, glyphs, gauss), LooseReader(img, glyphs, gauss);
            line + RecoverFrom(cal, loose, Lines(img), charsCount, sigma, lid + 1, 0) ==
            RecoverFrom(cal, loose, Lines(img), charsCount, sigma0, lid, 0)
  {
    ghost var cal, loose := Calibrate(img, glyphs, gauss), LooseReader(img, glyphs, gauss);
    ghost var text := RecoverFrom(cal, loose, Lines(img), charsCount, sigma0, lid, 0);
    line, sigma := "", sigma0;
    for cid := 0 to charsCount
      invariant line + RecoverFrom(cal, loose, Lines(img), charsCount, sigma, lid, cid) == text
    {
      ghost var prefix, before := line, sigma;
      var resultChar;
      sigma, resultChar := ReadCell(img, glyphs, gauss, sigma, lid, cid);
      if resultChar.Some? {
        line := line + [resultChar.value];
      }
      CellStep(cal, loose, Lines(img), charsCount, before, lid, cid, sigma, resultChar, prefix, line, text);
    }
  }

  /** The inner loop's invariant survives one cell. */
  lemma CellStep(cal: Option<Calibration>, loose: CellReader, lines: nat, chars: nat, before: Option<nat>,
                 lid: nat, cid: nat, sigma: Option<nat>, out: Option<char>, prefix: string, result: string,
                 text: string)
    requires lid < lines && cid < chars && (sigma, out) == Visit(cal, loose, before, lid, cid)
    requires prefix + RecoverFrom(cal, loose, lines, chars, before, lid, cid) == text
    requires result == prefix + Emit(out)
    ensures result + RecoverFrom(cal, loose, lines, chars, sigma, lid, cid + 1) == text
  {
    var rest := RecoverFrom(cal, loose, lines, chars, sigma, lid, cid + 1);
    assert RecoverFrom(cal, loose, lines, chars, before, lid, cid) == Emit(out) + rest;
    ConcatAssoc(prefix, Emit(out), rest);
  }
}
