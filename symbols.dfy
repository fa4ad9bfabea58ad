/**
 * The tagged-markup pattern table `tpSym` and TempoText::duration2tempoTextString,
 * which renders a duration as `<sym>` tags for insertion into a tempo text.
 */
module Symbols {
  import opened Wrappers
  import opened Durations
  import Glyphs

  /** A symbol name: plain text without backslashes. */
  type SymName = s: string | NoBackslash(s) witness ""

  /** One row of `tpSym`: the SMuFL name of the note symbol, the dot count, the factor column and the duration. */
  datatype SymPattern = SymPattern(sym: SymName, dots: nat, f: real, d: Duration)

  /** The SMuFL names the table uses, each checked once against the symbol-name constraint. */
  const QuarterUp: SymName := "metNoteQuarterUp"
  const HalfUp: SymName := "metNoteHalfUp"
  const EighthUp: SymName := "metNote8thUp"
  const WholeNote: SymName := "metNoteWhole"
  const SixteenthUp: SymName := "metNote16thUp"
  const ThirtySecondUp: SymName := "metNote32ndUp"
  const DoubleWholeSquare: SymName := "metNoteDoubleWholeSquare"
  const DoubleWholeNote: SymName := "metNoteDoubleWhole"
  const SixtyFourthUp: SymName := "metNote64thUp"
  const Note128thUp: SymName := "metNote128thUp"
  const Note256thUp: SymName := "metNote256thUp"
  const Note512thUp: SymName := "metNote512thUp"
  const Note1024thUp: SymName := "metNote1024thUp"

  /** The `tpSym` table, in source order, row for row parallel to the glyph table. */
  const TpSym: seq<SymPattern> := [
    SymPattern(QuarterUp, 2, 1.75 / 60.0, Duration(Quarter, 2)),
    SymPattern(QuarterUp, 1, 1.5 / 60.0, Duration(Quarter, 1)),
    SymPattern(QuarterUp, 0, 1.0 / 60.0, Duration(Quarter, 0)),
    SymPattern(HalfUp, 2, 1.75 / 30.0, Duration(Half, 2)),
    SymPattern(HalfUp, 1, 1.5 / 30.0, Duration(Half, 1)),
    SymPattern(HalfUp, 0, 1.0 / 30.0, Duration(Half, 0)),
    SymPattern(EighthUp, 2, 1.75 / 120.0, Duration(Eighth, 2)),
    SymPattern(EighthUp, 1, 1.5 / 120.0, Duration(Eighth, 1)),
    SymPattern(EighthUp, 0, 1.0 / 120.0, Duration(Eighth, 0)),
    SymPattern(WholeNote, 1, 1.5 / 15.0, Duration(Whole, 1)),
    SymPattern(WholeNote, 0, 1.0 / 15.0, Duration(Whole, 0)),
    SymPattern(SixteenthUp, 1, 1.5 / 240.0, Duration(D16th, 1)),
    SymPattern(SixteenthUp, 0, 1.0 / 240.0, Duration(D16th, 0)),
    SymPattern(ThirtySecondUp, 1, 1.5 / 480.0, Duration(D32nd, 1)),
    SymPattern(ThirtySecondUp, 0, 1.0 / 480.0, Duration(D32nd, 0)),
    SymPattern(DoubleWholeSquare, 0, 1.0 / 7.5, Duration(Breve, 0)),
    SymPattern(DoubleWholeNote, 0, 1.0 / 7.5, Duration(Breve, 0)),
    SymPattern(SixtyFourthUp, 0, 1.0 / 960.0, Duration(D64th, 0)),
    SymPattern(Note128thUp, 0, 1.0 / 1920.0, Duration(D128th, 0)),
    SymPattern(Note256thUp, 0, 1.0 / 3840.0, Duration(D256th, 0)),
    SymPattern(Note512thUp, 0, 1.0 / 7680.0, Duration(D512th, 0)),
    SymPattern(Note1024thUp, 0, 1.0 / 15360.0, Duration(D1024th, 0))
  ]

  const DotTag: string := "<sym>metAugmentationDot</sym>"
  const SpacePattern: string := "\\s*"

  function Tag(sym: string): string
  {
    "<sym>" + sym + "</sym>"
  }

  /** The pattern text of a row as the table spells it: the note tag, then per dot `\s*` and the dot tag. */
  function DotPatterns(k: nat): string
  {
    if k == 0 then "" else SpacePattern + DotTag + DotPatterns(k - 1)
  }

  function PatternText(p: SymPattern): string
  {
    Tag(p.sym) + DotPatterns(p.dots)
  }

  /** The same with each `\s*` already written as one space. */
  function SpacedDots(k: nat): string
  {
    if k == 0 then "" else " " + (DotTag + SpacedDots(k - 1))
  }

  /** QString::replace(before, after): every non-overlapping occurrence of `before`, left to right, becomes `after`. */
  function Replace(s: string, before: string, after: string): (r: string)
    requires |before| > 0
    ensures |after| == |before| ==> |r| == |s|
    decreases |s|
  {
    if |s| < |before| then s
    else if s[..|before|] == before then
      assert s[..|before|][0] == s[0];
      after + Replace(s[|before|..], before, after)
    else
      assert forall i :: 0 <= i < |s| - 1 ==> s[1..][i] == s[i + 1];
      assert [s[0]] + s[1..] == s;
      [s[0]] + Replace(s[1..], before, after)
  }

  /** A prefix without a backslash passes through the replacement of `\s*` unchanged. */
  lemma {:induction false} ReplaceSkipsPlainPrefix(a: string, b: string)
    requires NoBackslash(a)
    ensures Replace(a + b, SpacePattern, " ") == a + Replace(b, SpacePattern, " ")
    decreases |a|
  {
    if |a| > 0 {
      var s := a + b;
      assert s[0] == a[0] != '\\';
      if |s| < |SpacePattern| {
        assert |b| < |SpacePattern|;
      } else {
        assert s[..|SpacePattern|] != SpacePattern by {
          assert s[..|SpacePattern|][0] != SpacePattern[0];
        }
        assert s[1..] == a[1..] + b;
        assert NoBackslash(a[1..]) by {
          forall i | 0 <= i < |a| - 1 ensures a[1..][i] != '\\' { assert a[1..][i] == a[i + 1]; }
        }
        ReplaceSkipsPlainPrefix(a[1..], b);
        assert [a[0]] + a[1..] == a;
      }
    } else {
      assert a + b == b;
    }
  }

  predicate NoBackslash(s: string)
  {
    forall i :: 0 <= i < |s| ==> s[i] != '\\'
  }

  /** Replacing `\s*` by a space in the dot patterns yields " " + dot tag per dot. */
  lemma {:induction false} RenderedDotPatterns(k: nat)
    ensures Replace(DotPatterns(k), SpacePattern, " ") == SpacedDots(k)
    decreases k
  {
    if k > 0 {
      var rest := DotTag + DotPatterns(k - 1);
      assert DotPatterns(k) == SpacePattern + rest;
      ReplaceAtPattern(rest);
      DotTagIsPlain();
      ReplaceSkipsPlainPrefix(DotTag, DotPatterns(k - 1));
      RenderedDotPatterns(k - 1);
      assert Replace(rest, SpacePattern, " ") == DotTag + SpacedDots(k - 1);
    }
  }

  lemma DotTagIsPlain()
    ensures NoBackslash(DotTag)
  {
  }

  /** A `\s*` at the front becomes one space, and the replacement goes on after it. */
  lemma ReplaceAtPattern(rest: string)
    ensures Replace(SpacePattern + rest, SpacePattern, " ") == " " + Replace(rest, SpacePattern, " ")
  {
    assert (SpacePattern + rest)[..|SpacePattern|] == SpacePattern;
    assert (SpacePattern + rest)[|SpacePattern|..] == rest;
  }

  /** Replacing `\s*` by a space in a row's pattern text yields its note tag followed by " " + dot tag per dot. */
  lemma RenderedPattern(p: SymPattern)
    ensures Replace(PatternText(p), SpacePattern, " ") == Tag(p.sym) + SpacedDots(p.dots)
  {
    assert NoBackslash(Tag(p.sym));
    ReplaceSkipsPlainPrefix(Tag(p.sym), DotPatterns(p.dots));
    RenderedDotPatterns(p.dots);
  }

  /** The first row of `tpSym` whose duration equals d. */
  function FirstSymRow(d: Duration, k: nat): (r: Option<nat>)
    requires k <= |TpSym|
    ensures r.Some? ==> k <= r.value < |TpSym| && TpSym[r.value].d == d
    ensures r.Some? ==> forall j :: k <= j < r.value ==> TpSym[j].d != d
    ensures r.None? ==> forall j :: k <= j < |TpSym| ==> TpSym[j].d != d
    decreases |TpSym| - k
  {
    if k == |TpSym| then None
    else if TpSym[k].d == d then Some(k)
    else FirstSymRow(d, k + 1)
  }

  /**
   * What duration2tempoTextString returns: the pattern of the first row with
   * an equal duration, each `\s*` rewritten to one space; "" when no row has it.
   */
  function TempoTextString(d: Duration): (r: string)
    ensures r == "" <==> FirstSymRow(d, 0).None?
  {
    match FirstSymRow(d, 0)
    case None => ""
    case Some(e) =>
      RenderedPattern(TpSym[e]);
      Replace(PatternText(TpSym[e]), SpacePattern, " ")
  }

  /** duration2tempoTextString: scan `tpSym` in order and render the first row with the same duration. */
  method Duration2TempoTextString(d: Duration) returns (r: string)
    ensures r == TempoTextString(d)
    ensures r == "" <==> forall j :: 0 <= j < |TpSym| ==> TpSym[j].d != d
  {
    var k := 0;
    while k < |TpSym|
      invariant 0 <= k <= |TpSym|
      invariant forall j :: 0 <= j < k ==> TpSym[j].d != d
    {
      if TpSym[k].d == d {
        FirstSymRowIs(d, k);
        r := Replace(PatternText(TpSym[k]), SpacePattern, " ");
        RenderedPattern(TpSym[k]);
        return;
      }
      k := k + 1;
    }
    return "";
  }

  /** The first row with duration d is the one before which no row has it. */
  lemma FirstSymRowIs(d: Duration, e: nat)
    requires e < |TpSym| && TpSym[e].d == d
    requires forall j :: 0 <= j < e ==> TpSym[j].d != d
    ensures FirstSymRow(d, 0) == Some(e)
  {
    assert FirstSymRow(d, 0).Some?;
  }

  /** The rendering of any duration that has a row: its note tag and one " " + dot tag per dot, no `\s*` left. */
  lemma TempoTextStringShape(d: Duration)
    requires FirstSymRow(d, 0).Some?
    ensures TempoTextString(d) == Tag(TpSym[FirstSymRow(d, 0).value].sym) + SpacedDots(d.dots)
  {
    var e := FirstSymRow(d, 0).value;
    RenderedPattern(TpSym[e]);
    SymDotsAgree(e);
  }

  lemma SymDotsAgree(e: nat)
    requires e < |TpSym|
    ensures TpSym[e].dots == TpSym[e].d.dots
  {
  }

  /** The two tables describe the same durations, dot counts and factors, row for row. */
  lemma TablesParallel(e: nat)
    requires e < |TpSym|
    ensures |TpSym| == |Glyphs.Tp|
    ensures TpSym[e].d == Glyphs.Tp[e].d && TpSym[e].dots == Glyphs.Tp[e].dots && TpSym[e].f == Glyphs.Tp[e].f
  {
  }

  /** A breve renders as the square double-whole symbol, the first of its two rows. */
  lemma BreveRendersSquare()
    ensures TempoTextString(Duration(Breve, 0)) == Tag(DoubleWholeSquare)
  {
    var d := Duration(Breve, 0);
    forall j | 0 <= j < 15 ensures TpSym[j].d != d {
      assert TpSym[j].d.kind != Breve;
    }
    FirstSymRowIs(d, 15);
    TempoTextStringShape(d);
    assert SpacedDots(0) == "";
  }

  /** A dotted 64th has no row, so it renders as the empty string. */
  lemma Dotted64thUnrendered()
    ensures TempoTextString(Duration(D64th, 1)) == ""
  {
    var d := Duration(D64th, 1);
    forall j | 0 <= j < |TpSym| ensures TpSym[j].d != d {
      assert TpSym[j].d.kind != D64th || TpSym[j].d.dots == 0;
    }
    assert FirstSymRow(d, 0).None?;
  }

  /** A double-dotted quarter renders as the quarter tag and two dot tags, each after a single space. */
  lemma DoubleDottedQuarterRendering()
    ensures TempoTextString(Duration(Quarter, 2)) == Tag(QuarterUp) + SpacedDots(2)
    ensures SpacedDots(2) == " " + DotTag + " " + DotTag
  {
    var d := Duration(Quarter, 2);
    FirstSymRowIs(d, 0);
    TempoTextStringShape(d);
    TwoSpacedDots();
  }

  lemma TwoSpacedDots()
    ensures SpacedDots(2) == " " + DotTag + " " + DotTag
  {
    assert SpacedDots(1) == " " + DotTag + SpacedDots(0);
  }

  /**
   * Round trip through the glyph encoding: for every duration that the markup
   * table can render, the glyph text of the same row is detected as that
   * duration again.
   */
  lemma RenderableDurationsAreDetected(d: Duration)
    requires TempoTextString(d) != ""
    ensures FirstSymRow(d, 0).Some?
    ensures Glyphs.Detect(Glyphs.GlyphText(FirstSymRow(d, 0).value)).dur == d
  {
    var e := FirstSymRow(d, 0).value;
    TablesParallel(e);
    Glyphs.GlyphTextDetected(e);
  }
}
