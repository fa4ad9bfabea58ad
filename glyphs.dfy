/**
 * Detection of the duration part of a tempo text (TempoText::findTempoDuration)
 * over the ordered glyph table `tp`. Glyphs are the SMuFL metronome-mark code
 * points U+ECA0..U+ECB7; each table pattern is a note glyph followed by k
 * augmentation-dot glyphs, each dot optionally preceded by white space.
 */
module Glyphs {
  import opened Wrappers
  import opened Durations

  const DoubleWhole: char := '\U{ECA0}'
  const DoubleWholeSquare: char := '\U{ECA1}'
  const WholeNote: char := '\U{ECA2}'
  const HalfUp: char := '\U{ECA3}'
  const QuarterUp: char := '\U{ECA5}'
  const EighthUp: char := '\U{ECA7}'
  const Note16thUp: char := '\U{ECA9}'
  const Note32ndUp: char := '\U{ECAB}'
  const Note64thUp: char := '\U{ECAD}'
  const Note128thUp: char := '\U{ECAF}'
  const Note256thUp: char := '\U{ECB1}'
  const Note512thUp: char := '\U{ECB3}'
  const Note1024thUp: char := '\U{ECB5}'
  const AugmentationDot: char := '\U{ECB7}'

  /**
   * One row of a pattern table: the note glyph, the number of dots, the
   * (unread) factor column, and the duration the row stands for.
   */
  datatype TempoPattern = TempoPattern(base: char, dots: nat, f: real, d: Duration)

  /** The `tp` table, in source order: dotted rows come before their shorter prefixes. */
  const Tp: seq<TempoPattern> := [
    TempoPattern(QuarterUp, 2, 1.75 / 60.0, Duration(Quarter, 2)),
    TempoPattern(QuarterUp, 1, 1.5 / 60.0, Duration(Quarter, 1)),
    TempoPattern(QuarterUp, 0, 1.0 / 60.0, Duration(Quarter, 0)),
    TempoPattern(HalfUp, 2, 1.75 / 30.0, Duration(Half, 2)),
    TempoPattern(HalfUp, 1, 1.5 / 30.0, Duration(Half, 1)),
    TempoPattern(HalfUp, 0, 1.0 / 30.0, Duration(Half, 0)),
    TempoPattern(EighthUp, 2, 1.75 / 120.0, Duration(Eighth, 2)),
    TempoPattern(EighthUp, 1, 1.5 / 120.0, Duration(Eighth, 1)),
    TempoPattern(EighthUp, 0, 1.0 / 120.0, Duration(Eighth, 0)),
    TempoPattern(WholeNote, 1, 1.5 / 15.0, Duration(Whole, 1)),
    TempoPattern(WholeNote, 0, 1.0 / 15.0, Duration(Whole, 0)),
    TempoPattern(Note16thUp, 1, 1.5 / 240.0, Duration(D16th, 1)),
    TempoPattern(Note16thUp, 0, 1.0 / 240.0, Duration(D16th, 0)),
    TempoPattern(Note32ndUp, 1, 1.5 / 480.0, Duration(D32nd, 1)),
    TempoPattern(Note32ndUp, 0, 1.0 / 480.0, Duration(D32nd, 0)),
    TempoPattern(DoubleWholeSquare, 0, 1.0 / 7.5, Duration(Breve, 0)),
    TempoPattern(DoubleWhole, 0, 1.0 / 7.5, Duration(Breve, 0)),
    TempoPattern(Note64thUp, 0, 1.0 / 960.0, Duration(D64th, 0)),
    TempoPattern(Note128thUp, 0, 1.0 / 1920.0, Duration(D128th, 0)),
    TempoPattern(Note256thUp, 0, 1.0 / 3840.0, Duration(D256th, 0)),
    TempoPattern(Note512thUp, 0, 1.0 / 7680.0, Duration(D512th, 0)),
    TempoPattern(Note1024thUp, 0, 1.0 / 15360.0, Duration(D1024th, 0))
  ]

  /** The white space `\s` matches: Qt's QChar::isSpace (tab to carriage return, space, and the Unicode separators). */
  predicate IsSpace(c: char)
  {
    c == ' ' || ('\t' <= c <= '\r') || c == '\U{0085}' || c == '\U{00A0}' || c == '\U{1680}'
    || ('\U{2000}' <= c <= '\U{200A}') || c == '\U{2028}' || c == '\U{2029}' || c == '\U{202F}'
    || c == '\U{205F}' || c == '\U{3000}'
  }

  /** The end of the run of white space starting at i (what a greedy `\s*` consumes). */
  function SkipSpace(s: string, i: nat): (j: nat)
    requires i <= |s|
    ensures i <= j <= |s|
    ensures forall k :: i <= k < j ==> IsSpace(s[k])
    ensures j < |s| ==> !IsSpace(s[j])
    decreases |s| - i
  {
    if i < |s| && IsSpace(s[i]) then SkipSpace(s, i + 1) else i
  }

  /** Where k repetitions of `\s*` followed by a dot glyph, starting at i, end; None when they do not match. */
  function DotsEnd(s: string, i: nat, k: nat): Option<nat>
    requires i <= |s|
    decreases k
  {
    if k == 0 then Some(i)
    else
      var j := SkipSpace(s, i);
      if j < |s| && s[j] == AugmentationDot then DotsEnd(s, j + 1, k - 1) else None
  }

  lemma {:induction false} DotsEndBound(s: string, i: nat, k: nat)
    requires i <= |s|
    ensures DotsEnd(s, i, k).Some? ==> i <= DotsEnd(s, i, k).value <= |s|
    decreases k
  {
    if k > 0 {
      var j := SkipSpace(s, i);
      if j < |s| && s[j] == AugmentationDot { DotsEndBound(s, j + 1, k - 1); }
    }
  }

  /** Where pattern p, matched at position i of s, ends; None when p does not match there. */
  function PatternEnd(s: string, i: nat, p: TempoPattern): (r: Option<nat>)
    ensures r.Some? ==> i < r.value <= |s|
  {
    if i < |s| && s[i] == p.base then
      DotsEndBound(s, i + 1, p.dots);
      DotsEnd(s, i + 1, p.dots)
    else None
  }

  /** QRegExp::indexIn: the leftmost position at or after `from` where p matches. */
  function IndexIn(s: string, p: TempoPattern, from: nat): (r: Option<nat>)
    requires from <= |s|
    ensures r.Some? ==> from <= r.value < |s| && PatternEnd(s, r.value, p).Some?
    ensures r.Some? ==> forall j :: from <= j < r.value ==> PatternEnd(s, j, p).None?
    ensures r.None? ==> forall j :: from <= j < |s| ==> PatternEnd(s, j, p).None?
    decreases |s| - from
  {
    if from == |s| then None
    else if PatternEnd(s, from, p).Some? then Some(from)
    else IndexIn(s, p, from + 1)
  }

  /** Row e of the table occurs somewhere in s. */
  predicate Occurs(s: string, e: nat)
    requires e < |Tp|
  {
    IndexIn(s, Tp[e], 0).Some?
  }

  /** The first table row at or after k that occurs in s. */
  function FirstOccurring(s: string, k: nat): (r: Option<nat>)
    requires k <= |Tp|
    ensures r.Some? ==> k <= r.value < |Tp| && Occurs(s, r.value)
    ensures r.Some? ==> forall j :: k <= j < r.value ==> !Occurs(s, j)
    ensures r.None? ==> forall j :: k <= j < |Tp| ==> !Occurs(s, j)
    decreases |Tp| - k
  {
    if k == |Tp| then None
    else if Occurs(s, k) then Some(k)
    else FirstOccurring(s, k + 1)
  }

  /** The first occurring row is the one before which no row occurs. */
  lemma FirstOccurringIs(s: string, e: nat)
    requires e < |Tp| && Occurs(s, e)
    requires forall j :: 0 <= j < e ==> !Occurs(s, j)
    ensures FirstOccurring(s, 0) == Some(e)
  {
    assert FirstOccurring(s, 0).Some?;
  }

  /** The three results of findTempoDuration: position (-1 when none), match length and duration. */
  datatype Detection = Detection(pos: int, len: nat, dur: Duration)

  const NotDetected: Detection := Detection(-1, 0, DefaultDuration)

  /**
   * What findTempoDuration computes: the first table row that occurs anywhere
   * in s, at its leftmost position, with the length of that match. This is not
   * the leftmost match over all rows.
   */
  function Detect(s: string): (r: Detection)
    ensures r.pos == -1 <==> forall e :: 0 <= e < |Tp| ==> !Occurs(s, e)
    ensures r.pos == -1 ==> r == NotDetected
    ensures r.pos != -1 ==> exists e :: 0 <= e < |Tp| && FirstOccurring(s, 0) == Some(e) && r.dur == Tp[e].d
                                    && r.pos == IndexIn(s, Tp[e], 0).value as int
                                    && r.pos + r.len == PatternEnd(s, r.pos, Tp[e]).value
  {
    match FirstOccurring(s, 0)
    case None => NotDetected
    case Some(e) =>
      var i := IndexIn(s, Tp[e], 0).value;
      Detection(i, PatternEnd(s, i, Tp[e]).value - i, Tp[e].d)
  }

  /** findTempoDuration: scan the table in order and stop at the first row that occurs. */
  method FindTempoDuration(s: string) returns (pos: int, len: nat, dur: Duration)
    ensures Detection(pos, len, dur) == Detect(s)
  {
    len := 0;
    dur := DefaultDuration;
    var k := 0;
    while k < |Tp|
      invariant 0 <= k <= |Tp|
      invariant forall j :: 0 <= j < k ==> !Occurs(s, j)
      invariant len == 0 && dur == DefaultDuration
    {
      var found := IndexIn(s, Tp[k], 0);
      if found.Some? {
        var i := found.value;
        len := PatternEnd(s, i, Tp[k]).value - i;
        dur := Tp[k].d;
        FirstOccurringIs(s, k);
        return i, len, dur;
      }
      k := k + 1;
    }
    return -1, len, dur;
  }

  /** Every row's pattern carries as many dot glyphs as its duration has dots. */
  lemma TableDotsAgree(e: nat)
    requires e < |Tp|
    ensures Tp[e].dots == Tp[e].d.dots
  {
  }

  /** The ordering the scan relies on: of two rows with the same note glyph, the one with more dots comes first. */
  lemma TableLongestFirst(i: nat, j: nat)
    requires i < j < |Tp|
    requires Tp[i].base == Tp[j].base
    ensures Tp[i].dots > Tp[j].dots
  {
  }

  /** Every row's note glyph is a metronome-mark glyph other than the dot, hence not white space. */
  lemma TableBasesAreNotes(e: nat)
    requires e < |Tp|
    ensures DoubleWhole <= Tp[e].base < AugmentationDot
    ensures !IsSpace(Tp[e].base)
  {
  }

  /**
   * Why the ordering matters: wherever a pattern with k + 1 dots matches,
   * its prefix with k dots matches too, so a shorter row placed first would
   * shadow the longer one.
   */
  lemma {:induction false} FewerDotsAlsoMatch(s: string, i: nat, k: nat)
    requires i <= |s|
    requires DotsEnd(s, i, k + 1).Some?
    ensures DotsEnd(s, i, k).Some?
    decreases k
  {
    if k > 0 {
      var j := SkipSpace(s, i);
      FewerDotsAlsoMatch(s, j + 1, k - 1);
    }
  }

  /** The rendering of k dots as " " + dot glyph, repeated. */
  function DotsText(k: nat): (r: string)
    ensures |r| == 2 * k
  {
    if k == 0 then [] else [' ', AugmentationDot] + DotsText(k - 1)
  }

  /** The canonical glyph text of table row e: its note glyph and its dots, each dot after one space. */
  function GlyphText(e: nat): (r: string)
    requires e < |Tp|
    ensures |r| == 1 + 2 * Tp[e].dots && r[0] == Tp[e].base
  {
    [Tp[e].base] + DotsText(Tp[e].dots)
  }

  lemma {:induction false} DotsTextChars(k: nat, i: nat)
    requires i < 2 * k
    ensures DotsText(k)[i] == (if i % 2 == 0 then ' ' else AugmentationDot)
  {
    if i >= 2 { DotsTextChars(k - 1, i - 2); }
  }

  /** Where DotsText(n) is what is left of s from i on, the dots matcher started at i finds exactly n dots. */
  lemma {:induction false} DotsEndOnDotsText(s: string, i: nat, n: nat, k: nat)
    requires i <= |s| && s[i..] == DotsText(n)
    ensures DotsEnd(s, i, k) == (if k <= n then Some(i + 2 * k) else None)
    decreases k
  {
    if k > 0 {
      if n == 0 {
        assert SkipSpace(s, i) == i;
      } else {
        DotsTextStep(s, i, n);
        DotsEndAfterDot(s, i, k);
        DotsEndOnDotsText(s, i + 2, n - 1, k - 1);
      }
    }
  }

  /** A space and a dot glyph at i are one repetition of the dots matcher. */
  lemma DotsEndAfterDot(s: string, i: nat, k: nat)
    requires 0 < k && i + 1 < |s| && s[i] == ' ' && s[i + 1] == AugmentationDot
    ensures DotsEnd(s, i, k) == DotsEnd(s, i + 2, k - 1)
  {
    assert SkipSpace(s, i + 1) == i + 1;
  }

  /** Where DotsText(n) with n > 0 is left, a space and a dot glyph come first, then DotsText(n - 1). */
  lemma DotsTextStep(s: string, i: nat, n: nat)
    requires n > 0 && i <= |s| && s[i..] == DotsText(n)
    ensures i + 1 < |s| && s[i] == ' ' && s[i + 1] == AugmentationDot && s[i + 2..] == DotsText(n - 1)
  {
    assert DotsText(n) == [' ', AugmentationDot] + DotsText(n - 1);
    assert s[i + 2..] == s[i..][2..];
  }

  /** Rows before e never occur in the glyph text of row e. */
  lemma EarlierRowsAbsent(e: nat, j: nat)
    requires j < e < |Tp|
    ensures !Occurs(GlyphText(e), j)
  {
    var s := GlyphText(e);
    if Occurs(s, j) {
      var i := IndexIn(s, Tp[j], 0).value;
      TableBasesAreNotes(j);
      if i > 0 {
        DotsTextChars(Tp[e].dots, i - 1);
        assert false;
      }
      TableLongestFirst(j, e);
      DotsEndOnDotsText(GlyphText(e), 1, Tp[e].dots, Tp[j].dots);
      assert false;
    }
  }

  /**
   * Round trip: detecting the duration in the canonical glyph text of any
   * table row finds that row's duration, at position 0, over the whole text.
   * In particular a double-dotted note is never read as its single-dotted or
   * undotted prefix.
   */
  lemma GlyphTextDetected(e: nat)
    requires e < |Tp|
    ensures Detect(GlyphText(e)) == Detection(0, |GlyphText(e)|, Tp[e].d)
  {
    var s := GlyphText(e);
    forall j | 0 <= j < e ensures !Occurs(s, j) { EarlierRowsAbsent(e, j); }
    DotsEndOnDotsText(GlyphText(e), 1, Tp[e].dots, Tp[e].dots);
    assert PatternEnd(s, 0, Tp[e]) == Some(|s|);
    assert IndexIn(s, Tp[e], 0) == Some(0);
    FirstOccurringIs(s, e);
  }

  /**
   * The detected row is never shadowed by a longer row of the same note:
   * when the scan settles on row e, no row with the same glyph and more dots
   * occurs anywhere in s.
   */
  lemma LongerRowsAbsent(s: string, e: nat, j: nat)
    requires FirstOccurring(s, 0) == Some(e)
    requires j < |Tp| && Tp[j].base == Tp[e].base && Tp[j].dots > Tp[e].dots
    ensures !Occurs(s, j)
  {
    if e <= j {
      if e < j { TableLongestFirst(e, j); }
    }
  }

  /** A quarter glyph followed by two dot glyphs (no spaces) is a double-dotted quarter, not a dotted or plain one. */
  lemma DoubleDottedQuarterDetected()
    ensures Detect([QuarterUp, AugmentationDot, AugmentationDot]) == Detection(0, 3, Duration(Quarter, 2))
  {
    var s := [QuarterUp, AugmentationDot, AugmentationDot];
    assert SkipSpace(s, 1) == 1;
    assert SkipSpace(s, 2) == 2;
    assert PatternEnd(s, 0, Tp[0]) == Some(3);
    FirstOccurringIs(s, 0);
  }

  /** A row never occurs in a text whose characters all lie below the metronome-mark glyphs. */
  lemma RowAbsentBelowGlyphs(s: string, e: nat)
    requires e < |Tp|
    requires forall i :: 0 <= i < |s| ==> s[i] < DoubleWhole
    ensures !Occurs(s, e)
  {
    TableBasesAreNotes(e);
  }

  /** A text without any note glyph, such as an equation not yet rendered, has no detected duration. */
  lemma BelowGlyphsNotDetected(s: string)
    requires forall i :: 0 <= i < |s| ==> s[i] < DoubleWhole
    ensures Detect(s) == NotDetected
  {
    forall e | 0 <= e < |Tp| ensures !Occurs(s, e) {
      RowAbsentBelowGlyphs(s, e);
    }
    assert FirstOccurring(s, 0).None?;
  }

  /** The default equation as typed is not a detected duration. */
  lemma PlainTextNotDetected()
    ensures Detect("q = 120") == NotDetected
  {
    var s := "q = 120";
    assert forall i :: 0 <= i < |s| ==> s[i] < DoubleWhole;
    BelowGlyphsNotDetected(s);
  }
}
