/**
 * The rendered equation inside a tempo text: the unanchored pattern
 * `[\[\(]?[-]+ *= *[-0-9]+[\]\)]?` that parseEquation
 * replaces and equationIndices locates, the letter-to-glyph substitution of
 * parseEquation, and the index arithmetic behind moveCursor, dragTo and
 * textIndexFromCursor.
 */
module EquationRegion {
  import opened Wrappers

  /** `[-]`: a metronome-mark glyph. */
  predicate IsGlyph(c: char) { '\U{ECA0}' <= c <= '\U{ECB7}' }

  /** `[-0-9]`: a glyph or an ASCII digit. */
  predicate IsGlyphOrDigit(c: char) { IsGlyph(c) || ('0' <= c <= '9') }

  /** The brackets around a rendered equation; unlike the equation patterns, no comma. */
  predicate IsBracketOpen(c: char) { c == '[' || c == '(' }
  predicate IsBracketClose(c: char) { c == ']' || c == ')' }

  /** The end of the run, starting at i, of characters satisfying the class (a greedy `+` or `*`). */
  function SkipGlyphs(t: string, i: nat): (j: nat)
    requires i <= |t|
    ensures i <= j <= |t|
    decreases |t| - i
  {
    if i < |t| && IsGlyph(t[i]) then SkipGlyphs(t, i + 1) else i
  }

  function SkipValue(t: string, i: nat): (j: nat)
    requires i <= |t|
    ensures i <= j <= |t|
    decreases |t| - i
  {
    if i < |t| && IsGlyphOrDigit(t[i]) then SkipValue(t, i + 1) else i
  }

  function SkipSpaces(t: string, i: nat): (j: nat)
    requires i <= |t|
    ensures i <= j <= |t|
    decreases |t| - i
  {
    if i < |t| && t[i] == ' ' then SkipSpaces(t, i + 1) else i
  }

  /** Each run is as long as it can be: every character in it is of its class, and the next is not. */
  lemma {:induction false} SkipGlyphsMaximal(t: string, i: nat)
    requires i <= |t|
    ensures var j := SkipGlyphs(t, i);
            (forall k :: i <= k < j ==> IsGlyph(t[k])) && (j < |t| ==> !IsGlyph(t[j]))
    decreases |t| - i
  {
    if i < |t| && IsGlyph(t[i]) {
      SkipGlyphsMaximal(t, i + 1);
    }
  }

  lemma {:induction false} SkipValueMaximal(t: string, i: nat)
    requires i <= |t|
    ensures var j := SkipValue(t, i);
            (forall k :: i <= k < j ==> IsGlyphOrDigit(t[k])) && (j < |t| ==> !IsGlyphOrDigit(t[j]))
    decreases |t| - i
  {
    if i < |t| && IsGlyphOrDigit(t[i]) {
      SkipValueMaximal(t, i + 1);
    }
  }

  lemma {:induction false} SkipSpacesMaximal(t: string, i: nat)
    requires i <= |t|
    ensures var j := SkipSpaces(t, i);
            (forall k :: i <= k < j ==> t[k] == ' ') && (j < |t| ==> t[j] != ' ')
    decreases |t| - i
  {
    if i < |t| && t[i] == ' ' {
      SkipSpacesMaximal(t, i + 1);
    }
  }

  /**
   * Where the equation pattern, tried at position i, ends; None when it does
   * not match there. Each part is followed by a character its class refuses,
   * so backtracking never finds a different end: the optional bracket, the
   * glyph run, the spaces, `=`, the spaces, the value run and the optional
   * closing bracket are each taken as long as they go.
   */
  function RegionEnd(t: string, i: nat): (r: Option<nat>)
    requires i <= |t|
    ensures r.Some? ==> i < r.value <= |t|
  {
    var j := if i < |t| && IsBracketOpen(t[i]) then i + 1 else i;
    var g := SkipGlyphs(t, j);
    var a := SkipSpaces(t, g);
    if g == j || a == |t| || t[a] != '=' then None
    else
      var b := SkipSpaces(t, a + 1);
      var v := SkipValue(t, b);
      if v == b then None
      else Some(if v < |t| && IsBracketClose(t[v]) then v + 1 else v)
  }

  /**
   * A match found at i has the pattern's shape: it opens with a bracket or a
   * glyph, holds an `=` preceded by glyphs (and spaces) and followed by
   * glyphs or digits, and closes with a bracket, a glyph or a digit.
   */
  lemma RegionShape(t: string, i: nat)
    requires i <= |t| && RegionEnd(t, i).Some?
    ensures var e := RegionEnd(t, i).value;
            (IsGlyph(t[i]) || (i + 1 < e && IsBracketOpen(t[i]) && IsGlyph(t[i + 1])))
            && (IsBracketClose(t[e - 1]) || IsGlyphOrDigit(t[e - 1]))
            && exists q :: i < q < e - 1 && t[q] == '='
  {
    var j := if i < |t| && IsBracketOpen(t[i]) then i + 1 else i;
    var g := SkipGlyphs(t, j);
    var a := SkipSpaces(t, g);
    var b := SkipSpaces(t, a + 1);
    var v := SkipValue(t, b);
    SkipGlyphsMaximal(t, j);
    SkipSpacesMaximal(t, g);
    SkipValueMaximal(t, b);
    assert t[a] == '=';
  }

  /** The leftmost match at or after `from`, as (start, end). */
  function FirstRegion(t: string, from: nat): (r: Option<(nat, nat)>)
    requires from <= |t|
    ensures r.Some? ==> from <= r.value.0 < r.value.1 <= |t| && RegionEnd(t, r.value.0) == Some(r.value.1)
    ensures r.Some? ==> forall k :: from <= k < r.value.0 ==> RegionEnd(t, k).None?
    ensures r.None? ==> forall k :: from <= k <= |t| ==> RegionEnd(t, k).None?
    decreases |t| - from
  {
    match RegionEnd(t, from)
    case Some(e) => Some((from, e))
    case None => if from == |t| then None else FirstRegion(t, from + 1)
  }

  /** QRegularExpression::match(...).hasMatch() on the equation pattern. */
  predicate HasRegion(t: string)
  {
    FirstRegion(t, 0).Some?
  }

  /**
   * equationIndices: the start and end of the first rendered equation, or
   * (0, 0) when there is none. (0, 0) is never a real match, so it tells
   * "no equation" apart from an equation at the start of the text.
   */
  function EquationIndices(t: string): (r: (int, int))
    ensures r == (0, 0) <==> !HasRegion(t)
    ensures HasRegion(t) ==> 0 <= r.0 < r.1 <= |t| && RegionEnd(t, r.0) == Some(r.1 as nat)
    ensures HasRegion(t) ==> forall k :: 0 <= k < r.0 ==> RegionEnd(t, k).None?
  {
    match FirstRegion(t, 0)
    case None => (0, 0)
    case Some((s, e)) => (s, e)
  }

  /**
   * QString::replace(QRegularExpression, after) from position i on: every
   * match, leftmost first and without overlap, becomes `after` (the pattern
   * has no capturing group, so `after` is inserted literally).
   */
  function ReplaceFrom(t: string, i: nat, after: string): (r: string)
    requires i <= |t|
    ensures after == [] ==> |r| <= |t| - i
    decreases |t| - i
  {
    if i == |t| then ""
    else match RegionEnd(t, i)
      case Some(e) => after + ReplaceFrom(t, e, after)
      case None => [t[i]] + ReplaceFrom(t, i + 1, after)
  }

  function ReplaceRegions(t: string, after: string): (r: string)
    ensures after == [] ==> |r| <= |t|
  {
    ReplaceFrom(t, 0, after)
  }

  /** Text with no match from i on is copied unchanged. */
  lemma {:induction false} ReplaceFromWithoutMatch(t: string, i: nat, after: string)
    requires i <= |t|
    requires forall k :: i <= k < |t| ==> RegionEnd(t, k).None?
    ensures ReplaceFrom(t, i, after) == t[i..]
    decreases |t| - i
  {
    if i < |t| {
      ReplaceFromWithoutMatch(t, i + 1, after);
      assert t[i..] == [t[i]] + t[i + 1..];
    }
  }

  /** Text before the first match is copied, the match becomes `after`, and replacing goes on after it. */
  lemma {:induction false} ReplaceFromFirstMatch(t: string, i: nat, s: nat, e: nat, after: string)
    requires i <= s < e <= |t| && RegionEnd(t, s) == Some(e)
    requires forall k :: i <= k < s ==> RegionEnd(t, k).None?
    ensures ReplaceFrom(t, i, after) == t[i..s] + (after + ReplaceFrom(t, e, after))
    decreases s - i
  {
    var rest := after + ReplaceFrom(t, e, after);
    if i < s {
      ReplaceFromFirstMatch(t, i + 1, s, e, after);
      ReplaceFromCopies(t, i, after);
      SliceCons(t, i, s, rest);
    } else {
      ReplaceFromReplaces(t, i, e, after);
      assert t[i..s] + rest == rest;
    }
  }

  lemma SliceCons(t: string, i: nat, s: nat, rest: string)
    requires i < s <= |t|
    ensures [t[i]] + (t[i + 1..s] + rest) == t[i..s] + rest
  {
    assert t[i..s] == [t[i]] + t[i + 1..s];
  }

  /** Where no match starts, the character is copied. */
  lemma ReplaceFromCopies(t: string, i: nat, after: string)
    requires i < |t| && RegionEnd(t, i).None?
    ensures ReplaceFrom(t, i, after) == [t[i]] + ReplaceFrom(t, i + 1, after)
  {
  }

  /** Where a match starts, it becomes `after`. */
  lemma ReplaceFromReplaces(t: string, i: nat, e: nat, after: string)
    requires i < |t| && RegionEnd(t, i) == Some(e)
    ensures ReplaceFrom(t, i, after) == after + ReplaceFrom(t, e, after)
  {
  }

  /** Replacing in text without a rendered equation changes nothing. */
  lemma ReplaceWithoutRegion(t: string, after: string)
    requires !HasRegion(t)
    ensures ReplaceRegions(t, after) == t
  {
    ReplaceFromWithoutMatch(t, 0, after);
  }

  /** The first rendered equation is the one replaced: what comes before it is kept. */
  lemma ReplaceKeepsPrefix(t: string, after: string)
    requires HasRegion(t)
    ensures var (s, e) := EquationIndices(t);
            ReplaceRegions(t, after) == t[..s] + (after + ReplaceFrom(t, e as nat, after))
  {
    var (s, e) := FirstRegion(t, 0).value;
    ReplaceFromFirstMatch(t, 0, s, e, after);
    assert t[0..s] == t[..s];
  }

  /** The glyph parseEquation writes for a note letter or dot of the equation; other characters stay. */
  function GlyphFor(c: char): char
  {
    match c
    case 'd' => '\U{ECA0}'
    case 'w' => '\U{ECA2}'
    case 'h' => '\U{ECA3}'
    case 'q' => '\U{ECA5}'
    case 'e' => '\U{ECA7}'
    case 's' => '\U{ECA9}'
    case 't' => '\U{ECAB}'
    case '.' => '\U{ECB7}'
    case _ => c
  }

  /**
   * The equation with each key of parseEquation's map replaced by its glyph.
   * The map's keys are single characters and no glyph is a key, so the order
   * in which the replacements run does not matter: it is a map over characters.
   */
  function ToGlyphs(equation: string): (r: string)
    ensures |r| == |equation|
    ensures forall i :: 0 <= i < |r| ==> r[i] == GlyphFor(equation[i])
  {
    seq(|equation|, i requires 0 <= i < |equation| => GlyphFor(equation[i]))
  }

  /** Digits, spaces, `=` and brackets survive the substitution; note letters and dots become glyphs. */
  lemma GlyphForClasses(c: char)
    ensures c in "dwhqest." ==> IsGlyph(GlyphFor(c))
    ensures c !in "dwhqest." ==> GlyphFor(c) == c
  {
  }

  /**
   * The text parseEquation leaves: when the equation is visible, the first and
   * every further rendered equation is replaced by the substituted equation,
   * or the substituted equation is appended when there is none; when hidden,
   * every rendered equation is removed.
   */
  function ParsedText(xml: string, equation: string, visible: bool): (r: string)
    ensures HasRegion(xml) ==>
              var (s, e) := EquationIndices(xml);
              var shown := if visible then ToGlyphs(equation) else "";
              r == xml[..s] + (shown + ReplaceFrom(xml, e as nat, shown))
    ensures !visible ==> |r| <= |xml|
  {
    if visible then
      var rendered := ToGlyphs(equation);
      if HasRegion(xml) then
        ReplaceKeepsPrefix(xml, rendered);
        ReplaceRegions(xml, rendered)
      else xml + rendered
    else
      if HasRegion(xml) then ReplaceKeepsPrefix(xml, ""); ReplaceRegions(xml, "")
      else ReplaceRegions(xml, "")
  }

  /** Showing an equation in text that has none appends it; hiding it there changes nothing. */
  lemma ParsedTextWithoutRegion(xml: string, equation: string)
    requires !HasRegion(xml)
    ensures ParsedText(xml, equation, true) == xml + ToGlyphs(equation)
    ensures ParsedText(xml, equation, false) == xml
  {
    ReplaceWithoutRegion(xml, "");
  }

  /** The default equation, once substituted, is itself a rendered equation spanning the whole text. */
  lemma DefaultEquationRendersAsRegion()
    ensures ToGlyphs("q = 120") == "\U{ECA5} = 120"
    ensures EquationIndices(ToGlyphs("q = 120")) == (0, 7)
  {
    var t := ToGlyphs("q = 120");
    assert t == "\U{ECA5} = 120";
    assert SkipGlyphs(t, 0) == 1;
    assert SkipSpaces(t, 1) == 2;
    assert SkipSpaces(t, 3) == 4;
    assert SkipValue(t, 4) == 7;
    assert RegionEnd(t, 0) == Some(7);
  }

  // ---------------------------------------------------------------------
  // Cursor decisions

  datatype Key = LeftKey | RightKey | OtherKey

  /** What moveCursor does with the cursor. */
  datatype CursorMove =
    | BaseMove                                  // no equation: TextBase::moveCursor decides
    | JumpRight(count: int)                     // move right over the equation, dropping the selection
    | JumpLeft(count: int)                      // move left over the equation, dropping the selection
    | Step(right: bool, word: bool, keepAnchor: bool)  // an ordinary one-character or one-word move
    | NoMove                                    // any other key: nothing happens, false is returned

  /**
   * moveCursor's decision for the cursor at text index `cursor` with the
   * equation at `eqn` (as equationIndices gives it): Right at the equation's
   * start and Left at its end jump over the whole equation.
   */
  function MoveCursorDecision(eqn: (int, int), cursor: int, key: Key, ctrl: bool, keepAnchor: bool): (m: CursorMove)
    ensures eqn == (0, 0) <==> m == BaseMove
    ensures m.JumpRight? <==> eqn != (0, 0) && cursor == eqn.0 && key == RightKey
    ensures m.JumpLeft? <==> eqn != (0, 0) && cursor == eqn.1 && key == LeftKey
    ensures m.NoMove? <==> eqn != (0, 0) && key == OtherKey
    ensures m.JumpRight? || m.JumpLeft? ==> m.count == eqn.1 - eqn.0
    ensures m.Step? <==> eqn != (0, 0) && ((key == LeftKey && cursor != eqn.1) || (key == RightKey && cursor != eqn.0))
    ensures m.Step? ==> m.right == (key == RightKey) && m.word == ctrl && m.keepAnchor == keepAnchor
  {
    if eqn == (0, 0) then BaseMove
    else
      var length := eqn.1 - eqn.0;
      if eqn.0 == cursor && key == RightKey then JumpRight(length)
      else if eqn.1 == cursor && key == LeftKey then JumpLeft(length)
      else if key == LeftKey then Step(false, ctrl, keepAnchor)
      else if key == RightKey then Step(true, ctrl, keepAnchor)
      else assert key.OtherKey?; NoMove
  }

  /** Where a jump leaves the cursor. */
  function JumpTarget(cursor: int, m: CursorMove): int
    requires m.JumpRight? || m.JumpLeft?
  {
    if m.JumpRight? then cursor + m.count else cursor - m.count
  }

  /** A jump from one end of the equation lands exactly on the other end, never inside it. */
  lemma JumpsCrossWholeEquation(t: string, cursor: int, key: Key, ctrl: bool, keepAnchor: bool)
    requires HasRegion(t)
    ensures var eqn := EquationIndices(t);
            var m := MoveCursorDecision(eqn, cursor, key, ctrl, keepAnchor);
            (m.JumpRight? ==> JumpTarget(cursor, m) == eqn.1 && cursor == eqn.0)
            && (m.JumpLeft? ==> JumpTarget(cursor, m) == eqn.0 && cursor == eqn.1)
            && (m.JumpRight? || m.JumpLeft? ==> m.count > 0)
  {
  }

  /**
   * dragTo's snap: the new end of a selection anchored at `start`. A drag
   * from at or before the equation's start that would end past that start
   * stops at the start; one from at or after its end that would end before
   * that end stops at the end.
   */
  function SnapSelectionEnd(eqn: (int, int), start: int, end: int): (r: int)
    ensures eqn == (0, 0) ==> r == end
    ensures r == end || r == eqn.0 || r == eqn.1
    ensures start <= end ==> start <= r <= end
    ensures end <= start ==> end <= r <= start
  {
    if eqn == (0, 0) then end
    else if start <= eqn.0 && end > eqn.0 then eqn.0
    else if start >= eqn.1 && end < eqn.1 then eqn.1
    else end
  }

  /**
   * A selection anchored outside the equation never ends strictly inside it,
   * and a drag that does not reach into the equation is left as it is.
   */
  lemma SnapKeepsSelectionOutside(t: string, start: int, end: int)
    requires HasRegion(t)
    ensures var eqn := EquationIndices(t);
            var r := SnapSelectionEnd(eqn, start, end);
            ((start <= eqn.0 || start >= eqn.1) ==> !(eqn.0 < r < eqn.1))
            && (start <= eqn.0 ==> r <= eqn.0)
            && (start >= eqn.1 ==> r >= eqn.1)
            && ((start <= eqn.0 && end <= eqn.0) || (start >= eqn.1 && end >= eqn.1) ==> r == end)
  {
  }

  /** Without an equation the drag is never changed. */
  lemma SnapWithoutEquation(t: string, start: int, end: int)
    requires !HasRegion(t)
    ensures SnapSelectionEnd(EquationIndices(t), start, end) == end
  {
  }

  // ---------------------------------------------------------------------
  // textIndexFromCursor

  /**
   * QString::indexOf(c, from): the first position at or after `from` holding
   * c, or -1. A negative `from` counts back from the end of the text.
   */
  function IndexOf(t: string, c: char, from: int): (r: int)
    ensures -1 <= r < |t|
    ensures r >= 0 ==> t[r] == c && r >= from
    ensures r >= 0 ==> forall k :: (if from < 0 then (if from + |t| < 0 then 0 else from + |t|) else from) <= k < r ==> t[k] != c
    ensures r == -1 ==> forall k :: (if from < 0 then (if from + |t| < 0 then 0 else from + |t|) else from) <= k < |t| ==> t[k] != c
  {
    var start := if from < 0 then (if from + |t| < 0 then 0 else from + |t|) else from;
    IndexFrom(t, c, start)
  }

  function IndexFrom(t: string, c: char, i: nat): (r: int)
    ensures -1 <= r < |t|
    ensures r >= 0 ==> t[r] == c && r >= i && forall k :: i <= k < r ==> t[k] != c
    ensures r == -1 ==> forall k :: i <= k < |t| ==> t[k] != c
    decreases |t| - i
  {
    if i >= |t| then -1
    else if t[i] == c then i
    else IndexFrom(t, c, i + 1)
  }

  /** What textIndexFromCursor returns: the column itself on row 0, else the first line feed's index plus the column. */
  function TextIndexAsWritten(t: string, row: int, column: int): int
  {
    if row <= 0 then column else IndexOf(t, '\n', 0) + column
  }

  /**
   * textIndexFromCursor as written: `index = indexOf("\n", index)` repeated
   * `row` times. The search starts at the line feed it found last time, so it
   * finds that same line feed again and never gets past the first one.
   */
  method TextIndexFromCursor(t: string, row: int, column: int) returns (index: int)
    ensures index == TextIndexAsWritten(t, row, column)
  {
    index := 0;
    var i := 0;
    while i < row
      invariant 0 <= i && (row > 0 ==> i <= row) && (row <= 0 ==> i == 0)
      invariant i == 0 ==> index == 0
      invariant i > 0 ==> index == IndexOf(t, '\n', 0)
    {
      IndexOfFixedPoint(t);
      index := IndexOf(t, '\n', index);
      i := i + 1;
    }
    index := index + column;
  }

  /** The line feeds in a text. */
  function CountNewlines(t: string): nat
  {
    if t == [] then 0 else CountNewlines(t[..|t| - 1]) + (if t[|t| - 1] == '\n' then 1 else 0)
  }

  /** Where row `row` of the text starts: just after its row-th line feed; None when the text has fewer rows. */
  function LineStart(t: string, row: nat): (r: Option<nat>)
    ensures r.Some? ==> r.value <= |t| && CountNewlines(t[..r.value]) == row
    ensures r.Some? && row > 0 ==> t[r.value - 1] == '\n'
  {
    if row == 0 then
      assert t[..0] == [];
      Some(0)
    else match LineStart(t, row - 1)
      case None => None
      case Some(k) =>
        var p := IndexFrom(t, '\n', k);
        if p < 0 then None
        else
          NewlinesUpTo(t, k, p);
          Some(p + 1)
  }

  /** A stretch without line feeds adds nothing to the count. */
  lemma {:induction false} NoNewlinesBetween(t: string, k: nat, p: nat)
    requires k <= p <= |t|
    requires forall j :: k <= j < p ==> t[j] != '\n'
    ensures CountNewlines(t[..p]) == CountNewlines(t[..k])
    decreases p - k
  {
    if k < p {
      assert t[..p][..p - 1] == t[..p - 1];
      NoNewlinesBetween(t, k, p - 1);
    }
  }

  /** From a line start to the next line feed, inclusive, the count goes up by one. */
  lemma NewlinesUpTo(t: string, k: nat, p: nat)
    requires k <= p < |t| && t[p] == '\n'
    requires forall j :: k <= j < p ==> t[j] != '\n'
    ensures CountNewlines(t[..p + 1]) == CountNewlines(t[..k]) + 1
  {
    assert t[..p + 1][..p] == t[..p];
    NoNewlinesBetween(t, k, p);
  }

  /** A second search from the line feed just found finds that same line feed. */
  lemma IndexOfFixedPoint(t: string)
    ensures IndexOf(t, '\n', IndexOf(t, '\n', 0)) == IndexOf(t, '\n', 0)
  {
  }

  /** The index the loop is evidently meant to compute: the start of row `row` plus the column. */
  function TextIndexIntended(t: string, row: nat, column: int): (r: Option<int>)
    ensures r.Some? ==> exists k: nat :: k <= |t| && CountNewlines(t[..k]) == row && r.value == k + column
  {
    match LineStart(t, row)
    case None => None
    case Some(k) => Some(k + column)
  }

  /**
   * textIndexFromCursor with each search starting just past the line feed
   * found before, so that row n starts after the n-th line feed.
   */
  method TextIndexFromCursorCorrected(t: string, row: nat, column: int) returns (index: int)
    requires LineStart(t, row).Some?
    ensures Some(index) == TextIndexIntended(t, row, column)
  {
    index := 0;
    var i := 0;
    while i < row
      invariant 0 <= i <= row
      invariant index >= 0 && LineStart(t, i) == Some(index as nat)
    {
      LineStartGrows(t, i + 1, row);
      LineStartStep(t, i, index);
      index := IndexOf(t, '\n', index) + 1;
      i := i + 1;
    }
    index := index + column;
  }

  /** Row i + 1, when it exists, starts just past the first line feed at or after the start of row i. */
  lemma LineStartStep(t: string, i: nat, k: nat)
    requires LineStart(t, i) == Some(k) && LineStart(t, i + 1).Some?
    ensures IndexOf(t, '\n', k) >= 0 && LineStart(t, i + 1) == Some(IndexOf(t, '\n', k) + 1)
  {
    assert IndexOf(t, '\n', k) == IndexFrom(t, '\n', k);
  }

  /** A row exists only when every row before it does. */
  lemma {:induction false} LineStartGrows(t: string, i: nat, row: nat)
    requires i <= row && LineStart(t, row).Some?
    ensures LineStart(t, i).Some?
    decreases row - i
  {
    if i < row {
      LineStartGrows(t, i + 1, row);
    }
  }

  /**
   * On the third row of "a\nb\nc" the loop as written stops at the first line
   * feed (index 1), while the third row starts at index 4.
   */
  lemma ThirdRowCounterexample()
    ensures TextIndexAsWritten("a\nb\nc", 2, 0) == 1
    ensures TextIndexIntended("a\nb\nc", 2, 0) == Some(4)
  {
    var t := "a\nb\nc";
    assert IndexFrom(t, '\n', 0) == 1;
    assert IndexFrom(t, '\n', 2) == 3;
    assert LineStart(t, 1) == Some(2);
    assert LineStart(t, 2) == Some(4);
  }
}
