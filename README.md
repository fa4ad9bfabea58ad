# Tempo text: a verified model

This project models the tempo marking of a music-notation editor, the
`TempoText` element of `src/engraving/libmscore/tempotext.cpp`. It models and
proves properties of the element's tempo logic:

- **Duration detection** (`findTempoDuration`). It scans the ordered table `tp`
  of metronome-mark glyph patterns and reports the first table row that occurs
  anywhere in a text, together with that row's leftmost position and length.
- **Duration rendering**. `duration2tempoTextString` looks up the first row of
  `tpSym` with the wanted duration and writes its `<sym>` tags with single
  spaces. `duration2userName` names a duration by its dot count.
- **The equation**, such as `q = 120` or `e = q`:
  - `isEquationValid` accepts or refuses it;
  - `updateTempo` reads it as an absolute or a relative tempo with two anchored
    regular expressions;
  - `getRelativeDuration` measures a note marking in quarter notes.
- **The tempo state**. The fields are the playback tempo, the notated tempo, the
  ratio, the relative flag, the equation, its visibility, the follow-text
  switch and the text. They are changed by `setTempo`, `updateTempo`,
  `updateRelative`, `parseEquation` and the tempo branches of `setProperty`.
- **The rendered equation inside the text.** `parseEquation` substitutes glyphs
  and replaces or appends the equation. `equationIndices` locates it,
  `moveCursor` jumps over it and `dragTo` snaps a selection to its edges.
  `textIndexFromCursor` turns a row and column into a text index.

Each regular expression is written out as a recogniser over `seq<char>`, with
its exact character classes. Each anchored pattern is stated twice:

- once declaratively, as the splits of the text the pattern admits;
- once as the function that computes the split the engine reports. It is
  proved to be the leftmost-greedy one.

Operations that change the element are methods of the class
`Tempo.TempoText`, whose fields they update in place. Each method is proved
equal to a function from the old state to the new one, and the properties are
proved about those functions. The score is outside the model:

- the tempo just before the element comes in as a parameter, `tempoBefore`;
- each push of the tempo into the score is counted in the ghost field
  `scoreSyncs`.

Arithmetic is exact over `real`.

Modules: `Wrappers` (Option), `Durations` (durations and their names),
`Glyphs` (the `tp` table and `findTempoDuration`), `Symbols` (the `tpSym`
table and `duration2tempoTextString`), `EquationSyntax` (the equation patterns
and `getRelativeDuration`), `EquationRegion` (the rendered equation and the
cursor arithmetic) and `Tempo` (the state and the class).

Three points of the code shape what is proved:

- **The absolute branch of `updateTempo` does not clamp.** Only `setTempo`
  clamps to [5/60, 999/60], so `q = 1` gives a playback tempo of 1/60
  (`Tempo.SlowAbsoluteTempoUnclamped`). The invariant `Tempo.Inv` therefore
  bounds only relative tempos, and says only that an absolute tempo is not
  negative.
- **`findTempoDuration` scans glyphs, not `<sym>` tags.** A duration rendered
  by `duration2tempoTextString` is not detected again from its tag form. The
  round trip proved goes through the row's glyph text
  (`Symbols.RenderableDurationsAreDetected`).
- **Two dot rules.** The `f` column of the tables uses 1.75 for two dots.
  `getRelativeDuration` multiplies by 1.5 per dot. Both are kept as written,
  and nothing in the model reads `f`.

## Model

| member | source | states |
|---|---|---|
| Durations.UserName | src/engraving/libmscore/tempotext.cpp:692-709 | The name ends with the type's name; it is longer exactly when there are 1 to 4 dots |
| Durations.UserNameRoundTrip | src/engraving/libmscore/tempotext.cpp:692-709 | For up to four dots, the dot count can be read back from the name |
| Durations.UserNameDistinguishesDots | src/engraving/libmscore/tempotext.cpp:692-709 | Two durations with up to four dots and the same type name get the same name only if their dot counts agree |
| Durations.UserNameIgnoresExtraDots | src/engraving/libmscore/tempotext.cpp:704-706 | More than four dots are named like no dots (the default branch) |
| Glyphs.SkipSpace | src/engraving/libmscore/tempotext.cpp:145-168 | A pattern's whitespace run stops at the first non-space, by QChar::isSpace |
| Glyphs.PatternEnd | src/engraving/libmscore/tempotext.cpp:145-168 | A pattern that matches at i ends after i and within the text |
| Glyphs.IndexIn | src/engraving/libmscore/tempotext.cpp:181 | QRegExp::indexIn returns the leftmost position where the pattern matches, or none when it matches nowhere |
| Glyphs.FirstOccurring | src/engraving/libmscore/tempotext.cpp:180-187 | The scan returns the first table row that occurs anywhere; every earlier row is absent; none means no row occurs |
| Glyphs.Detect | src/engraving/libmscore/tempotext.cpp:177-191 | The position is -1 exactly when no row occurs, and then the length is 0 and the duration the default; otherwise the duration is the first occurring row's |
| Glyphs.FindTempoDuration | src/engraving/libmscore/tempotext.cpp:177-191 | The loop with early return yields exactly the position, length and duration of Detect |
| Glyphs.TableDotsAgree | src/engraving/libmscore/tempotext.cpp:145-168 | Each row's dot glyph count is its duration's dot count |
| Glyphs.TableLongestFirst | src/engraving/libmscore/tempotext.cpp:143-168 | Among rows with the same note glyph, an earlier row has more dots: longer patterns come first |
| Glyphs.TableBasesAreNotes | src/engraving/libmscore/tempotext.cpp:145-168 | Every row starts with a note glyph in U+ECA0..U+ECB6, never a dot or a space |
| Glyphs.FewerDotsAlsoMatch | src/engraving/libmscore/tempotext.cpp:143 | Where k+1 spaced dots follow, k do too, so a shorter pattern matches wherever a longer one does |
| Glyphs.EarlierRowsAbsent | src/engraving/libmscore/tempotext.cpp:145-168 | A row's own glyph text contains no earlier row's pattern |
| Glyphs.GlyphTextDetected | src/engraving/libmscore/tempotext.cpp:177-191 | For every row, its glyph text is detected at 0, over its whole length, with that row's duration |
| Glyphs.LongerRowsAbsent | src/engraving/libmscore/tempotext.cpp:143-191 | When row e is the one found, no row with the same note and more dots occurs in the text |
| Glyphs.DoubleDottedQuarterDetected | src/engraving/libmscore/tempotext.cpp:146-191 | A quarter glyph followed by two dot glyphs is detected as a quarter with 2 dots at 0, length 3 |
| Glyphs.DotsEndOnDotsText | src/engraving/libmscore/tempotext.cpp:177-191 | Where n space-then-dot pairs remain, the dots of a k-dot pattern match exactly when k <= n, ending after k pairs |
| Glyphs.RowAbsentBelowGlyphs | src/engraving/libmscore/tempotext.cpp:177-191 | No table row occurs in text whose characters all lie below the metronome-mark glyphs |
| Glyphs.BelowGlyphsNotDetected | src/engraving/libmscore/tempotext.cpp:177-191 | Text without metronome-mark glyphs gives -1, length 0 and the default duration |
| Glyphs.PlainTextNotDetected | src/engraving/libmscore/tempotext.cpp:177-191 | Text without glyphs, "q = 120", gives -1, length 0 and the default duration |
| Symbols.ReplaceSkipsPlainPrefix | src/engraving/libmscore/tempotext.cpp:243 | Replacing the whitespace pattern leaves a prefix without backslashes untouched |
| Symbols.Replace | src/engraving/libmscore/tempotext.cpp:243 | Replacing a pattern with a text of the same length keeps the length |
| Symbols.RenderedDotPatterns | src/engraving/libmscore/tempotext.cpp:243 | Rewriting each whitespace pattern before a dot tag gives one space before each dot tag |
| Symbols.RenderedPattern | src/engraving/libmscore/tempotext.cpp:238-248 | A row's pattern renders as its note tag followed by " " and a dot tag for each dot |
| Symbols.FirstSymRow | src/engraving/libmscore/tempotext.cpp:240-246 | The lookup finds the first row with an equal duration; no earlier row has it; none means no row has it |
| Symbols.Duration2TempoTextString | src/engraving/libmscore/tempotext.cpp:238-248 | The loop returns the first matching row's rendering; the result is "" exactly when no row has the duration |
| Symbols.TempoTextString | src/engraving/libmscore/tempotext.cpp:238-248 | The rendering is empty exactly when no row of the symbol table has the duration |
| Symbols.TempoTextStringShape | src/engraving/libmscore/tempotext.cpp:238-248 | A rendered duration is the first matching row's note tag followed by one spaced dot tag per dot |
| Symbols.SymDotsAgree | src/engraving/libmscore/tempotext.cpp:203-231 | Each tpSym row's dot tag count is its duration's dot count |
| Symbols.TablesParallel | src/engraving/libmscore/tempotext.cpp:203-231 | tpSym has as many rows as tp, and row for row the same duration, dots and factor |
| Symbols.BreveRendersSquare | src/engraving/libmscore/tempotext.cpp:224-248 | A breve renders as metNoteDoubleWholeSquare, the first of the two breve rows |
| Symbols.Dotted64thUnrendered | src/engraving/libmscore/tempotext.cpp:203-248 | A dotted 64th is in no row, so it renders as "" |
| Symbols.DoubleDottedQuarterRendering | src/engraving/libmscore/tempotext.cpp:203-248 | A double-dotted quarter renders as the metNoteQuarterUp tag followed by " ", a dot tag, " " and a dot tag |
| Symbols.RenderableDurationsAreDetected | src/engraving/libmscore/tempotext.cpp:177-248 | Every duration with a rendering is detected again from the glyph text of the same row |
| EquationSyntax.SubjectDropsFinalLineFeed | src/engraving/libmscore/tempotext.cpp:434 | The text `$` must reach is the whole equation, or the equation without its final line feed exactly when it ends in one |
| EquationSyntax.SkipBlanks | src/engraving/libmscore/tempotext.cpp:434-436 | A greedy run of spaces: all spaces, followed by a non-space or the end |
| EquationSyntax.DigitsRhsOk | src/engraving/libmscore/tempotext.cpp:434 | The right side is spaces, digits and an optional closing character exactly when the declarative number side holds |
| EquationSyntax.NoteRhsOk | src/engraving/libmscore/tempotext.cpp:435-436 | The right side is spaces and then a note character exactly when the declarative note side holds |
| EquationSyntax.RhsOk | src/engraving/libmscore/tempotext.cpp:434-436 | The computed right-side test of each form agrees with its declarative statement |
| EquationSyntax.LeadStart | src/engraving/libmscore/tempotext.cpp:434-436 | The left operand starts at the greatest position that the optional opener, the spaces and the note class allow |
| EquationSyntax.LastEquals | src/engraving/libmscore/tempotext.cpp:434-436 | The left operand ends at the last `=` that a valid right side follows |
| EquationSyntax.NoEqualsInLead | src/engraving/libmscore/tempotext.cpp:434-436 | No `=` lies in the text before the left operand |
| EquationSyntax.Search | src/engraving/libmscore/tempotext.cpp:434-436 | A found split is the leftmost-greedy one (no split starts or ends later); none found means no split exists |
| EquationSyntax.SearchFinds | src/engraving/libmscore/tempotext.cpp:434-436 | A split with no later `=` and no later possible start is the one reported |
| EquationSyntax.MatchBpm | src/engraving/libmscore/tempotext.cpp:434-445 | The bpm pattern matches exactly when the equation splits at an `=` into a note operand and a number |
| EquationSyntax.GreedySplitUnique | src/engraving/libmscore/tempotext.cpp:434-436 | At most one split is greedy: two greedy splits of the same text are the same split |
| EquationSyntax.SearchIsGreedy | src/engraving/libmscore/tempotext.cpp:434-436 | The split the search reports is the greedy one, the last `=` the pattern can use |
| EquationSyntax.MatchBpmCaptures | src/engraving/libmscore/tempotext.cpp:434-445 | On a matching equation the note capture is the greedy split's left operand, non-empty and starting with a note character; the bpm capture is the value of the digit run of every blanks-digits-closer split of the right side |
| EquationSyntax.BpmCapturesOfSearch | src/engraving/libmscore/tempotext.cpp:434-445 | When the pattern's search succeeds, the captures are read at the found split and the right side is a number |
| EquationSyntax.DigitsSplitUnique | src/engraving/libmscore/tempotext.cpp:435 | The right side of the bpm pattern splits into blanks, digits and an optional closer in only one way |
| EquationSyntax.NoteAfterBlanks | src/engraving/libmscore/tempotext.cpp:435 | After the `=` of a relative split and its spaces a note character follows |
| EquationSyntax.RelativeCapturesOfSearch | src/engraving/libmscore/tempotext.cpp:435-460 | note1 is the text before the reported `=`, note2 the text after it and its spaces |
| EquationSyntax.MatchRelativeCaptures | src/engraving/libmscore/tempotext.cpp:435-460 | On a matching equation note1 is the greedy left operand and note2 the rest after the spaces, both starting with a note character |
| EquationSyntax.MatchRelative | src/engraving/libmscore/tempotext.cpp:435-439 | The relative pattern matches exactly when the equation splits at an `=` into two note operands |
| EquationSyntax.SkipBlanksShift | src/engraving/libmscore/tempotext.cpp:435-436 | Skipping spaces in a suffix ends where skipping them in the whole text does |
| EquationSyntax.IsEquationValid | src/engraving/libmscore/tempotext.cpp:650-656 | True exactly when the validity pattern matches the equation |
| EquationSyntax.ValidEquationsAreRead | src/engraving/libmscore/tempotext.cpp:650-656 | Every valid equation is matched by updateTempo's bpm pattern or its relative pattern |
| EquationSyntax.ValidAbsoluteExample | src/engraving/libmscore/tempotext.cpp:650-656 | "q = 120" is valid |
| EquationSyntax.ValidRelativeExample | src/engraving/libmscore/tempotext.cpp:650-656 | "e = q" is valid |
| EquationSyntax.ValidBracketedExample | src/engraving/libmscore/tempotext.cpp:650-656 | "(q. = 90)" is valid |
| EquationSyntax.NumberFirstRefused | src/engraving/libmscore/tempotext.cpp:650-656 | "120 = q" is refused: its left operand does not start with a note letter |
| EquationSyntax.UnknownLetterRefused | src/engraving/libmscore/tempotext.cpp:650-656 | "x = 120" is refused |
| EquationSyntax.DigitsValueExamples | src/engraving/libmscore/tempotext.cpp:443 | The digits "1" and "120" read as 1 and 120 |
| EquationSyntax.DigitsValue | src/engraving/libmscore/tempotext.cpp:443 | A digit run reads as zero exactly when all its digits are 0, and the value's last decimal digit is the run's last digit |
| EquationSyntax.DefaultEquationCaptures | src/engraving/libmscore/tempotext.cpp:438-443 | "q = 120" captures the note "q " (the space is taken in) and the bpm 120 |
| EquationSyntax.SlowEquationCaptures | src/engraving/libmscore/tempotext.cpp:438-443 | "q = 1" captures the note "q " and the bpm 1 |
| EquationSyntax.RelativeEquationNotAbsolute | src/engraving/libmscore/tempotext.cpp:434 | "e = q" does not match the bpm pattern |
| EquationSyntax.RelativeEquationCaptures | src/engraving/libmscore/tempotext.cpp:435-459 | "e = q" captures note1 "e " and note2 "q" |
| EquationSyntax.Pow15 | src/engraving/libmscore/tempotext.cpp:685 | 1.5 to a power is at least 1, and more than 1 for a positive power |
| EquationSyntax.RelativeDuration | src/engraving/libmscore/tempotext.cpp:662-686 | A marking's duration is always positive |
| EquationSyntax.CountDotsAppend | src/engraving/libmscore/tempotext.cpp:683 | Dots are counted anywhere: the count of a concatenation is the sum of the counts |
| EquationSyntax.CountDots | src/engraving/libmscore/tempotext.cpp:683 | The dot count is at most the marking's length and is zero exactly when the marking has no dot |
| EquationSyntax.BaseDuration | src/engraving/libmscore/tempotext.cpp:664-681 | The base duration lies between 1/8 and 8 quarters, and a first character that is no note letter gives 1 |
| EquationSyntax.DotAnywhere | src/engraving/libmscore/tempotext.cpp:683-685 | Inserting a dot anywhere after the first character multiplies the duration by 1.5 |
| EquationSyntax.NonDotsIgnored | src/engraving/libmscore/tempotext.cpp:676-685 | Characters after the first that are not dots do not change the duration |
| EquationSyntax.RelativeDurationExamples | src/engraving/libmscore/tempotext.cpp:662-686 | "q" is 1, "q." is 1.5, "q.." is 2.25, "h" is 2, and an unknown letter with two dots is 2.25 |
| EquationRegion.SkipGlyphsMaximal | src/engraving/libmscore/tempotext.cpp:340 | The glyph run is all glyphs and is followed by a non-glyph or the end |
| EquationRegion.SkipValueMaximal | src/engraving/libmscore/tempotext.cpp:340 | The value run is all glyphs or digits and is followed by neither or by the end |
| EquationRegion.SkipSpacesMaximal | src/engraving/libmscore/tempotext.cpp:340 | The space run is all spaces and is followed by a non-space or the end |
| EquationRegion.RegionEnd | src/engraving/libmscore/tempotext.cpp:340 | A match at i ends after i and within the text |
| EquationRegion.RegionShape | src/engraving/libmscore/tempotext.cpp:340 | A match opens with a glyph or a bracket then a glyph, holds an `=`, and closes with a bracket, glyph or digit |
| EquationRegion.FirstRegion | src/engraving/libmscore/tempotext.cpp:341 | The match found is the leftmost: nothing matches before it; none found means nothing matches |
| EquationRegion.EquationIndices | src/engraving/libmscore/tempotext.cpp:338-348 | (0, 0) exactly when there is no equation; otherwise the start and end of the leftmost one, start before end |
| EquationRegion.ReplaceFromWithoutMatch | src/engraving/libmscore/tempotext.cpp:638 | Replacing in text with no match copies it unchanged |
| EquationRegion.ReplaceFrom | src/engraving/libmscore/tempotext.cpp:638 | Deleting every match from position i on leaves at most the rest of the text |
| EquationRegion.ReplaceRegions | src/engraving/libmscore/tempotext.cpp:638 | Deleting every equation from the text never lengthens it |
| EquationRegion.ReplaceFromFirstMatch | src/engraving/libmscore/tempotext.cpp:633 | Replacing keeps the text before the first match, puts the replacement in its place and goes on after it |
| EquationRegion.ReplaceWithoutRegion | src/engraving/libmscore/tempotext.cpp:638 | Without an equation, replacing changes nothing |
| EquationRegion.ReplaceKeepsPrefix | src/engraving/libmscore/tempotext.cpp:632-633 | The text before the equation found by equationIndices is kept, and the equation becomes the replacement |
| EquationRegion.ToGlyphs | src/engraving/libmscore/tempotext.cpp:614-630 | The substitution keeps the length and maps each character through the letter-to-glyph table |
| EquationRegion.GlyphForClasses | src/engraving/libmscore/tempotext.cpp:614-623 | Note letters and the dot become glyphs; every other character is kept |
| EquationRegion.ParsedTextWithoutRegion | src/engraving/libmscore/tempotext.cpp:625-639 | With no equation in the text, showing appends the glyph equation and hiding changes nothing |
| EquationRegion.ParsedText | src/engraving/libmscore/tempotext.cpp:625-639 | With an equation in the text, the text before it is kept, the shown equation (glyphs, or nothing when hidden) takes its place and later equations are replaced too; hiding never lengthens the text |
| EquationRegion.DefaultEquationRendersAsRegion | src/engraving/libmscore/tempotext.cpp:612-630 | "q = 120" renders as the quarter glyph, " = 120", which is an equation spanning 0 to 7 |
| EquationRegion.MoveCursorDecision | src/engraving/libmscore/tempotext.cpp:350-375 | No equation: the default move. Right at the start and Left at the end jump over the whole equation (each iff). Any other Left or Right key is a one-character step in the key's direction, keeping the word and anchor modes. Any other key: no move |
| EquationRegion.SnapSelectionEnd | src/engraving/libmscore/tempotext.cpp:389-404 | Without an equation the end stays; otherwise the end becomes the end itself or one of the equation's bounds, always within the dragged selection |
| EquationRegion.JumpsCrossWholeEquation | src/engraving/libmscore/tempotext.cpp:360-366 | A jump from one end of the equation lands exactly on the other end, over a positive length |
| EquationRegion.SnapKeepsSelectionOutside | src/engraving/libmscore/tempotext.cpp:389-403 | A selection anchored outside the equation never ends inside it, stays on its anchor's side, and is unchanged when it does not reach in |
| EquationRegion.SnapWithoutEquation | src/engraving/libmscore/tempotext.cpp:389 | Without an equation the drag is not changed |
| EquationRegion.IndexOf | src/engraving/libmscore/tempotext.cpp:315 | The first matching position at or after the start (a negative start counts from the end), or -1 when there is none |
| EquationRegion.IndexOfFixedPoint | src/engraving/libmscore/tempotext.cpp:314-316 | Searching again from the line feed just found finds the same line feed |
| EquationRegion.TextIndexFromCursor | src/engraving/libmscore/tempotext.cpp:311-321 | The loop as written gives the column on row 0 and, for any later row, the first line feed's index plus the column (-1 plus the column when there is none) |
| EquationRegion.LineStart | src/engraving/libmscore/tempotext.cpp:311-321 | A row starts right after a line feed, with exactly that many line feeds before it |
| EquationRegion.NoNewlinesBetween | src/engraving/libmscore/tempotext.cpp:311-321 | A stretch without line feeds adds nothing to the line feed count |
| EquationRegion.NewlinesUpTo | src/engraving/libmscore/tempotext.cpp:311-321 | Up to and including the next line feed, the count goes up by one |
| EquationRegion.LineStartGrows | src/engraving/libmscore/tempotext.cpp:311-321 | A row exists only when every earlier row does |
| EquationRegion.TextIndexIntended | src/engraving/libmscore/tempotext.cpp:311-321 | The intended index is a row start plus the column, with exactly `row` line feeds before that start |
| EquationRegion.LineStartStep | src/engraving/libmscore/tempotext.cpp:311-321 | The next row starts one past the first line feed at or after the start of the current row |
| EquationRegion.TextIndexFromCursorCorrected | src/engraving/libmscore/tempotext.cpp:311-321 | The corrected loop, searching past each line feed, computes the intended index |
| EquationRegion.ThirdRowCounterexample | src/engraving/libmscore/tempotext.cpp:311-321 | On "a\nb\nc", row 2 column 0, the loop gives 1 where row 2 starts at 4 |
| Tempo.Clamp | src/engraving/libmscore/tempotext.cpp:471-479 | The result is in [5/60, 999/60] and equals v exactly when v is in range; below gives 5/60, above gives 999/60 |
| Tempo.InitialState | src/engraving/libmscore/tempotext.cpp:63-74 | A new element has an in-range tempo, ratio 1, not relative, a valid visible equation, and does not follow text |
| Tempo.InitialStateInv | src/engraving/libmscore/tempotext.cpp:63-74 | The initial state satisfies the invariant |
| Tempo.SetTempoOn | src/engraving/libmscore/tempotext.cpp:471-479 | After setTempo(v) the tempo is in range, equal to v exactly when v is in range, and no other field changes |
| Tempo.UpdateRelativeClamps | src/engraving/libmscore/tempotext.cpp:267-271 | updateRelative puts the tempo before times the ratio in range, keeps it when already in range, and changes nothing else |
| Tempo.NoteTempo | src/engraving/libmscore/tempotext.cpp:442-447 | An absolute tempo is never negative, and is zero exactly when the bpm is 0 |
| Tempo.NoteRatio | src/engraving/libmscore/tempotext.cpp:459 | The relative ratio is always positive |
| Tempo.Interpret | src/engraving/libmscore/tempotext.cpp:438-460 | A relative reading's ratio is positive; an absolute reading's tempo is not negative |
| Tempo.InterpretFollowsPatterns | src/engraving/libmscore/tempotext.cpp:438-464 | Absolute exactly when the bpm pattern matches; relative exactly when only the relative pattern does; otherwise unread |
| Tempo.AbsoluteOn | src/engraving/libmscore/tempotext.cpp:441-457 | The notated tempo becomes the bpm. The score is told exactly when the tempo differs, and then the tempo is taken with ratio 1 and not relative; otherwise nothing else changes |
| Tempo.RelativeOn | src/engraving/libmscore/tempotext.cpp:458-464 | The ratio is stored, the tempo becomes relative and in range, and the score is told once |
| Tempo.UpdateTempoOn | src/engraving/libmscore/tempotext.cpp:430-465 | updateTempo leaves the equation, visibility, follow flag and text alone, tells the score at most once, and when it does not only the notated tempo may change |
| Tempo.ParseEquationOn | src/engraving/libmscore/tempotext.cpp:610-644 | The text becomes the equation rendered into it; without follow-text nothing else changes and the score is not told |
| Tempo.SetPropertyOn | src/engraving/libmscore/tempotext.cpp:524-553 | TEMPO clamps and tells the score; the follow flag is stored; an equation is stored and parsed only if valid; visibility is stored and the equation parsed again |
| Tempo.SetTempoKeepsRange | src/engraving/libmscore/tempotext.cpp:471-479 | setTempo's result is in range, is v when v is in range, is the nearer bound otherwise, and no other field changes |
| Tempo.SetTempoIdempotent | src/engraving/libmscore/tempotext.cpp:471-479 | Setting the tempo again to the value just stored changes nothing |
| Tempo.AbsoluteEquationUpdate | src/engraving/libmscore/tempotext.cpp:441-457 | Under an absolute equation: notated tempo is the bpm; a different tempo replaces the old one unclamped with ratio 1, not relative, one score push; an equal one changes nothing else |
| Tempo.RelativeEquationUpdate | src/engraving/libmscore/tempotext.cpp:458-464 | Under a relative equation: the ratio is stored, the tempo is relative and is updateRelative's, and the score is told once |
| Tempo.UnreadEquationChangesNothing | src/engraving/libmscore/tempotext.cpp:430-465 | If neither pattern matches, no field changes and the score is not told |
| Tempo.QuarterCaptureDuration | src/engraving/libmscore/tempotext.cpp:441-442 | The captured note "q " of the default equation lasts one quarter: the trailing space is not a dot |
| Tempo.DefaultEquationReading | src/engraving/libmscore/tempotext.cpp:438-445 | "q = 120" reads as 120 quarters per minute, 2.0 per second |
| Tempo.SlowEquationReading | src/engraving/libmscore/tempotext.cpp:438-445 | "q = 1" reads as 1 quarter per minute, 1/60 per second |
| Tempo.DefaultEquationKeepsDefaultTempo | src/engraving/libmscore/tempotext.cpp:63-74 | On a new element "q = 120" yields 2.0, the default tempo: only the notated tempo becomes 120 and the score is not told |
| Tempo.EighthEqualsQuarterReading | src/engraving/libmscore/tempotext.cpp:458-459 | "e = q" reads as the ratio 2 |
| Tempo.EighthCaptureDuration | src/engraving/libmscore/tempotext.cpp:662-686 | The captured note "e " lasts half a quarter: the trailing space is neither a letter nor a dot |
| Tempo.EighthEqualsQuarterDoubles | src/engraving/libmscore/tempotext.cpp:458-464 | "e = q" makes the tempo relative with ratio 2, as updateRelative computes it, and tells the score once |
| Tempo.SlowAbsoluteTempoUnclamped | src/engraving/libmscore/tempotext.cpp:441-457 | "q = 1" sets the tempo to 1/60, below the minimum, and the notated tempo to 1 |
| Tempo.InvalidEquationIgnored | src/engraving/libmscore/tempotext.cpp:535-540 | An invalid equation is not stored, the text is not reparsed, and the score is not told |
| Tempo.ValidEquationStored | src/engraving/libmscore/tempotext.cpp:535-540 | A valid equation is stored and rendered into the text; when following text it is always read and the new state is updateTempo on the stored equation and rendered text; otherwise the score is not told |
| Tempo.ParseEquationFollows | src/engraving/libmscore/tempotext.cpp:641-643 | When following text, parseEquation is updateTempo run on the state with the rendered text |
| Tempo.VisibilityTouchesOnlyText | src/engraving/libmscore/tempotext.cpp:541-544 | Without follow-text, changing visibility changes only the flag and the text |
| Tempo.UpdateTempoInv | src/engraving/libmscore/tempotext.cpp:430-465 | updateTempo keeps the invariant |
| Tempo.ParseEquationInv | src/engraving/libmscore/tempotext.cpp:610-644 | parseEquation keeps the invariant |
| Tempo.SetPropertyInv | src/engraving/libmscore/tempotext.cpp:524-553 | Every modelled property assignment keeps the invariant |
| Tempo.TempoText.constructor | src/engraving/libmscore/tempotext.cpp:63-74 | The fields take the constructor's defaults; the invariant holds and nothing has been pushed to the score |
| Tempo.TempoText.SetTempo | src/engraving/libmscore/tempotext.cpp:471-479 | Only the playback tempo changes, to SetTempoOn's value |
| Tempo.TempoText.UpdateRelative | src/engraving/libmscore/tempotext.cpp:267-271 | Only the playback tempo changes, to updateRelative's value |
| Tempo.TempoText.UpdateScore | src/engraving/libmscore/tempotext.cpp:254-261 | Each call counts one push of the tempo into the score |
| Tempo.TempoText.ApplyAbsoluteTempo | src/engraving/libmscore/tempotext.cpp:443-456 | The fields and the score count become AbsoluteOn's |
| Tempo.TempoText.ApplyRelativeTempo | src/engraving/libmscore/tempotext.cpp:459-463 | The fields become RelativeOn's and the score is told once |
| Tempo.TempoText.UpdateTempo | src/engraving/libmscore/tempotext.cpp:430-465 | The fields and score count become UpdateTempoOn's; the invariant is kept |
| Tempo.TempoText.ParseEquation | src/engraving/libmscore/tempotext.cpp:610-644 | The fields and score count become ParseEquationOn's; the invariant is kept |
| Tempo.TempoText.SetProperty | src/engraving/libmscore/tempotext.cpp:524-553 | Returns true; the fields and score count become SetPropertyOn's; the invariant is kept |

## Left out

- XML `read` and `write` (tempotext.cpp:80-121). They are persistence through the XML reader and writer.
- `layout`, `accessibleInfo`, `startEdit`, `endEdit`, `undoChangeProperty`, `undoSetTempo` and `undoSetFollowText`. They are geometry, translated text and undo-stack handling. Their calls to `updateTempo` are covered by `Tempo.TempoText.UpdateTempo`.
- `getProperty`, `propertyDefault`, `tempoBpm` and `duration`. They only read fields or call `findTempoDuration` on the text, which are modelled.
- `cursorIndexFromTextIndex`. `dragTo` uses it to place the cursor, so `dragTo` is modelled only up to the snapped text index (`EquationRegion.SnapSelectionEnd`).
- The actual `QTextCursor` movement. `moveCursor` is modelled as the decision it makes (`EquationRegion.CursorMove`). The default move and word moves are left to the text editor.
- `Tempo.TempoText.UpdateScore`: the calls into the score become a ghost counter. The tempo just before the element's tick is a parameter, because the score's tempo map is not part of this model.
- `triggerLayout` and the default branch of `setProperty`. They delegate to the text base class, which is not part of this model. `Tempo.TempoText.SetProperty` therefore always answers true.
- Float and `qreal` rounding:
  - bpm's `toFloat`, the `float` factor 1/60 and `powf` are computed exactly over `real`;
  - the comparison `playbackTempo != _playbackTempo` is exact.
- `Tempo.InitialState`: the constructor shown does not set `_notatedTempo`, so its initial value is a parameter. `_tempoText` is set to "" and never read by the modelled code, so it is not a field.
- `Durations.UserName`: the translated words come from `QObject::tr`. `TDuration::durationTypeUserName` is not part of this model, so the type's name is a parameter.
- `EquationSyntax.RelativeDuration`: on an empty marking it reads the first character as no letter (1.0). The source indexes an empty string there, but the captures it is called with are never empty (`EquationSyntax.MatchBpm`, `EquationSyntax.MatchRelative`).
- `QVariant` conversions in `setProperty`. Each property carries its value already converted (`Tempo.PropertyValue`).
- Characters are UTF-16 code units, as in `QString`. The model has no surrogate pairs or normalisation, and every glyph is in the Basic Multilingual Plane.
- The `f` column of the tables is modelled but not used, as in the modelled code.

## Findings

| source | as written | input that shows it | evidently intended | confidence | as-written member | corrected member |
|---|---|---|---|---|---|---|
| src/engraving/libmscore/tempotext.cpp:311-321 | `textIndexFromCursor` searches for the next line feed from the index of the last one found. That index holds a line feed, so the search never moves past the first line feed, and every row after the first maps to the first line feed's index plus the column | the text "a\nb\nc", row 2, column 0: the index is 1, but row 2 starts at 4 | each search starts just past the previous line feed, so row n starts after the n-th line feed | high; follows from `QString::indexOf` returning a match at its start position; not executed | EquationRegion.ThirdRowCounterexample | EquationRegion.TextIndexFromCursorCorrected |
