/**
 * The tempo equation syntax of TempoText: the two patterns updateTempo tries
 * (`note = bpm` and `note1 = note2`), the pattern isEquationValid accepts, and
 * getRelativeDuration. Each anchored regular expression is given twice: as a
 * declarative statement of which splits of the text it admits (Split), and as
 * a recogniser that computes the split the regex engine reports, proved to be
 * the greatest one (leftmost-greedy captures).
 */
module EquationSyntax {
  import opened Wrappers

  /** Which of the three anchored patterns is meant. */
  datatype Form =
    | Absolute  // updateTempo's bpm pattern: a note operand, `=`, a number
    | Relative  // updateTempo's relative pattern: a note operand, `=`, a note operand
    | Validity  // isEquationValid's pattern: either right operand, note letters without the comma

  /** The optional opening character: a bracket, a parenthesis or a comma. */
  predicate IsOpener(c: char) { c == '[' || c == ',' || c == '(' }

  /** The optional closing character: a bracket, a parenthesis or a comma. */
  predicate IsCloser(c: char) { c == ']' || c == ',' || c == ')' }

  /** The note letters d, w, h, q, e, s and t. */
  predicate IsNoteLetter(c: char)
  {
    c == 'd' || c == 'w' || c == 'h' || c == 'q' || c == 'e' || c == 's' || c == 't'
  }

  /** The class a note operand starts with: updateTempo's class lists the letters separated by commas, so it also admits a comma. */
  predicate IsNoteStart(f: Form, c: char)
  {
    if f == Validity then IsNoteLetter(c) else IsNoteLetter(c) || c == ','
  }

  /** `\d`: an ASCII digit. */
  predicate IsDigit(c: char) { '0' <= c <= '9' }

  predicate AllBlanks(t: string) { forall i :: 0 <= i < |t| ==> t[i] == ' ' }

  predicate AllDigits(t: string) { forall i :: 0 <= i < |t| ==> IsDigit(t[i]) }

  /** No character that `.` refuses: every part of the three patterns excludes the line feed. */
  predicate NoNewline(t: string) { forall i :: 0 <= i < |t| ==> t[i] != '\n' }

  /** The part of s that must match up to `$`: `$` also matches just before a final line feed. */
  function Subject(s: string): string
  {
    if |s| > 0 && s[|s| - 1] == '\n' then s[..|s| - 1] else s
  }

  /** The subject is the whole text, or the text without one final line feed. */
  lemma SubjectDropsFinalLineFeed(s: string)
    ensures Subject(s) == s || Subject(s) + "\n" == s
    ensures Subject(s) != s <==> |s| > 0 && s[|s| - 1] == '\n'
  {
    if |s| > 0 && s[|s| - 1] == '\n' {
      assert s[..|s| - 1] + "\n" == s;
    }
  }

  // ---------------------------------------------------------------------
  // Declarative statement of the three patterns

  /** The lead (an optional opening character, then spaces) matches t[..p]. */
  ghost predicate LeadMatches(t: string, p: nat)
  {
    p <= |t| && (AllBlanks(t[..p]) || (0 < p && IsOpener(t[0]) && AllBlanks(t[1..p])))
  }

  /** u is spaces up to c, the digit run u[c..e] (the bpm capture), then at most one closing character. */
  ghost predicate DigitsSplit(u: string, c: nat, e: nat)
  {
    c < e <= |u| && AllBlanks(u[..c]) && AllDigits(u[c..e]) && (e == |u| || (e + 1 == |u| && IsCloser(u[e])))
  }

  /** The number side (spaces, digits, an optional closing character) matches all of u. */
  ghost predicate DigitsRhs(u: string)
  {
    exists c: nat, e: nat :: DigitsSplit(u, c, e)
  }

  /** The note side (spaces, a note character, then anything but a line feed) matches all of u; the trailing part absorbs any closing character. */
  ghost predicate NoteRhs(f: Form, u: string)
  {
    exists c :: 0 <= c < |u| && AllBlanks(u[..c]) && IsNoteStart(f, u[c])
  }

  /** What may follow the `=` in each form. */
  ghost predicate RhsMatches(f: Form, u: string)
  {
    match f
    case Absolute => DigitsRhs(u)
    case Relative => NoteRhs(Relative, u)
    case Validity => DigitsRhs(u) || NoteRhs(Validity, u)
  }

  /**
   * The pattern of form f matches t with the left operand starting at p and
   * the `=` at q: the operand t[p..q] starts with a note character and takes
   * in any spaces before the `=` (its `.*` and the following ` *` cover the same text).
   */
  ghost predicate Split(f: Form, t: string, p: nat, q: nat)
  {
    p < q < |t| && LeadMatches(t, p) && IsNoteStart(f, t[p]) && t[q] == '=' && RhsMatches(f, t[q + 1..])
  }

  /**
   * The split whose captures the regex engine reports: no other split starts
   * the left operand later or ends it later (the opener and the `.*` are greedy).
   */
  ghost predicate GreedySplit(f: Form, t: string, p: nat, q: nat)
  {
    Split(f, t, p, q) && forall p': nat, q': nat :: Split(f, t, p', q') ==> p' <= p && q' <= q
  }

  /** QRegularExpressionMatch::hasMatch for the pattern of form f. */
  ghost predicate Matches(f: Form, s: string)
  {
    NoNewline(Subject(s)) && exists p, q :: Split(f, Subject(s), p, q)
  }

  // ---------------------------------------------------------------------
  // Recognisers

  /** The end of the run of spaces starting at i (what a greedy ` *` consumes). */
  function SkipBlanks(t: string, i: nat): (j: nat)
    requires i <= |t|
    ensures i <= j <= |t|
    ensures AllBlanks(t[i..j])
    ensures j < |t| ==> t[j] != ' '
    decreases |t| - i
  {
    if i < |t| && t[i] == ' ' then
      var j := SkipBlanks(t, i + 1);
      assert t[i..j] == [t[i]] + t[i + 1..j];
      j
    else i
  }

  /** A run of blanks followed by a non-blank ends where SkipBlanks stops. */
  lemma BlanksEndAtSkip(t: string, i: nat, c: nat)
    requires i <= c < |t| && AllBlanks(t[i..c]) && t[c] != ' '
    ensures SkipBlanks(t, i) == c
  {
  }

  /** Where the digits of the number side end: before a final closing character, if there is one. */
  function DigitsEnd(u: string): nat
  {
    if |u| > 0 && IsCloser(u[|u| - 1]) then |u| - 1 else |u|
  }

  function DigitsRhsOk(u: string): (r: bool)
    ensures r <==> DigitsRhs(u)
  {
    var c := SkipBlanks(u, 0);
    var e := DigitsEnd(u);
    var r := c < e && AllDigits(u[c..e]);
    if r then
      assert u[..c] == u[0..c];
      assert DigitsSplit(u, c, e);
      r
    else
      assert !DigitsRhs(u) by {
        if DigitsRhs(u) {
          var c': nat, e': nat :| DigitsSplit(u, c', e');
          assert u[c'..e'][0] == u[c'];
          assert u[..c'] == u[0..c'];
          BlanksEndAtSkip(u, 0, c');
          assert false;
        }
      }
      r
  }

  function NoteRhsOk(f: Form, u: string): (r: bool)
    ensures r <==> NoteRhs(f, u)
  {
    var c := SkipBlanks(u, 0);
    assert u[..c] == u[0..c];
    var r := c < |u| && IsNoteStart(f, u[c]);
    if !r then
      assert !NoteRhs(f, u) by {
        if NoteRhs(f, u) {
          var c' :| 0 <= c' < |u| && AllBlanks(u[..c']) && IsNoteStart(f, u[c']);
          assert u[..c'] == u[0..c'];
          BlanksEndAtSkip(u, 0, c');
          assert false;
        }
      }
      r
    else r
  }

  function RhsOk(f: Form, u: string): (r: bool)
    ensures r <==> RhsMatches(f, u)
  {
    match f
    case Absolute => DigitsRhsOk(u)
    case Relative => NoteRhsOk(Relative, u)
    case Validity => DigitsRhsOk(u) || NoteRhsOk(Validity, u)
  }

  /**
   * Where the left operand starts. The optional opener is tried first (it is
   * greedy), so when both readings work the later start is taken: the
   * result is the greatest p that the lead pattern and the note class allow.
   */
  function LeadStart(f: Form, t: string): (r: Option<nat>)
    ensures r.Some? ==> r.value < |t| && LeadMatches(t, r.value) && IsNoteStart(f, t[r.value])
    ensures forall p: nat :: p < |t| && LeadMatches(t, p) && IsNoteStart(f, t[p]) ==> r.Some? && p <= r.value
  {
    var p0 := SkipBlanks(t, 0);
    assert t[..p0] == t[0..p0];
    if |t| > 0 && IsOpener(t[0]) && SkipBlanks(t, 1) < |t| && IsNoteStart(f, t[SkipBlanks(t, 1)]) then
      var p1 := SkipBlanks(t, 1);
      assert p0 == 0;
      forall p: nat | p < |t| && LeadMatches(t, p) && IsNoteStart(f, t[p]) ensures p <= p1 {
        if !AllBlanks(t[..p]) {
          BlanksEndAtSkip(t, 1, p);
        }
      }
      Some(p1)
    else if p0 < |t| && IsNoteStart(f, t[p0]) then
      forall p: nat | p < |t| && LeadMatches(t, p) && IsNoteStart(f, t[p]) ensures p <= p0 {
        if AllBlanks(t[..p]) {
          assert t[..p] == t[0..p];
          BlanksEndAtSkip(t, 0, p);
        } else {
          BlanksEndAtSkip(t, 1, p);
        }
      }
      Some(p0)
    else
      forall p: nat | p < |t| && LeadMatches(t, p) && IsNoteStart(f, t[p]) ensures false {
        if AllBlanks(t[..p]) {
          assert t[..p] == t[0..p];
          BlanksEndAtSkip(t, 0, p);
        } else {
          BlanksEndAtSkip(t, 1, p);
        }
      }
      None
  }

  /** The `=` that can be followed by the right operand of form f. */
  predicate EqualsAt(f: Form, t: string, q: nat)
    requires q < |t|
  {
    t[q] == '=' && RhsOk(f, t[q + 1..])
  }

  /** The last position below hi where EqualsAt holds (the greedy `.*` of the left operand reaches it). */
  function LastEquals(f: Form, t: string, hi: nat): (r: Option<nat>)
    requires hi <= |t|
    ensures r.Some? ==> r.value < hi && EqualsAt(f, t, r.value)
    ensures forall q: nat :: q < hi && EqualsAt(f, t, q) ==> r.Some? && q <= r.value
    decreases hi
  {
    if hi == 0 then None
    else if EqualsAt(f, t, hi - 1) then Some(hi - 1)
    else LastEquals(f, t, hi - 1)
  }

  /** No `=` lies in the lead text before the left operand. */
  lemma NoEqualsInLead(t: string, p: nat, q: nat)
    requires LeadMatches(t, p) && q < p
    ensures t[q] != '='
  {
    if AllBlanks(t[..p]) {
      assert t[..p][q] == t[q];
    } else if q > 0 {
      assert t[1..p][q - 1] == t[q];
    }
  }

  /**
   * The split the regex engine reports: the left operand starts as late and
   * ends as late as any split allows (leftmost-greedy captures), and there is
   * one exactly when some split exists.
   */
  function Search(f: Form, t: string): (r: Option<(nat, nat)>)
    ensures r.Some? ==> r.value.0 < r.value.1 < |t| && t[r.value.1] == '='
    ensures r.Some? ==> GreedySplit(f, t, r.value.0, r.value.1)
    ensures r.None? ==> forall p: nat, q: nat :: !Split(f, t, p, q)
  {
    var lead := LeadStart(f, t);
    var eq := LastEquals(f, t, |t|);
    forall p: nat, q: nat | Split(f, t, p, q)
      ensures lead.Some? && p <= lead.value && eq.Some? && q <= eq.value
    {
      assert RhsOk(f, t[q + 1..]);
      assert EqualsAt(f, t, q);
    }
    if lead.Some? && eq.Some? then
      var p, q := lead.value, eq.value;
      assert p <= q by {
        if q < p { NoEqualsInLead(t, p, q); }
      }
      assert RhsMatches(f, t[q + 1..]);
      Some((p, q))
    else None
  }

  // ---------------------------------------------------------------------
  // Captures

  /** The decimal value of a digit string (QString::toFloat on `\d+`, exact here). */
  function DigitsValue(ds: string): (r: nat)
    requires AllDigits(ds)
    ensures r == 0 <==> forall i :: 0 <= i < |ds| ==> ds[i] == '0'
    ensures |ds| > 0 ==> r % 10 == (ds[|ds| - 1] - '0') as nat
  {
    if ds == [] then 0
    else
      var init := ds[..|ds| - 1];
      assert forall i :: 0 <= i < |init| ==> init[i] == ds[i];
      DigitsValue(init) * 10 + (ds[|ds| - 1] - '0') as nat
  }

  /** What the bpm pattern captures: the note operand and the tempo number. */
  datatype BpmMatch = BpmMatch(note: string, bpm: nat)

  /** What the relative pattern captures: the two note operands. */
  datatype RelativeMatch = RelativeMatch(note1: string, note2: string)

  /** bpmExpression.match(equation): None when the pattern does not match. */
  function MatchBpm(s: string): (r: Option<BpmMatch>)
    ensures r.Some? <==> Matches(Absolute, s)
  {
    var t := Subject(s);
    if NoNewline(t) && Search(Absolute, t).Some? then
      var (p, q) := Search(Absolute, t).value;
      assert RhsOk(Absolute, t[q + 1..]);
      Some(BpmCaptures(t, p, q))
    else None
  }

  /** The operand and number of a bpm split: the left operand up to the `=`, the digits between the spaces after it and the closer. */
  function BpmCaptures(t: string, p: nat, q: nat): BpmMatch
    requires p <= q < |t| && DigitsRhsOk(t[q + 1..])
  {
    var u := t[q + 1..];
    BpmMatch(t[p..q], DigitsValue(u[SkipBlanks(u, 0)..DigitsEnd(u)]))
  }

  /** relativeExpression.match(equation): None when the pattern does not match. */
  function MatchRelative(s: string): (r: Option<RelativeMatch>)
    ensures r.Some? <==> Matches(Relative, s)
  {
    var t := Subject(s);
    if NoNewline(t) && Search(Relative, t).Some? then
      var (p, q) := Search(Relative, t).value;
      Some(RelativeCaptures(t, p, q))
    else None
  }

  /** The two operands of a relative split: the left one up to the `=`, the right one after the spaces that follow it. */
  function RelativeCaptures(t: string, p: nat, q: nat): RelativeMatch
    requires p <= q < |t|
  {
    RelativeMatch(t[p..q], t[SkipBlanks(t, q + 1)..])
  }

  /** There is only one greedy split: the one with the latest start and the latest `=`. */
  lemma GreedySplitUnique(f: Form, t: string, p: nat, q: nat, p': nat, q': nat)
    requires GreedySplit(f, t, p, q) && GreedySplit(f, t, p', q')
    ensures p == p' && q == q'
  {
    assert Split(f, t, p, q) && Split(f, t, p', q');
  }

  /** The split the search reports is the greedy split. */
  lemma SearchIsGreedy(f: Form, t: string, p: nat, q: nat)
    requires GreedySplit(f, t, p, q)
    ensures Search(f, t) == Some((p, q))
  {
    var (p', q') := Search(f, t).value;
    GreedySplitUnique(f, t, p, q, p', q');
  }

  /** After the `=` of a relative split, the spaces are followed by a note character. */
  lemma NoteAfterBlanks(t: string, q: nat)
    requires q < |t| && NoteRhsOk(Relative, t[q + 1..])
    ensures SkipBlanks(t, q + 1) < |t| && IsNoteStart(Relative, t[SkipBlanks(t, q + 1)])
  {
    var u := t[q + 1..];
    SkipBlanksShift(t, q + 1, 0);
    assert u[SkipBlanks(u, 0)] == t[SkipBlanks(t, q + 1)];
  }

  /**
   * The captures of the bpm pattern: on a text it matches, the note is the
   * greedy left operand, which starts with a note character.
   */
  lemma MatchBpmCaptures(s: string, p: nat, q: nat)
    requires NoNewline(Subject(s)) && GreedySplit(Absolute, Subject(s), p, q)
    ensures MatchBpm(s).Some? && MatchBpm(s).value.note == Subject(s)[p..q]
    ensures |MatchBpm(s).value.note| > 0 && IsNoteStart(Absolute, MatchBpm(s).value.note[0])
    ensures DigitsRhs(Subject(s)[q + 1..])
    ensures var u := Subject(s)[q + 1..];
            forall c: nat, e: nat :: DigitsSplit(u, c, e) ==> MatchBpm(s).value.bpm == DigitsValue(u[c..e])
  {
    var u := Subject(s)[q + 1..];
    SearchIsGreedy(Absolute, Subject(s), p, q);
    assert RhsOk(Absolute, u);
    BpmCapturesOfSearch(s, p, q);
    forall c: nat, e: nat | DigitsSplit(u, c, e)
      ensures MatchBpm(s).value.bpm == DigitsValue(u[c..e])
    {
      DigitsSplitUnique(u, c, e);
    }
  }

  /** On a matching text, the bpm is the value of the digits between the spaces after the reported `=` and the closer. */
  lemma BpmCapturesOfSearch(s: string, p: nat, q: nat)
    requires NoNewline(Subject(s)) && Search(Absolute, Subject(s)) == Some((p, q))
    ensures DigitsRhsOk(Subject(s)[q + 1..])
    ensures MatchBpm(s) == Some(BpmCaptures(Subject(s), p, q))
  {
    assert RhsOk(Absolute, Subject(s)[q + 1..]);
  }

  /** The number side splits in one way only: the spaces end where SkipBlanks stops, the digits where DigitsEnd says. */
  lemma DigitsSplitUnique(u: string, c: nat, e: nat)
    requires DigitsSplit(u, c, e)
    ensures c == SkipBlanks(u, 0) && e == DigitsEnd(u)
  {
    assert u[c..e][0] == u[c];
    assert u[..c] == u[0..c];
    BlanksEndAtSkip(u, 0, c);
    if e == |u| {
      assert u[c..e][e - 1 - c] == u[e - 1];
    }
  }

  /**
   * The captures of the relative pattern: on a text it matches, note1 is the
   * greedy left operand and note2 is everything after the spaces that follow
   * the `=`; both start with a note character.
   */
  lemma MatchRelativeCaptures(s: string, p: nat, q: nat)
    requires NoNewline(Subject(s)) && GreedySplit(Relative, Subject(s), p, q)
    ensures MatchRelative(s).Some?
    ensures MatchRelative(s).value.note1 == Subject(s)[p..q]
    ensures MatchRelative(s).value.note2 == Subject(s)[SkipBlanks(Subject(s), q + 1)..]
    ensures |MatchRelative(s).value.note1| > 0 && IsNoteStart(Relative, MatchRelative(s).value.note1[0])
    ensures |MatchRelative(s).value.note2| > 0 && IsNoteStart(Relative, MatchRelative(s).value.note2[0])
  {
    var t := Subject(s);
    SearchIsGreedy(Relative, t, p, q);
    assert NoteRhsOk(Relative, t[q + 1..]) by {
      assert RhsOk(Relative, t[q + 1..]);
    }
    NoteAfterBlanks(t, q);
    RelativeCapturesOfSearch(s, p, q);
  }

  /** On a matching text, the captures are those of the split the search reports. */
  lemma RelativeCapturesOfSearch(s: string, p: nat, q: nat)
    requires NoNewline(Subject(s)) && Search(Relative, Subject(s)) == Some((p, q))
    ensures MatchRelative(s) == Some(RelativeMatch(Subject(s)[p..q], Subject(s)[SkipBlanks(Subject(s), q + 1)..]))
  {
    assert MatchRelative(s) == Some(RelativeCaptures(Subject(s), p, q));
  }

  /** Skipping blanks in a suffix is skipping them in the whole text from the suffix's start. */
  lemma {:induction false} SkipBlanksShift(t: string, i: nat, k: nat)
    requires i + k <= |t|
    ensures SkipBlanks(t[i..], k) + i == SkipBlanks(t, i + k)
    decreases |t| - i - k
  {
    if i + k < |t| && t[i + k] == ' ' {
      SkipBlanksShift(t, i, k + 1);
    }
  }

  /** isEquationValid. */
  function IsEquationValid(s: string): (r: bool)
    ensures r <==> Matches(Validity, s)
  {
    NoNewline(Subject(s)) && Search(Validity, Subject(s)).Some?
  }

  /**
   * Every equation isEquationValid accepts is read by updateTempo: its number
   * form by the bpm pattern, its note form by the relative pattern (whose
   * note class is the wider one).
   */
  lemma ValidEquationsAreRead(s: string)
    requires IsEquationValid(s)
    ensures Matches(Absolute, s) || Matches(Relative, s)
  {
    var t := Subject(s);
    var p: nat, q: nat :| Split(Validity, t, p, q);
    var u := t[q + 1..];
    if DigitsRhs(u) {
      assert Split(Absolute, t, p, q);
    } else {
      var c :| 0 <= c < |u| && AllBlanks(u[..c]) && IsNoteStart(Validity, u[c]);
      assert NoteRhs(Relative, u);
      assert Split(Relative, t, p, q);
    }
  }

  /** The default equation is accepted. */
  lemma ValidAbsoluteExample()
    ensures IsEquationValid("q = 120")
  {
    var a := "q = 120";
    assert Subject(a) == a;
    assert a[3..][..1] == " " && a[3..][1..4] == "120";
    assert DigitsSplit(a[3..], 1, 4);
    assert Split(Validity, a, 0, 2);
  }

  /** A relative equation is accepted. */
  lemma ValidRelativeExample()
    ensures IsEquationValid("e = q")
  {
    var b := "e = q";
    assert Subject(b) == b;
    assert b[3..][..1] == " ";
    assert NoteRhs(Validity, b[3..]);
    assert Split(Validity, b, 0, 2);
  }

  /** A bracketed, dotted equation is accepted. */
  lemma ValidBracketedExample()
    ensures IsEquationValid("(q. = 90)")
  {
    var c := "(q. = 90)";
    assert Subject(c) == c;
    assert c[1..1] == [];
    assert c[5..][..1] == " " && c[5..][1..3] == "90";
    assert DigitsSplit(c[5..], 1, 3);
    assert Split(Validity, c, 1, 4);
  }

  /** A left operand that starts with a digit is refused. */
  lemma NumberFirstRefused()
    ensures !IsEquationValid("120 = q")
  {
    var a := "120 = q";
    assert Subject(a) == a;
    assert SkipBlanks(a, 0) == 0;
    assert LeadStart(Validity, a).None?;
  }

  /** A left operand that starts with a letter outside the note letters is refused. */
  lemma UnknownLetterRefused()
    ensures !IsEquationValid("x = 120")
  {
    var b := "x = 120";
    assert Subject(b) == b;
    assert SkipBlanks(b, 0) == 0;
    assert LeadStart(Validity, b).None?;
  }

  /**
   * A split after which no `=` follows, and whose left operand has no later
   * possible start before its `=`, is the one the engine reports.
   */
  lemma SearchFinds(f: Form, t: string, p0: nat, q0: nat)
    requires Split(f, t, p0, q0)
    requires forall k :: q0 < k < |t| ==> t[k] != '='
    requires forall k :: p0 < k < q0 ==> !IsNoteStart(f, t[k])
    ensures Search(f, t) == Some((p0, q0))
  {
    var (p, q) := Search(f, t).value;
    assert p0 <= p && q0 <= q;
  }

  lemma DigitsValueExamples()
    ensures DigitsValue("1") == 1
    ensures DigitsValue("120") == 120
  {
    assert "1"[..0] == "";
    assert "120"[..2] == "12" && "12"[..1] == "1";
  }

  /** The default equation reads as a quarter note (with the space before `=`) at 120. */
  lemma DefaultEquationCaptures()
    ensures MatchBpm("q = 120") == Some(BpmMatch("q ", 120))
  {
    var a := "q = 120";
    assert Subject(a) == a && NoNewline(a);
    var u := a[3..];
    assert u[..1] == " " && u[1..4] == "120";
    assert DigitsSplit(u, 1, 4);
    assert Split(Absolute, a, 0, 2);
    SearchFinds(Absolute, a, 0, 2);
    assert SkipBlanks(u, 0) == 1;
    assert DigitsEnd(u) == 4;
    assert a[0..2] == "q ";
    DigitsValueExamples();
    assert MatchBpm(a) == Some(BpmMatch(a[0..2], DigitsValue(u[1..4])));
  }

  /** A slow absolute equation reads as a quarter note at 1. */
  lemma SlowEquationCaptures()
    ensures MatchBpm("q = 1") == Some(BpmMatch("q ", 1))
  {
    var a := "q = 1";
    assert Subject(a) == a && NoNewline(a);
    var u := a[3..];
    assert u[..1] == " " && u[1..2] == "1";
    assert DigitsSplit(u, 1, 2);
    assert Split(Absolute, a, 0, 2);
    SearchFinds(Absolute, a, 0, 2);
    assert SkipBlanks(u, 0) == 1;
    assert DigitsEnd(u) == 2;
    assert a[0..2] == "q ";
    DigitsValueExamples();
    assert MatchBpm(a) == Some(BpmMatch(a[0..2], DigitsValue(u[1..2])));
  }

  /** "e = q" is not an absolute equation. */
  lemma RelativeEquationNotAbsolute()
    ensures MatchBpm("e = q").None?
  {
    var b := "e = q";
    assert Subject(b) == b && NoNewline(b);
    var u := b[3..];
    assert SkipBlanks(u, 0) == 1 && DigitsEnd(u) == 2;
    assert u[1..2][0] == 'q';
    assert !DigitsRhsOk(u);
    assert !EqualsAt(Absolute, b, 2);
    assert LastEquals(Absolute, b, |b|).None?;
  }

  /** The relative reading of "e = q" compares an eighth with a quarter. */
  lemma RelativeEquationCaptures()
    ensures MatchRelative("e = q") == Some(RelativeMatch("e ", "q"))
  {
    var b := "e = q";
    assert Subject(b) == b && NoNewline(b);
    assert b[3..][..1] == " ";
    assert NoteRhs(Relative, b[3..]);
    assert Split(Relative, b, 0, 2);
    SearchFinds(Relative, b, 0, 2);
    assert SkipBlanks(b, 3) == 4;
    assert b[0..2] == "e " && b[4..] == "q";
    assert MatchRelative(b) == Some(RelativeMatch(b[0..2], b[4..]));
  }

  // ---------------------------------------------------------------------
  // getRelativeDuration

  /** The note letter table: d=8, w=4, h=2, q=1, e=0.5, s=0.25, t=0.125 quarter notes; anything else 1. */
  function BaseDuration(c: char): (r: real)
    ensures 0.125 <= r <= 8.0
    ensures !IsNoteLetter(c) ==> r == 1.0
  {
    match c
    case 'd' => 8.0
    case 'w' => 4.0
    case 'h' => 2.0
    case 'q' => 1.0
    case 'e' => 0.5
    case 's' => 0.25
    case 't' => 0.125
    case _ => 1.0
  }

  /** QString::count("."): the dots anywhere in the marking. */
  function CountDots(m: string): (r: nat)
    ensures r <= |m|
    ensures r == 0 <==> forall i :: 0 <= i < |m| ==> m[i] != '.'
  {
    if m == [] then 0 else (if m[0] == '.' then 1 else 0) + CountDots(m[1..])
  }

  /** 1.5 to the power n. */
  function Pow15(n: nat): (r: real)
    ensures r >= 1.0
    ensures n > 0 ==> r > 1.0
  {
    if n == 0 then 1.0 else 1.5 * Pow15(n - 1)
  }

  /**
   * getRelativeDuration: the duration of a note marking in quarter notes, the
   * first character's table value times 1.5 per dot. An empty marking reads
   * as no letter (the captures it is called with are never empty).
   */
  function RelativeDuration(m: string): (r: real)
    ensures r > 0.0
  {
    (if |m| == 0 then 1.0 else BaseDuration(m[0])) * Pow15(CountDots(m))
  }

  lemma {:induction false} CountDotsAppend(a: string, b: string)
    ensures CountDots(a + b) == CountDots(a) + CountDots(b)
    decreases |a|
  {
    if a == [] {
      assert a + b == b;
    } else {
      assert (a + b)[1..] == a[1..] + b;
      CountDotsAppend(a[1..], b);
    }
  }

  /** A dot anywhere after the letter (not only right after it) multiplies the duration by 1.5. */
  lemma DotAnywhere(a: string, b: string)
    requires |a| > 0
    ensures RelativeDuration(a + "." + b) == 1.5 * RelativeDuration(a + b)
  {
    CountDotsAppend(a + ".", b);
    CountDotsAppend(a, ".");
    CountDotsAppend(a, b);
    assert (a + "." + b)[0] == a[0] == (a + b)[0];
  }

  /** Characters other than dots after the letter, such as the spaces a capture keeps, change nothing. */
  lemma NonDotsIgnored(a: string, b: string)
    requires |a| > 0 && CountDots(b) == 0
    ensures RelativeDuration(a + b) == RelativeDuration(a)
  {
    CountDotsAppend(a, b);
    assert (a + b)[0] == a[0];
  }

  lemma RelativeDurationExamples()
    ensures RelativeDuration("q") == 1.0
    ensures RelativeDuration("q.") == 1.5
    ensures RelativeDuration("q..") == 2.25
    ensures RelativeDuration("h") == 2.0
    ensures RelativeDuration("x..") == 2.25
  {
    assert CountDots("q") == 0;
    assert CountDots("q.") == 1;
    assert CountDots("q..") == 2;
    assert CountDots("x..") == 2;
  }
}
