/**
 * The tempo state of a TempoText: the playback tempo (quarter notes per
 * second), the notated tempo, the relative ratio, the equation and its
 * visibility, the follow-text switch and the text itself. The operations are
 * given twice: as functions from the old state to the new one, about which the
 * properties are proved, and as the methods of a class whose fields they
 * update in place, each proved to agree with its function.
 *
 * The score around the element is not modelled: the tempo just before the
 * element's tick comes in as `tempoBefore`, and each time the source pushes
 * the tempo into the score (updateScore, or the score calls of setProperty)
 * is counted.
 */
module Tempo {
  import opened EquationSyntax
  import EquationRegion

  /** MIN_TEMPO and MAX_TEMPO: 5 and 999 quarter notes per minute. */
  const MinTempo: real := 5.0 / 60.0
  const MaxTempo: real := 999.0 / 60.0

  /** The value setTempo stores. */
  function Clamp(v: real): (r: real)
    ensures MinTempo <= r <= MaxTempo
    ensures r == v <==> MinTempo <= v <= MaxTempo
    ensures v < MinTempo ==> r == MinTempo
    ensures v > MaxTempo ==> r == MaxTempo
  {
    if v < MinTempo then MinTempo else if v > MaxTempo then MaxTempo else v
  }

  /** The fields of a TempoText that the tempo logic reads and writes. */
  datatype TempoState = TempoState(
    playbackTempo: real,
    notatedTempo: int,
    relative: real,
    isRelative: bool,
    equation: string,
    isEquationVisible: bool,
    followText: bool,
    xmlText: string)

  /** A new state and the number of times the tempo was pushed into the score on the way. */
  datatype Outcome = Outcome(st: TempoState, scoreSyncs: nat)

  /** The state a new TempoText starts in; the notated tempo's initial value is not set by the constructor. */
  function InitialState(notatedTempo: int): (st: TempoState)
    ensures Clamp(st.playbackTempo) == st.playbackTempo && st.relative == 1.0 && !st.isRelative
    ensures IsEquationValid(st.equation) && st.isEquationVisible && !st.followText
  {
    ValidAbsoluteExample();
    TempoState(2.0, notatedTempo, 1.0, false, "q = 120", true, false, "")
  }

  /**
   * What the element's fields always satisfy: the ratio is positive and is 1
   * unless the tempo is relative, a relative tempo lies in the clamped range,
   * and no tempo is negative. An absolute tempo may lie outside the range.
   * It is a proved invariant: the initial state has it (InitialStateInv) and
   * every operation keeps it (UpdateTempoInv, ParseEquationInv, SetPropertyInv,
   * and Valid() in the class); no operation needs it to run.
   */
  predicate Inv(st: TempoState)
  {
    && st.relative > 0.0
    && (!st.isRelative ==> st.relative == 1.0)
    && (st.isRelative ==> MinTempo <= st.playbackTempo <= MaxTempo)
    && st.playbackTempo >= 0.0
  }

  lemma InitialStateInv(notatedTempo: int)
    ensures Inv(InitialState(notatedTempo))
  {
  }

  /** setTempo: the playback tempo becomes v clamped into range, and nothing else changes. */
  function SetTempoOn(st: TempoState, v: real): (r: TempoState)
    ensures MinTempo <= r.playbackTempo <= MaxTempo
    ensures r.playbackTempo == v <==> MinTempo <= v <= MaxTempo
    ensures r.(playbackTempo := st.playbackTempo) == st
  {
    st.(playbackTempo := Clamp(v))
  }

  /** updateRelative: setTempo of the tempo before the element times the ratio. */
  function UpdateRelativeOn(st: TempoState, tempoBefore: real): (r: TempoState)
  {
    SetTempoOn(st, tempoBefore * st.relative)
  }

  /** updateRelative puts the scaled tempo in range, keeps it when it already is, and changes nothing else. */
  lemma UpdateRelativeClamps(st: TempoState, tempoBefore: real)
    ensures var r := UpdateRelativeOn(st, tempoBefore);
            && MinTempo <= r.playbackTempo <= MaxTempo
            && (MinTempo <= tempoBefore * st.relative <= MaxTempo ==> r.playbackTempo == tempoBefore * st.relative)
            && r.(playbackTempo := st.playbackTempo) == st
  {
  }

  /** How updateTempo reads an equation. */
  datatype Reading =
    | AbsoluteTempo(bpm: nat, tempo: real)  // note = bpm: notated bpm, playback tempo in quarters per second
    | RelativeTempo(ratio: real)            // note1 = note2: note2's length over note1's
    | Unrecognised

  /** The playback tempo of `note = bpm`: the note's length in quarters times the bpm, per second. */
  function NoteTempo(note: string, bpm: nat): (r: real)
    ensures r >= 0.0 && (r == 0.0 <==> bpm == 0)
  {
    var d := RelativeDuration(note);
    assert bpm > 0 ==> d * bpm as real > 0.0;
    d * bpm as real / 60.0
  }

  /** The ratio of `note1 = note2`: how many note1s last as long as one note2. */
  function NoteRatio(note1: string, note2: string): (r: real)
    ensures r > 0.0
  {
    var d1, d2 := RelativeDuration(note1), RelativeDuration(note2);
    QuotientOfPositives(d2, d1);
    d2 / d1
  }

  lemma QuotientOfPositives(a: real, b: real)
    requires a > 0.0 && b > 0.0
    ensures a / b > 0.0 && a / b * b == a
  {
  }

  /** The reading of an equation: the bpm pattern is tried first, then the relative one. */
  function Interpret(equation: string): (r: Reading)
    ensures r.RelativeTempo? ==> r.ratio > 0.0
    ensures r.AbsoluteTempo? ==> r.tempo >= 0.0
  {
    match MatchBpm(equation)
    case Some(m) => AbsoluteTempo(m.bpm, NoteTempo(m.note, m.bpm))
    case None =>
      match MatchRelative(equation)
      case Some(m) => RelativeTempo(NoteRatio(m.note1, m.note2))
      case None => Unrecognised
  }

  /**
   * Which reading an equation gets: absolute exactly when the bpm pattern
   * matches, relative exactly when only the relative one does.
   */
  lemma InterpretFollowsPatterns(equation: string)
    ensures Interpret(equation).AbsoluteTempo? <==> Matches(Absolute, equation)
    ensures Interpret(equation).RelativeTempo? <==> !Matches(Absolute, equation) && Matches(Relative, equation)
    ensures Interpret(equation).Unrecognised? <==> !Matches(Absolute, equation) && !Matches(Relative, equation)
  {
  }

  /**
   * updateTempo's absolute branch: the notated tempo is always the bpm; when
   * the tempo differs from the playback tempo, that tempo is taken unclamped,
   * the tempo stops being relative and the score is told.
   */
  function AbsoluteOn(st: TempoState, bpm: nat, tempo: real): (r: Outcome)
    ensures r.st.notatedTempo == bpm
    ensures r.scoreSyncs == 1 <==> tempo != st.playbackTempo
    ensures r.scoreSyncs == 1 ==> r.st.playbackTempo == tempo && r.st.relative == 1.0 && !r.st.isRelative
    ensures r.scoreSyncs == 0 ==> r.st == st.(notatedTempo := bpm)
  {
    var noted := st.(notatedTempo := bpm);
    if tempo != st.playbackTempo then
      Outcome(noted.(playbackTempo := tempo, relative := 1.0, isRelative := false), 1)
    else Outcome(noted, 0)
  }

  /**
   * updateTempo's relative branch: the ratio is stored, the tempo is made
   * relative, updateRelative recomputes it and the score is told.
   */
  function RelativeOn(st: TempoState, ratio: real, tempoBefore: real): (r: Outcome)
    ensures r.scoreSyncs == 1 && r.st.relative == ratio && r.st.isRelative
    ensures MinTempo <= r.st.playbackTempo <= MaxTempo
  {
    Outcome(UpdateRelativeOn(st.(relative := ratio, isRelative := true), tempoBefore), 1)
  }

  /**
   * updateTempo: the bpm reading is tried first, then the relative one; an
   * equation neither pattern reads changes nothing.
   */
  function UpdateTempoOn(st: TempoState, tempoBefore: real): (r: Outcome)
    ensures r.st.equation == st.equation && r.st.isEquationVisible == st.isEquationVisible
    ensures r.st.followText == st.followText && r.st.xmlText == st.xmlText
    ensures r.scoreSyncs <= 1
    ensures r.scoreSyncs == 0 ==> r.st.(notatedTempo := st.notatedTempo) == st
  {
    match Interpret(st.equation)
    case AbsoluteTempo(bpm, tempo) => AbsoluteOn(st, bpm, tempo)
    case RelativeTempo(ratio) => RelativeOn(st, ratio, tempoBefore)
    case Unrecognised => Outcome(st, 0)
  }

  /**
   * parseEquation: the text gets the equation's glyph rendering (or loses it
   * when hidden); when the text is followed, the tempo is then updated.
   */
  function ParseEquationOn(st: TempoState, tempoBefore: real): (r: Outcome)
    ensures r.st.xmlText == EquationRegion.ParsedText(st.xmlText, st.equation, st.isEquationVisible)
    ensures r.st.equation == st.equation && r.st.isEquationVisible == st.isEquationVisible
    ensures !st.followText ==> r.scoreSyncs == 0 && r.st.(xmlText := st.xmlText) == st
  {
    var rendered := st.(xmlText := EquationRegion.ParsedText(st.xmlText, st.equation, st.isEquationVisible));
    if st.followText then UpdateTempoOn(rendered, tempoBefore) else Outcome(rendered, 0)
  }

  /** A property assignment, for the four properties TempoText handles itself. */
  datatype PropertyValue =
    | TempoValue(tempo: real)
    | FollowTextValue(follow: bool)
    | EquationValue(equation: string)
    | EquationVisibleValue(visible: bool)

  /**
   * setProperty: TEMPO clamps and pushes the tempo into the score; the follow
   * flag is stored as it is; an equation is stored and rendered only when
   * isEquationValid accepts it; the visibility is stored and the equation
   * rendered again.
   */
  function SetPropertyOn(st: TempoState, v: PropertyValue, tempoBefore: real): (r: Outcome)
    ensures v.TempoValue? ==> r == Outcome(SetTempoOn(st, v.tempo), 1)
    ensures v.FollowTextValue? ==> r == Outcome(st.(followText := v.follow), 0)
    ensures v.EquationValue? ==>
      r == (if IsEquationValid(v.equation) then ParseEquationOn(st.(equation := v.equation), tempoBefore) else Outcome(st, 0))
    ensures v.EquationVisibleValue? ==> r == ParseEquationOn(st.(isEquationVisible := v.visible), tempoBefore)
  {
    match v
    case TempoValue(tempo) => Outcome(SetTempoOn(st, tempo), 1)
    case FollowTextValue(follow) => Outcome(st.(followText := follow), 0)
    case EquationValue(equation) =>
      if IsEquationValid(equation) then ParseEquationOn(st.(equation := equation), tempoBefore)
      else Outcome(st, 0)
    case EquationVisibleValue(visible) => ParseEquationOn(st.(isEquationVisible := visible), tempoBefore)
  }

  // ---------------------------------------------------------------------
  // Properties of the state functions

  /** After setTempo the tempo is in range, equal to v exactly when v is, and no other field changes. */
  lemma SetTempoKeepsRange(st: TempoState, v: real)
    ensures var r := SetTempoOn(st, v);
            && MinTempo <= r.playbackTempo <= MaxTempo
            && (MinTempo <= v <= MaxTempo ==> r.playbackTempo == v)
            && (v < MinTempo ==> r.playbackTempo == MinTempo)
            && (v > MaxTempo ==> r.playbackTempo == MaxTempo)
            && r.(playbackTempo := st.playbackTempo) == st
  {
  }

  /** Setting the tempo twice is setting it once: the clamp is idempotent. */
  lemma SetTempoIdempotent(st: TempoState, v: real)
    ensures SetTempoOn(SetTempoOn(st, v), SetTempoOn(st, v).playbackTempo) == SetTempoOn(st, v)
  {
  }

  /**
   * An absolute equation: the notated tempo is always its bpm; the playback
   * tempo, ratio and relative flag change, and the score is told, exactly when
   * its tempo differs from the current one.
   */
  lemma AbsoluteEquationUpdate(st: TempoState, tempoBefore: real)
    requires Interpret(st.equation).AbsoluteTempo?
    ensures var a := Interpret(st.equation);
            var r := UpdateTempoOn(st, tempoBefore);
            && r.st.notatedTempo == a.bpm
            && (a.tempo != st.playbackTempo ==>
                  r == Outcome(st.(notatedTempo := a.bpm, playbackTempo := a.tempo, relative := 1.0, isRelative := false), 1))
            && (a.tempo == st.playbackTempo ==> r == Outcome(st.(notatedTempo := a.bpm), 0))
  {
  }

  /**
   * A relative equation: the ratio is note2 over note1, the tempo becomes
   * the one before times the ratio, clamped, and the score is told.
   */
  lemma RelativeEquationUpdate(st: TempoState, tempoBefore: real)
    requires Interpret(st.equation).RelativeTempo?
    ensures var ratio := Interpret(st.equation).ratio;
            var r := UpdateTempoOn(st, tempoBefore);
            && r.scoreSyncs == 1 && r.st.isRelative && r.st.relative == ratio
            && r.st == UpdateRelativeOn(st.(relative := ratio, isRelative := true), tempoBefore)
  {
    var ratio := Interpret(st.equation).ratio;
    var st1 := st.(relative := ratio, isRelative := true);
    assert UpdateTempoOn(st, tempoBefore) == Outcome(UpdateRelativeOn(st1, tempoBefore), 1);
  }

  /** An equation neither pattern reads leaves every field as it was. */
  lemma UnreadEquationChangesNothing(st: TempoState, tempoBefore: real)
    requires !Matches(Absolute, st.equation) && !Matches(Relative, st.equation)
    ensures UpdateTempoOn(st, tempoBefore) == Outcome(st, 0)
  {
    InterpretFollowsPatterns(st.equation);
  }

  /** The note "q " that the default equation captures lasts one quarter: the space is not a dot. */
  lemma QuarterCaptureDuration()
    ensures RelativeDuration("q ") == 1.0
  {
    assert CountDots("q ") == 0 by {
      assert "q "[1..] == " " && " "[1..] == "";
    }
  }

  /** "q = 120" reads as 120 quarters per minute: 2 quarters per second. */
  lemma DefaultEquationReading()
    ensures Interpret("q = 120") == AbsoluteTempo(120, 2.0)
  {
    DefaultEquationCaptures();
    QuarterCaptureDuration();
  }

  /** "q = 1" reads as 1 quarter per minute. */
  lemma SlowEquationReading()
    ensures Interpret("q = 1") == AbsoluteTempo(1, 1.0 / 60.0)
  {
    SlowEquationCaptures();
    QuarterCaptureDuration();
  }

  /**
   * On a new element the default equation yields 2 quarters per second, the
   * default tempo: only the notated tempo changes, and the score is not told.
   */
  lemma DefaultEquationKeepsDefaultTempo(notatedTempo: int, tempoBefore: real)
    ensures UpdateTempoOn(InitialState(notatedTempo), tempoBefore) == Outcome(InitialState(120), 0)
  {
    var st := InitialState(notatedTempo);
    DefaultEquationReading();
    assert UpdateTempoOn(st, tempoBefore) == AbsoluteOn(st, 120, 2.0);
  }

  /** "e = q" reads as a ratio of 2: a quarter lasts two eighths. */
  lemma EighthEqualsQuarterReading()
    ensures Interpret("e = q") == RelativeTempo(2.0)
  {
    RelativeEquationNotAbsolute();
    RelativeEquationCaptures();
    RelativeDurationExamples();
    EighthCaptureDuration();
  }

  /** The note "e " that "e = q" captures lasts half a quarter: the space is not a dot. */
  lemma EighthCaptureDuration()
    ensures RelativeDuration("e ") == 0.5
  {
    assert CountDots("e ") == 0 by {
      assert "e "[1..] == " " && " "[1..] == "";
    }
  }

  /** "e = q" makes the tempo relative with ratio 2: twice the tempo before, clamped. */
  lemma EighthEqualsQuarterDoubles(st: TempoState, tempoBefore: real)
    requires st.equation == "e = q"
    ensures var r := UpdateTempoOn(st, tempoBefore);
            r == Outcome(UpdateRelativeOn(st.(relative := 2.0, isRelative := true), tempoBefore), 1)
  {
    EighthEqualsQuarterReading();
  }

  /**
   * "q = 1" is not clamped: the playback tempo becomes 1/60, below MinTempo,
   * unless it already was.
   */
  lemma SlowAbsoluteTempoUnclamped(st: TempoState, tempoBefore: real)
    requires st.equation == "q = 1" && st.playbackTempo != 1.0 / 60.0
    ensures var r := UpdateTempoOn(st, tempoBefore);
            r.st.playbackTempo == 1.0 / 60.0 && r.st.playbackTempo < MinTempo && r.st.notatedTempo == 1
  {
    SlowEquationReading();
    assert UpdateTempoOn(st, tempoBefore) == AbsoluteOn(st, 1, 1.0 / 60.0);
  }

  /** An equation isEquationValid refuses is not stored, and nothing else happens. */
  lemma InvalidEquationIgnored(st: TempoState, equation: string, tempoBefore: real)
    requires !IsEquationValid(equation)
    ensures SetPropertyOn(st, EquationValue(equation), tempoBefore) == Outcome(st, 0)
  {
  }

  /**
   * A valid equation is stored and rendered into the text; when the text is
   * followed, the tempo is then always updated from it, since every valid
   * equation is read by one of updateTempo's patterns.
   */
  lemma ValidEquationStored(st: TempoState, equation: string, tempoBefore: real)
    requires IsEquationValid(equation)
    ensures var r := SetPropertyOn(st, EquationValue(equation), tempoBefore);
            && r.st.equation == equation
            && r.st.xmlText == EquationRegion.ParsedText(st.xmlText, equation, st.isEquationVisible)
            && (!st.followText ==> r.scoreSyncs == 0)
            && (st.followText ==>
                  && Interpret(equation) != Unrecognised
                  && r == UpdateTempoOn(st.(equation := equation, xmlText := r.st.xmlText), tempoBefore))
  {
    ValidEquationsAreRead(equation);
  }

  /** Hiding an equation and showing it again without following the text touches only the text. */
  lemma VisibilityTouchesOnlyText(st: TempoState, visible: bool, tempoBefore: real)
    requires !st.followText
    ensures var r := SetPropertyOn(st, EquationVisibleValue(visible), tempoBefore);
            r.scoreSyncs == 0 && r.st.(xmlText := st.xmlText) == st.(isEquationVisible := visible)
  {
  }

  /** With the text followed, parseEquation ends with updateTempo on the re-rendered state. */
  lemma ParseEquationFollows(st: TempoState, tempoBefore: real)
    requires st.followText
    ensures ParseEquationOn(st, tempoBefore)
              == UpdateTempoOn(st.(xmlText := EquationRegion.ParsedText(st.xmlText, st.equation, st.isEquationVisible)), tempoBefore)
  {
  }

  lemma UpdateTempoInv(st: TempoState, tempoBefore: real)
    requires Inv(st)
    ensures Inv(UpdateTempoOn(st, tempoBefore).st)
  {
  }

  lemma ParseEquationInv(st: TempoState, tempoBefore: real)
    requires Inv(st)
    ensures Inv(ParseEquationOn(st, tempoBefore).st)
  {
    UpdateTempoInv(st.(xmlText := EquationRegion.ParsedText(st.xmlText, st.equation, st.isEquationVisible)), tempoBefore);
  }

  /** Every property assignment keeps the invariant. */
  lemma SetPropertyInv(st: TempoState, v: PropertyValue, tempoBefore: real)
    requires Inv(st)
    ensures Inv(SetPropertyOn(st, v, tempoBefore).st)
  {
    match v
    case TempoValue(_) =>
    case FollowTextValue(_) =>
    case EquationValue(e) =>
      ParseEquationInv(st.(equation := e), tempoBefore);
    case EquationVisibleValue(b) =>
      ParseEquationInv(st.(isEquationVisible := b), tempoBefore);
  }

  // ---------------------------------------------------------------------
  // The element

  class TempoText {
    var playbackTempo: real
    var notatedTempo: int
    var relative: real
    var isRelative: bool
    var equation: string
    var isEquationVisible: bool
    var followText: bool
    var xmlText: string
    /** How many times the tempo has been pushed into the score. */
    ghost var scoreSyncs: nat

    function State(): (st: TempoState)
      reads this
    {
      TempoState(playbackTempo, notatedTempo, relative, isRelative, equation, isEquationVisible, followText, xmlText)
    }

    predicate Valid()
      reads this
    {
      Inv(State())
    }

    constructor(notatedTempo0: int)
      ensures State() == InitialState(notatedTempo0) && scoreSyncs == 0
      ensures Valid()
    {
      playbackTempo := 2.0;
      notatedTempo := notatedTempo0;
      followText := false;
      relative := 1.0;
      isRelative := false;
      equation := "q = 120";
      isEquationVisible := true;
      xmlText := "";
      scoreSyncs := 0;
    }

    method SetTempo(v: real)
      modifies this`playbackTempo
      ensures State() == SetTempoOn(old(State()), v)
    {
      if v < MinTempo {
        playbackTempo := MinTempo;
      } else if v > MaxTempo {
        playbackTempo := MaxTempo;
      } else {
        playbackTempo := v;
      }
    }

    method UpdateRelative(tempoBefore: real)
      modifies this`playbackTempo
      ensures State() == UpdateRelativeOn(old(State()), tempoBefore)
    {
      SetTempo(tempoBefore * relative);
    }

    /** The stand-in for updateScore: the score now has this element's tempo. */
    ghost method UpdateScore()
      modifies this`scoreSyncs
      ensures scoreSyncs == old(scoreSyncs) + 1
    {
      scoreSyncs := scoreSyncs + 1;
    }

    /** updateTempo's absolute branch. */
    method ApplyAbsoluteTempo(bpm: nat, tempo: real)
      modifies this
      ensures State() == AbsoluteOn(old(State()), bpm, tempo).st
      ensures scoreSyncs == old(scoreSyncs) + AbsoluteOn(old(State()), bpm, tempo).scoreSyncs
    {
      notatedTempo := bpm;
      if tempo != playbackTempo {
        playbackTempo := tempo;
        relative := 1.0;
        isRelative := false;
        UpdateScore();
      }
    }

    /** updateTempo's relative branch. */
    method ApplyRelativeTempo(ratio: real, tempoBefore: real)
      modifies this
      ensures State() == RelativeOn(old(State()), ratio, tempoBefore).st
      ensures scoreSyncs == old(scoreSyncs) + 1
    {
      relative := ratio;
      isRelative := true;
      UpdateRelative(tempoBefore);
      UpdateScore();
    }

    method UpdateTempo(tempoBefore: real)
      modifies this
      ensures State() == UpdateTempoOn(old(State()), tempoBefore).st
      ensures scoreSyncs == old(scoreSyncs) + UpdateTempoOn(old(State()), tempoBefore).scoreSyncs
      ensures old(Valid()) ==> Valid()
    {
      ghost var st := State();
      if Inv(st) {
        UpdateTempoInv(st, tempoBefore);
      }
      var bpmMatch := MatchBpm(equation);
      var relativeMatch := MatchRelative(equation);
      if bpmMatch.Some? {
        ApplyAbsoluteTempo(bpmMatch.value.bpm, NoteTempo(bpmMatch.value.note, bpmMatch.value.bpm));
      } else if relativeMatch.Some? {
        ApplyRelativeTempo(NoteRatio(relativeMatch.value.note1, relativeMatch.value.note2), tempoBefore);
      }
    }

    method ParseEquation(tempoBefore: real)
      modifies this
      ensures State() == ParseEquationOn(old(State()), tempoBefore).st
      ensures scoreSyncs == old(scoreSyncs) + ParseEquationOn(old(State()), tempoBefore).scoreSyncs
      ensures old(Valid()) ==> Valid()
    {
      ghost var st := State();
      if Inv(st) {
        ParseEquationInv(st, tempoBefore);
      }
      if isEquationVisible {
        var rendered := EquationRegion.ToGlyphs(equation);
        if EquationRegion.HasRegion(xmlText) {
          xmlText := EquationRegion.ReplaceRegions(xmlText, rendered);
        } else {
          xmlText := xmlText + rendered;
        }
      } else {
        xmlText := EquationRegion.ReplaceRegions(xmlText, "");
      }
      if followText {
        UpdateTempo(tempoBefore);
      }
    }

    /** setProperty for the four tempo properties; each is handled, so the answer is always true. */
    method SetProperty(v: PropertyValue, tempoBefore: real) returns (handled: bool)
      modifies this
      ensures handled
      ensures State() == SetPropertyOn(old(State()), v, tempoBefore).st
      ensures scoreSyncs == old(scoreSyncs) + SetPropertyOn(old(State()), v, tempoBefore).scoreSyncs
      ensures old(Valid()) ==> Valid()
    {
      ghost var st := State();
      if Inv(st) {
        SetPropertyInv(st, v, tempoBefore);
      }
      handled := true;
      match v
      case TempoValue(tempo) =>
        SetTempo(tempo);
        UpdateScore();
      case FollowTextValue(follow) =>
        followText := follow;
      case EquationValue(e) =>
        if IsEquationValid(e) {
          equation := e;
          ParseEquation(tempoBefore);
        }
      case EquationVisibleValue(visible) =>
        isEquationVisible := visible;
        ParseEquation(tempoBefore);
    }
  }
}
