/**
 * Note durations as the tempo marking uses them: a duration type and a dot
 * count (the engraving library's TDuration, reduced to the two parts that
 * the tempo-text code compares and reads).
 */
module Durations {

  /** The duration types of TDuration, in the library's own order. */
  datatype DurationType =
    | Long | Breve | Whole | Half | Quarter | Eighth
    | D16th | D32nd | D64th | D128th | D256th | D512th | D1024th
    | Zero | Measure | Invalid

  /** A duration type together with its number of augmentation dots. */
  datatype Duration = Duration(kind: DurationType, dots: nat)

  /** What a default-constructed TDuration holds: an invalid, undotted duration. */
  const DefaultDuration: Duration := Duration(Invalid, 0)

  /**
   * duration2userName: the user-facing name of a duration. One to four dots
   * put "Dotted", "Double dotted", "Triple dotted" or "Quadruple dotted"
   * before the type's own name; any other dot count gives the type's name
   * alone. The type's name comes from TDuration, which is not part of this
   * model, so it is a parameter here; translation is left out.
   */
  function UserName(d: Duration, typeName: string): (r: string)
    ensures |r| >= |typeName| && r[|r| - |typeName|..] == typeName
    ensures |r| == |typeName| <==> d.dots == 0 || d.dots > 4
  {
    match d.dots
    case 1 => "Dotted " + typeName
    case 2 => "Double dotted " + typeName
    case 3 => "Triple dotted " + typeName
    case 4 => "Quadruple dotted " + typeName
    case _ => typeName
  }

  /** Reads the dot count back from a name built by UserName (0 when no prefix is recognised). */
  function DotsOfUserName(name: string, typeName: string): nat
  {
    if name == "Dotted " + typeName then 1
    else if name == "Double dotted " + typeName then 2
    else if name == "Triple dotted " + typeName then 3
    else if name == "Quadruple dotted " + typeName then 4
    else 0
  }

  /** The name determines the dot count, for the dot counts that get a prefix. */
  lemma {:induction false} UserNameRoundTrip(d: Duration, typeName: string)
    requires d.dots <= 4
    ensures DotsOfUserName(UserName(d, typeName), typeName) == d.dots
  {
    var r := UserName(d, typeName);
    if d.dots == 0 {
      assert |r| == |typeName|;
      assert |"Dotted " + typeName| != |typeName|;
    } else if d.dots == 3 {
      assert r[0] == 'T';
      assert ("Double dotted " + typeName)[0] == 'D';
    } else if d.dots == 2 {
      assert |"Dotted " + typeName| != |r|;
    } else if d.dots == 4 {
      assert |"Dotted " + typeName| != |r|;
      assert |"Double dotted " + typeName| != |r|;
      assert |"Triple dotted " + typeName| != |r|;
    }
  }

  /** Two durations of the same type get the same name only if their dot counts agree (up to four dots). */
  lemma UserNameDistinguishesDots(d1: Duration, d2: Duration, typeName: string)
    requires d1.dots <= 4 && d2.dots <= 4
    requires UserName(d1, typeName) == UserName(d2, typeName)
    ensures d1.dots == d2.dots
  {
    UserNameRoundTrip(d1, typeName);
    UserNameRoundTrip(d2, typeName);
  }

  /** More than four dots get no prefix: the name is that of the undotted duration. */
  lemma UserNameIgnoresExtraDots(d: Duration, typeName: string)
    requires d.dots > 4
    ensures UserName(d, typeName) == UserName(Duration(d.kind, 0), typeName)
  {
  }
}
