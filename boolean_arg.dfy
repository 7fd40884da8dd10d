/**
 * boolean(s): the argparse "type" of the Boolean command-line options. It lower-cases
 * its argument and looks it up among eleven words; any other word raises ValueError.
 */
module BooleanArg {
  import opened Wrappers
  import opened Text

  /** The words boolean accepts, in lower case, and the value each stands for. */
  const BooleanWords: map<string, bool> :=
    map["true" := true, "yes" := true, "ok" := true, "1" := true, "y" := true, "t" := true,
        "false" := false, "no" := false, "0" := false, "f" := false, "n" := false]

  /** The words read as True. */
  const TrueWords: set<string> := {"true", "yes", "ok", "1", "y", "t"}

  /** The words read as False. */
  const FalseWords: set<string> := {"false", "no", "0", "f", "n"}

  /** boolean(s): the value of a Boolean-looking word, or ValueError. */
  function Boolean(s: string): (r: Result<bool>)
    ensures r.Err? ==> r.error == ValueError
  {
    var lc := Lower(s);
    if lc !in BooleanWords then Err(ValueError) else Ok(BooleanWords[lc])
  }

  /** Exactly the six true words give True, the five false words False, and all else fails. */
  lemma BooleanAccepts(s: string)
    ensures Boolean(s) == Ok(true) <==> Lower(s) in TrueWords
    ensures Boolean(s) == Ok(false) <==> Lower(s) in FalseWords
    ensures Boolean(s).Err? <==> Lower(s) !in TrueWords && Lower(s) !in FalseWords
  {
    assert BooleanWords.Keys == TrueWords + FalseWords;
    assert forall w :: w in TrueWords ==> BooleanWords[w];
    assert forall w :: w in FalseWords ==> !BooleanWords[w];
  }

  /** Letter case does not matter: two words that agree once lower-cased mean the same. */
  lemma BooleanIgnoresCase(s: string, t: string)
    requires |s| == |t|
    requires forall i :: 0 <= i < |s| ==> LowerChar(s[i]) == LowerChar(t[i])
    ensures Boolean(s) == Boolean(t)
  {
    assert Lower(s) == Lower(t);
  }

  /** "YES" is read as True, "Off" raises ValueError. */
  lemma BooleanExamples()
    ensures Boolean("YES") == Ok(true)
    ensures Boolean("Off") == Err(ValueError)
  {
    assert Lower("YES") == "yes";
    assert Lower("Off") == "off";
  }

  /** Every word of the table is already lower case, so each one can be matched. */
  lemma TableWordsAreLower(w: string)
    requires w in BooleanWords
    ensures Lower(w) == w
    ensures Boolean(w) == Ok(BooleanWords[w])
  {
    assert w in TrueWords + FalseWords by {
      assert BooleanWords.Keys == TrueWords + FalseWords;
    }
  }

  /** Lower-casing the argument first changes nothing, since boolean lower-cases it itself. */
  lemma BooleanOfLower(s: string)
    ensures Boolean(Lower(s)) == Boolean(s)
  {
    LowerIdempotent(s);
  }
}
