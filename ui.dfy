/** The one piece of vault/ui.py that decides program behaviour: yes_or_no. */
module UI {
  import opened PyStr

  /** str.lower() on the characters that matter to yes_or_no: no other character lowers to
      'y', 'e' or 's', so lowering only A-Z decides membership in {'', 'y', 'yes'} alike. */
  function AsciiLower(s: string): (r: string)
    ensures |r| == |s|
    ensures forall i :: 0 <= i < |s| ==> r[i] == if 'A' <= s[i] <= 'Z' then (s[i] as int + 32) as char else s[i]
  {
    if s == [] then [] else [if 'A' <= s[0] <= 'Z' then (s[0] as int + 32) as char else s[0]] + AsciiLower(s[1..])
  }

  /** yes_or_no: the stripped, lowered answer is '', 'y' or 'yes'. */
  function YesOrNo(answer: string): bool
  {
    AsciiLower(Strip(answer)) in {"", "y", "yes"}
  }

  /** The answers that mean yes once stripped: nothing, or "y" or "yes" in any mix of cases. */
  predicate Affirmative(t: string)
  {
    || t == ""
    || (|t| == 1 && t[0] in {'y', 'Y'})
    || (|t| == 3 && t[0] in {'y', 'Y'} && t[1] in {'e', 'E'} && t[2] in {'s', 'S'})
  }

  /** yes_or_no says yes exactly for the affirmative answers, whatever their padding. */
  lemma YesOrNoExactly(answer: string)
    ensures YesOrNo(answer) <==> Affirmative(Strip(answer))
  {
    var t := Strip(answer);
    var l := AsciiLower(t);
    if |t| == 1 {
      assert l == "y" <==> l[0] == 'y';
    } else if |t| == 3 {
      assert l == "yes" <==> l[0] == 'y' && l[1] == 'e' && l[2] == 's';
    }
  }

  /** Just pressing Enter (or typing only whitespace) means yes. */
  lemma BlankMeansYes(answer: string)
    requires Blank(answer)
    ensures YesOrNo(answer)
  {
    StripShape(answer);
  }

  /** Surrounding whitespace never changes the answer. */
  lemma YesOrNoIgnoresPadding(answer: string)
    ensures YesOrNo(Strip(answer)) == YesOrNo(answer)
  {
    StripIdempotent(answer);
  }

  /** The answer is compared case-insensitively. */
  lemma UpperCaseYes()
    ensures YesOrNo("Y")
  {
    LStripOfUnpadded("Y");
    RStripOfUnpadded("Y");
    assert AsciiLower("Y") == "y";
  }

  /** Anything but '', 'y' and 'yes' is no. */
  lemma NoIsNo()
    ensures !YesOrNo("n")
  {
    LStripOfUnpadded("n");
    RStripOfUnpadded("n");
    assert AsciiLower("n") == "n";
  }
}
