/** The `[Y/n]` prompts: an answer is accepted when, trimmed and lower-cased,
    it is empty, "y" or "yes"; anything else declines. */
module Confirm {
  import opened Text

  function Accepted(answer: string): bool {
    AcceptedWord(ToLower(Trim(answer)))
  }

  predicate AcceptedWord(a: string) {
    a == "" || a == "y" || a == "yes"
  }

  /** `c` is the ASCII letter `lower` in either case. */
  predicate Letter(c: char, lower: char)
    requires 'a' <= lower <= 'z'
  {
    c == lower || c as int == lower as int - 32
  }

  /** The accepted answers, spelled out: nothing, or "y"/"yes" in any
      mixture of cases, once the surrounding whitespace is trimmed. */
  predicate AcceptedSpelling(t: string) {
    || |t| == 0
    || (|t| == 1 && Letter(t[0], 'y'))
    || (|t| == 3 && Letter(t[0], 'y') && Letter(t[1], 'e') && Letter(t[2], 's'))
  }

  lemma LowerIsLetter(c: char, lower: char)
    requires 'a' <= lower <= 'z'
    ensures LowerChar(c) == lower <==> Letter(c, lower)
  {
  }

  lemma LowerOneLetter(t: string)
    requires |t| == 1
    ensures AcceptedWord(ToLower(t)) <==> Letter(t[0], 'y')
  {
    var a := ToLower(t);
    LowerIsLetter(t[0], 'y');
    assert a == "y" <==> a[0] == 'y';
  }

  lemma LowerThreeLetters(t: string)
    requires |t| == 3
    ensures AcceptedWord(ToLower(t)) <==> Letter(t[0], 'y') && Letter(t[1], 'e') && Letter(t[2], 's')
  {
    var a := ToLower(t);
    LowerIsLetter(t[0], 'y');
    LowerIsLetter(t[1], 'e');
    LowerIsLetter(t[2], 's');
    assert a == "yes" <==> a[0] == 'y' && a[1] == 'e' && a[2] == 's';
  }

  lemma LowerOtherLength(t: string)
    requires |t| != 0 && |t| != 1 && |t| != 3
    ensures !AcceptedWord(ToLower(t))
  {
    assert |ToLower(t)| == |t|;
  }

  lemma AcceptedIff(answer: string)
    ensures Accepted(answer) <==> AcceptedSpelling(Trim(answer))
  {
    var t := Trim(answer);
    if |t| == 0 {
      assert ToLower(t) == "";
    } else if |t| == 1 {
      LowerOneLetter(t);
    } else if |t| == 3 {
      LowerThreeLetters(t);
    } else {
      LowerOtherLength(t);
    }
  }

  /** A blank answer (just Enter) takes the default and accepts. */
  lemma BlankAccepted(answer: string)
    requires AllWhitespace(answer)
    ensures Accepted(answer)
  {
    assert answer == answer + "" + "";
    TrimPadded(answer, "", "");
  }

  /** A shouted "YES" with any padding accepts; "no" and "yeah" decline. */
  lemma PaddedAnswers(before: string, after: string)
    requires AllWhitespace(before) && AllWhitespace(after)
    ensures Accepted(before + "YES" + after)
    ensures !Accepted(before + "no" + after)
    ensures !Accepted(before + "yeah" + after)
  {
    assert Accepted(before + "YES" + after) by {
      TrimPadded(before, "YES", after);
      LowerThreeLetters("YES");
    }
    assert !Accepted(before + "no" + after) by {
      TrimPadded(before, "no", after);
      LowerOtherLength("no");
    }
    assert !Accepted(before + "yeah" + after) by {
      TrimPadded(before, "yeah", after);
      LowerOtherLength("yeah");
    }
  }
}
