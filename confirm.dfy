/**
 * The confirmation gate of the delete command: the operator's answer is
 * lower-cased and compared with the literal "yes"; nothing is stripped.
 */
module Confirm {

  /** Lower-casing of one character, for the ASCII letters. */
  function LowerChar(c: char): (r: char)
    ensures r == 'y' <==> c == 'y' || c == 'Y'
    ensures r == 'e' <==> c == 'e' || c == 'E'
    ensures r == 's' <==> c == 's' || c == 'S'
  {
    if 'A' <= c <= 'Z' then (c as int + 32) as char else c
  }

  /** `s.lower()`, character by character. */
  function Lower(s: string): string
  {
    seq(|s|, i requires 0 <= i < |s| => LowerChar(s[i]))
  }

  /** The deletion proceeds only when `confirm.lower() == "yes"`. */
  predicate Confirmed(answer: string)
  {
    Lower(answer) == "yes"
  }

  /** Exactly the three-letter answers spelling yes in any mix of cases are accepted. */
  lemma ConfirmedIff(answer: string)
    ensures Confirmed(answer) <==>
      |answer| == 3
      && (answer[0] == 'y' || answer[0] == 'Y')
      && (answer[1] == 'e' || answer[1] == 'E')
      && (answer[2] == 's' || answer[2] == 'S')
  {
    if |answer| == 3 {
      var l := Lower(answer);
      assert l == [l[0], l[1], l[2]];
      assert "yes" == ['y', 'e', 's'];
    }
  }

  /** Answers that accept and answers that decline; surrounding blanks are not stripped. */
  lemma ConfirmationExamples()
    ensures Confirmed("yes") && Confirmed("YES") && Confirmed("Yes")
    ensures !Confirmed("") && !Confirmed("y") && !Confirmed("no") && !Confirmed("yes ") && !Confirmed(" yes")
  {
    ConfirmedIff("yes");
    ConfirmedIff("YES");
    ConfirmedIff("Yes");
    ConfirmedIff("");
    ConfirmedIff("y");
    ConfirmedIff("no");
    ConfirmedIff("yes ");
    ConfirmedIff(" yes");
  }
}
