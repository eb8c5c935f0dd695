/** utils/helpers.py: `str_to_bool`, the case-insensitive truth-value parser
    that raises `ValueError` on anything it does not recognise. */
module Helpers {
  import opened Wrappers
  import Text

  /** The spellings of true, after lower-casing. */
  const TrueWords: seq<string> := ["y", "yes", "t", "true", "on", "1"]

  /** The spellings of false, after lower-casing. */
  const FalseWords: seq<string> := ["n", "no", "f", "false", "off", "0"]

  /** The `ValueError` raised for an unrecognised value. It carries the
      lower-cased text, which is what its message shows. */
  datatype ValueError = InvalidTruthValue(lowered: string)

  const MessagePrefix: string := "Invalid truth value: '"

  /** The error's message: the lowered text, quoted after a fixed prefix. */
  function Message(e: ValueError): (r: string)
    ensures |r| == |MessagePrefix| + |e.lowered| + 1
    ensures r[..|MessagePrefix|] == MessagePrefix && r[|r| - 1] == '\''
    ensures r[|MessagePrefix|..|r| - 1] == e.lowered
  {
    MessagePrefix + e.lowered + "'"
  }

  /** The message names the rejected text: different errors have different
      messages. */
  lemma MessageInjective(a: ValueError, b: ValueError)
    ensures Message(a) == Message(b) ==> a == b
  {
    if Message(a) == Message(b) {
      assert a.lowered == Message(a)[|MessagePrefix|..|Message(a)| - 1];
    }
  }

  /** `str_to_bool(s)`: true for the true spellings, false for the false
      spellings, in any letter case, and a `ValueError` for everything else. */
  function StrToBool(s: string): (r: Result<bool, ValueError>)
    ensures r == Success(true) <==> Text.Lower(s) in TrueWords
    ensures r == Success(false) <==> Text.Lower(s) in FalseWords
    ensures r.Failure? <==> Text.Lower(s) !in TrueWords && Text.Lower(s) !in FalseWords
    ensures r.Failure? ==> r.error == InvalidTruthValue(Text.Lower(s))
  {
    var lowered := Text.Lower(s);
    if lowered in TrueWords then Success(true)
    else if lowered in FalseWords then Success(false)
    else Failure(InvalidTruthValue(lowered))
  }

  /** No spelling is both true and false, so the two accepting branches
      never compete. */
  lemma WordSetsDisjoint()
    ensures forall w :: w in TrueWords ==> w !in FalseWords
  {
  }

  /** Letter case never matters, not even for the error raised. */
  lemma CaseInsensitive(s: string)
    ensures StrToBool(s) == StrToBool(Text.Lower(s))
  {
    Text.LowerIdempotent(s);
  }

  /** The empty string is not a truth value. */
  lemma EmptyRejected()
    ensures StrToBool("") == Failure(InvalidTruthValue(""))
    ensures Message(StrToBool("").error) == "Invalid truth value: ''"
  {
  }

  /** Mixed-case spellings are recognised. */
  lemma MixedCaseAccepted()
    ensures StrToBool("YES") == Success(true)
    ensures StrToBool("True") == Success(true)
    ensures StrToBool("Off") == Success(false)
    ensures StrToBool("FALSE") == Success(false)
  {
    assert Text.Lower("YES") == "yes";
    assert Text.Lower("True") == "true";
    assert Text.Lower("Off") == "off";
    assert Text.Lower("FALSE") == "false";
  }
}
