/**
 * The two console prompts the modelled code uses, get_user_input and get_user_choice, over
 * the stream of lines the user will type. Reading past the last line is input()'s EOFError.
 */
module Prompts {
  import opened Wrappers
  import opened Strings

  /**
   * The outcome of a prompt: the value and the position in the input just after the last line
   * it consumed, or the end of input.
   */
  datatype Read<T> = Got(value: T, next: nat) | EndOfInput

  /** An answer that is only whitespace. */
  predicate Blank(answer: string) {
    Strip(answer) == ""
  }

  /**
   * get_user_input with the console at line `at`: the first stripped answer that is non-empty,
   * or the first answer at all when an answer is not required.
   */
  function Input(answers: seq<string>, at: nat, required: bool): (r: Read<string>)
    ensures r.Got? ==> at < r.next <= |answers|
    ensures r.Got? && required ==> r.value != ""
    ensures r.EndOfInput? && !required ==> at >= |answers|
    decreases |answers| - at
  {
    if at >= |answers| then EndOfInput
    else if !Blank(answers[at]) || !required then Got(Strip(answers[at]), at + 1)
    else Input(answers, at + 1, required)
  }

  /** The answer returned is the stripped text of the last line consumed. */
  lemma {:induction false} InputValue(answers: seq<string>, at: nat, required: bool)
    ensures Input(answers, at, required).Got? ==>
      Input(answers, at, required).value == Strip(answers[Input(answers, at, required).next - 1])
    decreases |answers| - at
  {
    if at < |answers| && Blank(answers[at]) && required {
      InputValue(answers, at + 1, required);
    }
  }

  /** Every line a required answer skipped was blank, and the input ran out only after blank lines. */
  lemma {:induction false} InputSkipsBlanks(answers: seq<string>, at: nat, k: nat)
    requires at <= k < |answers|
    requires Input(answers, at, true).EndOfInput? || k < Input(answers, at, true).next - 1
    ensures Blank(answers[k])
    decreases k - at
  {
    if at < k {
      InputSkipsBlanks(answers, at + 1, k);
    }
  }

  /** The prompt's loop: answers are read until one is acceptable. */
  method GetUserInput(answers: seq<string>, at: nat, required: bool) returns (r: Read<string>)
    ensures r == Input(answers, at, required)
  {
    var i := at;
    while i < |answers|
      invariant at <= i
      invariant Input(answers, at, required) == Input(answers, i, required)
      decreases |answers| - i
    {
      if !Blank(answers[i]) || !required {
        return Got(Strip(answers[i]), i + 1);
      }
      i := i + 1;
    }
    return EndOfInput;
  }

  /**
   * How get_user_choice takes one answer: an empty answer gives the default when there is one
   * (`default == ""` is no default); otherwise the lower-cased answer when it is one of the
   * lower-cased choices, and nothing when it is not.
   */
  function Response(value: string, choices: seq<string>, default: string): (r: Option<string>)
    ensures r.Some? <==> (Lower(value) == "" && default != "") || Lower(value) in LowerAll(choices)
    ensures r.Some? ==> r.value in LowerAll(choices) || (default != "" && r.value == Lower(default))
  {
    var response := Lower(value);
    if response == "" && default != "" then Some(Lower(default))
    else if response in LowerAll(choices) then Some(response)
    else None
  }

  /**
   * get_user_choice with the console at line `at`: get_user_input (required when there is no
   * default) until a response is accepted.
   */
  function Choice(answers: seq<string>, at: nat, choices: seq<string>, default: string): (r: Read<string>)
    ensures r.Got? ==> r.value in LowerAll(choices) || (default != "" && r.value == Lower(default))
    ensures r.Got? ==> at < r.next <= |answers|
    decreases |answers| - at
  {
    match Input(answers, at, default == "")
    case EndOfInput => EndOfInput
    case Got(value, next) =>
      match Response(value, choices, default)
      case Some(c) => Got(c, next)
      case None => Choice(answers, next, choices, default)
  }

  /** The choice prompt's loop: get_user_input until the answer is acceptable. */
  method GetUserChoice(answers: seq<string>, at: nat, choices: seq<string>, default: string) returns (r: Read<string>)
    ensures r == Choice(answers, at, choices, default)
  {
    var i := at;
    while true
      invariant at <= i
      invariant Choice(answers, at, choices, default) == Choice(answers, i, choices, default)
      decreases |answers| - i + 1
    {
      var input := GetUserInput(answers, i, default == "");
      match input
      case EndOfInput =>
        return EndOfInput;
      case Got(value, next) =>
        var response := Lower(value);
        if response == "" && default != "" {
          return Got(Lower(default), next);
        }
        if response in LowerAll(choices) {
          return Got(response, next);
        }
        i := next;
    }
  }

  const YesNo: seq<string> := ["y", "n"]

  /** A yes/no question defaulting to "y": an empty answer is "y", and "N" (in any case, padded) is "n". */
  lemma YesNoAnswers(answers: seq<string>, at: nat)
    requires at < |answers|
    ensures Strip(answers[at]) == "" ==> Choice(answers, at, YesNo, "y") == Got("y", at + 1)
    ensures Lower(Strip(answers[at])) == "n" ==> Choice(answers, at, YesNo, "y") == Got("n", at + 1)
    ensures Lower(Strip(answers[at])) == "y" ==> Choice(answers, at, YesNo, "y") == Got("y", at + 1)
  {
    YesNoLower();
  }

  /** A yes/no question with a default only ever yields "y" or "n". */
  lemma YesNoOutcome(answers: seq<string>, at: nat)
    ensures Choice(answers, at, YesNo, "y").Got? ==> Choice(answers, at, YesNo, "y").value in YesNo
  {
    YesNoLower();
  }

  lemma YesNoLower()
    ensures LowerAll(YesNo) == YesNo && Lower("y") == "y" && Lower("") == ""
  {
    assert YesNo[1..] == ["n"] && ["n"][1..] == [];
    assert Lower("y") == "y";
    assert Lower("n") == "n";
    assert LowerAll(YesNo) == [Lower("y")] + LowerAll(["n"]);
    assert LowerAll(["n"]) == [Lower("n")] + LowerAll([]);
  }
}
