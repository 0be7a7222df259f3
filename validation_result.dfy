/**
 * ValidationResult: the messages the validation step collects, and a flag
 * that clears on the first message.
 */
module ValidationResults {

  class ValidationResult {
    var isValid: bool
    var errors: seq<string>

    /** Built by the no-argument path, and changed only by AddError, the flag says whether no message was added. */
    ghost predicate Valid()
      reads this
    {
      isValid <==> errors == []
    }

    /** A fresh result: valid, no messages. */
    constructor()
      ensures isValid && errors == []
      ensures Valid()
    {
      isValid := true;
      errors := [];
    }

    /** addError: append one message at the end and clear the flag. */
    method AddError(error: string)
      modifies this
      ensures errors == old(errors) + [error]
      ensures !isValid
      ensures old(Valid()) ==> Valid()
    {
      errors := errors + [error];
      isValid := false;
    }
  }
}
