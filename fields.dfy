/** The validated fields of a contact. A `Phone` object holds a value that
    every assignment validates before storing; its default string form is the
    object representation, not the number. */
module Fields {
  import opened Wrappers
  import opened Text
  import opened Errors

  /** What the phone setter accepts: `None`, or a string of exactly ten digits. */
  predicate ValidPhoneValue(v: Option<string>)
  {
    v.None? || (|v.value| == 10 && AllDigits(v.value))
  }

  /** `str(phone.value)`: the number itself, or "None". */
  function ValueText(v: Option<string>): string
  {
    if v.None? then "None" else v.value
  }

  /** `str(phone)`: the default object representation, which shows the
      object's address and never the number. */
  function PhoneRepr(address: nat): (r: string)
    ensures |r| > 0 && r[0] == '<'
  {
    "<__main__.Phone object at 0x" + Hex(address) + ">"
  }

  /** An object representation is never a valid phone number: it starts with '<'. */
  lemma ReprIsNotANumber(address: nat, s: string)
    requires ValidPhoneValue(Some(s))
    ensures PhoneRepr(address) != s
  {
    assert IsDigit(s[0]);
  }

  class Phone {
    /** `_value`: the validated number, or None. */
    var value: Option<string>
    /** The object's identity as the runtime would print it. */
    const address: nat

    /** `Field.__init__` first stores None, then assigns through the setter. */
    constructor (address: nat)
      ensures value == None && this.address == address
    {
      value := None;
      this.address := address;
    }

    /** The `value` setter: validate first, store second, so a rejected
        assignment leaves the previous value in place. */
    method SetValue(v: Option<string>) returns (res: Outcome<Error>)
      modifies this
      ensures res == (if ValidPhoneValue(v) then Pass else Fail(InvalidPhone))
      ensures value == (if res.Pass? then v else old(value))
    {
      if !ValidPhoneValue(v) {
        return Fail(InvalidPhone);
      }
      value := v;
      return Pass;
    }
  }

  /** `Phone(v)`: a new phone holding `v`, or the error the setter raises. */
  method NewPhone(v: Option<string>, address: nat) returns (res: Result<Phone, Error>)
    ensures res.Success? <==> ValidPhoneValue(v)
    ensures res.Failure? ==> res.error == InvalidPhone
    ensures res.Success? ==> fresh(res.value) && res.value.value == v && res.value.address == address
  {
    var p := new Phone(address);
    var outcome := p.SetValue(v);
    if outcome.Fail? {
      return Failure(outcome.error);
    }
    return Success(p);
  }
}
