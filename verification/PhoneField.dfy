/** The phone field as the formatter leaves it and as the validator then reads it. The
    formatter runs on every `input` event, so a visitor who selects the contents of the
    optional phone field and deletes them leaves `+49` behind, which the phone rule rejects.
    Backspacing never empties the field: it stops at `+49`, and one more backspace leaves
    `+4`, which both formatters turn into `+494`. The corrected formatter keeps that
    behaviour, since blanking every value without national digits would also blank a typed
    `0`. */
module PhoneField {
  import opened Wrappers
  import opened Text
  import opened Validation
  import opened PhoneFormat

  /** As written: once the formatter has run on a field holding no digits (emptied, or only
      separators typed), the submit handler reports the optional phone field as invalid. */
  lemma EmptiedPhoneFieldFails(d: FormData, typed: string)
    requires Digits(typed) == []
    ensures FormatPhoneNumber(typed) == "+49"
    ensures Phone in Failures(d.(phone := Some(FormatPhoneNumber(typed))))
  {
    assert NationalDigits([]) == [];
    var v := "+49";
    TrimUnpadded(v);
    PhoneRule(d.(phone := Some(v)));
  }

  /** The formatter with a field holding no digits left blank. */
  function FormatPhoneKeepingBlank(input: string): (r: string)
    ensures Digits(input) == [] ==> r == []
    ensures Digits(input) != [] ==> r == FormatPhoneNumber(input)
  {
    if Digits(input) == [] then [] else FormatPhoneNumber(input)
  }

  /** With the blank kept blank, emptying the phone field never blocks the submission, and
      reformatting is still stable. */
  lemma BlankPhoneStaysOptional(d: FormData, typed: string)
    ensures Digits(typed) == [] ==>
              Phone !in Failures(d.(phone := Some(FormatPhoneKeepingBlank(typed))))
    ensures FormatPhoneKeepingBlank(FormatPhoneKeepingBlank(typed)) == FormatPhoneKeepingBlank(typed)
  {
    if Digits(typed) == [] {
      PhoneRule(d.(phone := Some([])));
    } else {
      ShapeDigits(NationalDigits(Digits(typed)));
      assert Digits(FormatPhoneNumber(typed)) != [];
      FormatIdempotent(typed);
    }
  }

  /** Backspacing the last national digit leaves `+49`, whose digits are `49`: both the
      script's formatter and the corrected one keep it, and the phone rule reports it. */
  lemma BackspacedFieldKeepsCountryCode(d: FormData)
    ensures FormatPhoneNumber("+49") == "+49"
    ensures FormatPhoneKeepingBlank("+49") == "+49"
    ensures Phone in Failures(d.(phone := Some(FormatPhoneKeepingBlank("+49"))))
  {
    EmptiedPhoneFieldFails(d, "");
    FormatIdempotent("");
    assert Digits("+49") == Digits("+") + Digits("49") by {
      DigitsAppend("+", "49");
    }
  }

  /** A backspace on `+49` leaves `+4`, whose one digit `4` gets the country code put in
      front by both formatters, so the field flips back to `+494`, which the phone rule
      reports as well: backspacing never empties the field. */
  lemma BackspaceOnCountryCode(d: FormData)
    ensures FormatPhoneNumber("+4") == "+494"
    ensures FormatPhoneKeepingBlank("+4") == "+494"
    ensures Phone in Failures(d.(phone := Some(FormatPhoneKeepingBlank("+4"))))
  {
    assert Digits("+4") == "4" by {
      DigitsAppend("+", "4");
    }
    assert NationalDigits("4") == "4";
    ShortPhoneFails(d, "+494");
  }

  /** A filled-in phone number shorter than six units is reported, whatever its
      characters. */
  lemma ShortPhoneFails(d: FormData, v: string)
    requires v != [] && !IsSpace(v[0]) && !IsSpace(v[|v| - 1])
    requires forall i :: 0 <= i < |v| ==> v[i] <= '\U{FFFF}'
    requires |v| < 6
    ensures Phone in Failures(d.(phone := Some(v)))
  {
    UnpaddedLength(v);
    PhoneRule(d.(phone := Some(v)));
  }
}
