/** `formatPhoneNumber`: rewrites the phone field on every keystroke into the German
    international form `+49 XXXX XXXXXX` by keeping only the digits, normalising the start to
    the country code 49, and splitting what follows into two groups. */
module PhoneFormat {
  import opened Text

  /** The branch that puts the country code in front of the digit string: a leading `49`
      gains a `+`, a leading trunk `0` is replaced by `+49`, anything else not starting with
      `+` is prefixed by `+49`. */
  function WithCountryCode(v: string): string {
    if StartsWith(v, "49") then "+" + v
    else if StartsWith(v, "0") then "+49" + v[1..]
    else if !StartsWith(v, "+") then "+49" + v
    else v
  }

  /** The national digits the formatted number carries after `49`, given the digit string of
      the input: a leading `49` or trunk `0` is dropped, other digits are kept whole. */
  function NationalDigits(s: string): string {
    if StartsWith(s, "49") then s[2..]
    else if StartsWith(s, "0") then s[1..]
    else s
  }

  /** On a digit string the branch always yields `+49` followed by the national digits; its
      last case, a string already starting with `+`, never arises. */
  lemma WithCountryCodeOfDigits(v: string)
    requires AllDigits(v)
    ensures WithCountryCode(v) == "+49" + NationalDigits(v)
    ensures AllDigits(NationalDigits(v))
  {
    if StartsWith(v, "49") {
      assert v == "49" + v[2..];
    } else if |v| > 0 {
      assert v[0] != '+';
    }
  }

  /** Length of the run of digits in `v` that starts at index `i`. */
  function DigitRun(v: string, i: nat): (n: nat)
    requires i <= |v|
    ensures i + n <= |v|
    ensures forall j :: i <= j < i + n ==> IsDigit(v[j])
    ensures i + n == |v| || !IsDigit(v[i + n])
    decreases |v| - i
  {
    if i == |v| || !IsDigit(v[i]) then 0 else 1 + DigitRun(v, i + 1)
  }

  /** The length the regular expression's second group `(\d{2,4})` takes when followed by
      `(\d+)` on a run of `n >= 3` digits: as many as four, but at least one digit must be left
      for the third group. */
  function AreaLength(n: nat): (k: nat)
    requires n >= 3
    ensures 2 <= k <= 4 && k < n
    ensures k == 4 || k == n - 1
  {
    if n - 1 < 4 then n - 1 else 4
  }

  /** `value.replace(/^(\+49)(\d{2,4})(\d+)/, '$1 $2 $3')`: when the string starts with `+49`
      and then at least three digits, a space goes after the country code and another after
      the second group; the third group takes the rest of the digit run. Otherwise the string
      is left alone. */
  function GroupDigits(v: string): string {
    if StartsWith(v, "+49") then
      var n := DigitRun(v, 3);
      if n >= 3 then
        var k := AreaLength(n);
        "+49 " + v[3..3 + k] + " " + v[3 + k..3 + n] + v[3 + n..]
      else v
    else v
  }

  /** The output shape of the formatter for national digits `d`. */
  function Shape(d: string): string {
    if |d| >= 3 then
      var k := AreaLength(|d|);
      "+49 " + d[..k] + " " + d[k..]
    else "+49" + d
  }

  lemma GroupDigitsOfNational(d: string)
    requires AllDigits(d)
    ensures GroupDigits("+49" + d) == Shape(d)
  {
    var v := "+49" + d;
    assert v[..3] == "+49";
    assert forall j :: 3 <= j < |v| ==> v[j] == d[j - 3];
    assert DigitRun(v, 3) == |d|;
    if |d| >= 3 {
      var k := AreaLength(|d|);
      assert v[3..3 + k] == d[..k];
      assert v[3 + k..3 + |d|] == d[k..];
      assert v[3 + |d|..] == [];
    }
  }

  /** The formatter: strip non-digits, normalise the start, group. */
  function FormatPhoneNumber(input: string): (r: string)
    ensures var d := NationalDigits(Digits(input));
            && AllDigits(d)
            && r == Shape(d)
  {
    var s := Digits(input);
    WithCountryCodeOfDigits(s);
    GroupDigitsOfNational(NationalDigits(s));
    GroupDigits(WithCountryCode(s))
  }

  /** Only digits and spaces. */
  predicate DigitsAndSpaces(s: string) {
    forall i :: 0 <= i < |s| ==> IsDigit(s[i]) || s[i] == ' '
  }

  /** Two digit groups, each after a space, hold only digits and spaces. */
  lemma GroupsAreDigitsAndSpaces(a: string, b: string)
    requires AllDigits(a) && AllDigits(b)
    ensures DigitsAndSpaces(" " + a + " " + b)
  {
    var tail := " " + a + " " + b;
    assert forall i :: 1 <= i < 1 + |a| ==> tail[i] == a[i - 1];
    assert forall i :: 2 + |a| <= i < |tail| ==> tail[i] == b[i - 2 - |a|];
  }

  /** `Shape(d)` starts with `+49`, continues with digits and spaces only, and holds a space
      exactly when there are at least three national digits. */
  lemma ShapeCharacters(d: string)
    requires AllDigits(d)
    ensures StartsWith(Shape(d), "+49") && DigitsAndSpaces(Shape(d)[1..])
    ensures (' ' in Shape(d)) <==> |d| >= 3
  {
    var r := Shape(d);
    if |d| >= 3 {
      var k := AreaLength(|d|);
      var a, b := d[..k], d[k..];
      var tail := " " + a + " " + b;
      assert r == "+49" + tail;
      assert r[1..] == "49" + tail;
      assert r[3] == ' ';
      GroupsAreDigitsAndSpaces(a, b);
    } else {
      assert r[1..] == "49" + d;
      assert forall i :: 0 <= i < |r| ==> r[i] != ' ';
    }
  }

  /** The output starts with `+49`, and after its single leading `+` come only digits and
      spaces; it holds a space exactly when there are at least three national digits. */
  lemma FormatShape(input: string)
    ensures var r := FormatPhoneNumber(input);
            StartsWith(r, "+49") && DigitsAndSpaces(r[1..])
    ensures (' ' in FormatPhoneNumber(input)) <==> |NationalDigits(Digits(input))| >= 3
  {
    ShapeCharacters(NationalDigits(Digits(input)));
  }

  /** The digits of `+49` followed by `x`. */
  lemma DigitsAfterCountryCode(x: string)
    ensures Digits("+49" + x) == "49" + Digits(x)
  {
    DigitsAppend("+49", x);
    assert Digits("+49") == "49" by {
      assert "+49"[1..] == "49";
      assert AllDigits("49");
    }
  }

  /** A space contributes no digit. */
  lemma DigitsAfterSpace(x: string)
    ensures Digits(" " + x) == Digits(x)
  {
    assert (" " + x)[1..] == x;
  }

  /** The spaces between the digit groups contribute no digit. */
  lemma DigitsOfGroups(a: string, b: string)
    requires AllDigits(a) && AllDigits(b)
    ensures Digits("+49" + (" " + (a + (" " + b)))) == "49" + (a + b)
  {
    DigitsAfterCountryCode(" " + (a + (" " + b)));
    DigitsAfterSpace(a + (" " + b));
    DigitsAppend(a, " " + b);
    DigitsAfterSpace(b);
  }

  /** The digits of the output: `49` and then the national digits. */
  lemma ShapeDigits(d: string)
    requires AllDigits(d)
    ensures Digits(Shape(d)) == "49" + d
  {
    if |d| >= 3 {
      var k := AreaLength(|d|);
      var a, b := d[..k], d[k..];
      assert Shape(d) == "+49" + (" " + (a + (" " + b)));
      assert a + b == d;
      DigitsOfGroups(a, b);
    } else {
      DigitsAfterCountryCode(d);
    }
  }

  /** Digit preservation: the output carries the input's digits, with a leading `49` kept,
      a leading trunk `0` replaced by `49`, and `49` put in front of anything else. */
  lemma FormatKeepsDigits(input: string)
    ensures var s := Digits(input);
            Digits(FormatPhoneNumber(input)) ==
              if StartsWith(s, "49") then s
              else if StartsWith(s, "0") then "49" + s[1..]
              else "49" + s
  {
    var s := Digits(input);
    ShapeDigits(NationalDigits(s));
    if StartsWith(s, "49") {
      assert s == "49" + s[2..];
    }
  }

  /** Formatting a formatted number changes nothing, so reformatting on every keystroke is
      stable once the digits stop changing. */
  lemma FormatIdempotent(input: string)
    ensures FormatPhoneNumber(FormatPhoneNumber(input)) == FormatPhoneNumber(input)
  {
    var d := NationalDigits(Digits(input));
    var r := FormatPhoneNumber(input);
    ShapeDigits(d);
    assert Digits(r) == "49" + d;
    assert ("49" + d)[..2] == "49";
    assert ("49" + d)[2..] == d;
    assert NationalDigits(Digits(r)) == d;
  }

  /** Too few national digits for the grouping pattern: no spaces are inserted. */
  lemma FormatShortExamples()
    ensures FormatPhoneNumber("") == "+49"
    ensures FormatPhoneNumber("030") == "+4930"
  {
    assert AllDigits("030");
    assert "030"[1..] == "30";
  }
}
