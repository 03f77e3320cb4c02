/** The payment form: the validators of its five fields, the formatters applied as the
    passenger types, and the validation of the whole form before payment. */
module PaymentPage {
  import opened Wrappers
  import JsText
  import EmailRule

  // Card number

  /** `validateCardNumber`: without its whitespace the number is exactly sixteen digits. */
  predicate ValidateCardNumber(s: string): (r: bool)
    ensures r ==> |s| >= 16
  {
    var cleaned := JsText.RemoveWhitespace(s);
    |cleaned| == 16 && JsText.AllDigits(cleaned)
  }

  /** `d.replace(/(\d{4})/g, '$1 ')` on a string of digits: a space after every full group
      of four. */
  function GroupDigits(d: string): string {
    if |d| >= 4 then d[..4] + " " + GroupDigits(d[4..]) else d
  }

  /** The digits in groups of four joined by single spaces: "1234 5678 9". */
  function Chunked(d: string): string {
    if |d| <= 4 then d else d[..4] + " " + Chunked(d[4..])
  }

  /** The card formatter of `handleInputChange`: keep the digits, group them, trim, and keep
      at most 19 characters. */
  function FormatCardNumber(v: string): (r: string)
    ensures |r| <= 19
  {
    var grouped := JsText.Trim(GroupDigits(JsText.OnlyDigits(v)));
    JsText.Take(grouped, 19)
  }

  /** Grouping leaves a space after a last group that is full. */
  lemma {:induction false} GroupIsChunked(d: string)
    ensures GroupDigits(d) == Chunked(d) + (if |d| > 0 && |d| % 4 == 0 then " " else "")
  {
    if |d| > 4 {
      GroupIsChunked(d[4..]);
    }
  }

  /** A prefix of the digits typed is digits. */
  lemma TakeDigits(v: string, n: nat)
    ensures JsText.AllDigits(JsText.OnlyDigits(v))
    ensures JsText.AllDigits(JsText.Take(JsText.OnlyDigits(v), n))
  {
    JsText.OnlyDigitsKeepsDigits(v);
    var d := JsText.OnlyDigits(v);
    var t := JsText.Take(d, n);
    forall i | 0 <= i < |t| ensures JsText.IsDigit(t[i]) {
      assert t[i] == d[i];
    }
  }

  /** The shape of `Chunked(d)`: a space exactly at every fifth position, digits elsewhere. */
  lemma {:induction false} ChunkedShape(d: string)
    requires JsText.AllDigits(d)
    ensures |Chunked(d)| == if d == [] then 0 else |d| + (|d| - 1) / 4
    ensures forall i :: 0 <= i < |Chunked(d)| ==>
      (Chunked(d)[i] == ' ' <==> i % 5 == 4) && (Chunked(d)[i] != ' ' ==> JsText.IsDigit(Chunked(d)[i]))
  {
    if |d| > 4 {
      var tail := d[4..];
      assert JsText.AllDigits(tail) by {
        forall i | 0 <= i < |tail| ensures JsText.IsDigit(tail[i]) {
          assert tail[i] == d[i + 4];
        }
      }
      ChunkedShape(tail);
      var c := Chunked(d);
      assert c == d[..4] + " " + Chunked(tail);
      forall i | 5 <= i < |c| ensures c[i] == Chunked(tail)[i - 5] && (i % 5 == 4 <==> (i - 5) % 5 == 4) {
      }
    }
  }

  /** A chunked number neither starts nor ends with a space. */
  lemma ChunkedEnds(d: string)
    requires JsText.AllDigits(d) && d != []
    ensures Chunked(d) != [] && JsText.IsDigit(Chunked(d)[0]) && JsText.IsDigit(Chunked(d)[|Chunked(d)| - 1])
  {
    ChunkedShape(d);
    var m := |d| - 1;
    var n := |Chunked(d)| - 1;
    assert n == m + m / 4;
    assert n % 5 != 4 by {
      var q, t := m / 4, m % 4;
      assert m == 4 * q + t;
      assert n == 5 * q + t;
    }
  }

  /** Trimming the grouped digits drops just the space after a full last group. */
  lemma TrimGrouped(d: string)
    requires JsText.AllDigits(d)
    ensures JsText.Trim(GroupDigits(d)) == Chunked(d)
  {
    GroupIsChunked(d);
    if d != [] {
      ChunkedEnds(d);
      var c := Chunked(d);
      var g := GroupDigits(d);
      assert !JsText.IsWhitespace(c[0]) && !JsText.IsWhitespace(c[|c| - 1]);
      JsText.TrimUnpadded(c);
      if |d| % 4 == 0 {
        JsText.TrimTrailingSpace(c);
      }
    }
  }

  /** Keeping `5k + 4` characters of the chunked digits keeps `4k + 4` digits. */
  lemma {:induction false} TakeChunked(d: string, k: nat)
    ensures JsText.Take(Chunked(d), 5 * k + 4) == Chunked(JsText.Take(d, 4 * k + 4))
  {
    if |d| > 4 && k > 0 {
      TakeChunked(d[4..], k - 1);
      var t := JsText.Take(d, 4 * k + 4);
      assert t[..4] == d[..4] && t[4..] == JsText.Take(d[4..], 4 * (k - 1) + 4);
      var c := Chunked(d[4..]);
      assert JsText.Take(d[..4] + " " + c, 5 * k + 4) == d[..4] + " " + JsText.Take(c, 5 * (k - 1) + 4);
    } else if |d| > 4 {
      assert JsText.Take(Chunked(d), 4) == d[..4];
    }
  }

  /** The formatted card number is the first sixteen digits typed, chunked. */
  lemma FormatCardNumberIsChunked(v: string)
    ensures FormatCardNumber(v) == Chunked(JsText.Take(JsText.OnlyDigits(v), 16))
  {
    JsText.OnlyDigitsKeepsDigits(v);
    TrimGrouped(JsText.OnlyDigits(v));
    TakeChunked(JsText.OnlyDigits(v), 3);
  }

  /** Removing the spaces of a chunked number gives its digits back. */
  lemma {:induction false} RemoveWhitespaceChunked(d: string)
    requires JsText.AllDigits(d)
    ensures JsText.RemoveWhitespace(Chunked(d)) == d
  {
    if |d| > 4 {
      var tail := d[4..];
      assert JsText.AllDigits(tail) by {
        forall i | 0 <= i < |tail| ensures JsText.IsDigit(tail[i]) {
          assert tail[i] == d[i + 4];
        }
      }
      RemoveWhitespaceChunked(tail);
      JsText.RemoveWhitespaceAppend(d[..4] + " ", Chunked(tail));
      JsText.RemoveWhitespaceAppend(d[..4], " ");
      assert JsText.NoWhitespace(d[..4]) by {
        forall i | 0 <= i < 4 ensures !JsText.IsWhitespace(d[..4][i]) {
          assert d[..4][i] == d[i];
        }
      }
      JsText.RemoveWhitespaceKeepsRest(d[..4]);
      assert JsText.RemoveWhitespace(" ") == [];
      assert d == d[..4] + tail;
    } else {
      assert JsText.NoWhitespace(d) by {
        forall i | 0 <= i < |d| ensures !JsText.IsWhitespace(d[i]) {
          assert JsText.IsDigit(d[i]);
        }
      }
      JsText.RemoveWhitespaceKeepsRest(d);
    }
  }

  /** Keeping the digits of a chunked number gives its digits back. */
  lemma {:induction false} OnlyDigitsChunked(d: string)
    requires JsText.AllDigits(d)
    ensures JsText.OnlyDigits(Chunked(d)) == d
  {
    if |d| > 4 {
      var tail := d[4..];
      assert JsText.AllDigits(tail) by {
        forall i | 0 <= i < |tail| ensures JsText.IsDigit(tail[i]) {
          assert tail[i] == d[i + 4];
        }
      }
      OnlyDigitsChunked(tail);
      var c := d[..4] + " " + Chunked(tail);
      JsText.OnlyDigitsAppend(d[..4] + " ", Chunked(tail));
      JsText.OnlyDigitsAppend(d[..4], " ");
      assert JsText.AllDigits(d[..4]) by {
        forall i | 0 <= i < 4 ensures JsText.IsDigit(d[..4][i]) {
          assert d[..4][i] == d[i];
        }
      }
      JsText.OnlyDigitsKeepsDigits(d[..4]);
      assert JsText.OnlyDigits(" ") == [];
      assert d == d[..4] + tail;
    } else {
      JsText.OnlyDigitsKeepsDigits(d);
    }
  }

  /** What the card formatter shows: at most 19 characters, digits with a single space after
      every fourth, and never a space at the end. */
  lemma FormatCardNumberShape(v: string)
    ensures var r := FormatCardNumber(v);
      && |r| <= 19
      && (forall i :: 0 <= i < |r| ==> (r[i] == ' ' <==> i % 5 == 4) && (r[i] != ' ' ==> JsText.IsDigit(r[i])))
      && (r == [] || r[|r| - 1] != ' ')
  {
    var d := JsText.Take(JsText.OnlyDigits(v), 16);
    FormatCardNumberIsChunked(v);
    TakeDigits(v, 16);
    ChunkedShape(d);
    if d != [] {
      ChunkedEnds(d);
    }
  }

  /** The card formatter and the card validator agree: what the formatter shows is a valid
      card number exactly when at least sixteen digits were typed. */
  lemma FormattedCardValidIffSixteenDigits(v: string)
    ensures ValidateCardNumber(FormatCardNumber(v)) <==> |JsText.OnlyDigits(v)| >= 16
  {
    var d := JsText.Take(JsText.OnlyDigits(v), 16);
    FormatCardNumberIsChunked(v);
    TakeDigits(v, 16);
    RemoveWhitespaceChunked(d);
  }

  /** Formatting a formatted card number changes nothing. */
  lemma FormatCardNumberIdempotent(v: string)
    ensures FormatCardNumber(FormatCardNumber(v)) == FormatCardNumber(v)
  {
    var d := JsText.Take(JsText.OnlyDigits(v), 16);
    FormatCardNumberIsChunked(v);
    TakeDigits(v, 16);
    OnlyDigitsChunked(d);
    FormatCardNumberIsChunked(FormatCardNumber(v));
  }

  // Expiry date

  /** `/^(0[1-9]|1[0-2])\/([0-9]{2})$/`: a month 01 to 12, a slash and two digits. */
  predicate ExpiryShape(s: string) {
    && |s| == 5 && s[2] == '/' && JsText.IsDigit(s[3]) && JsText.IsDigit(s[4])
    && ((s[0] == '0' && '1' <= s[1] <= '9') || (s[0] == '1' && '0' <= s[1] <= '2'))
  }

  /** `validateExpiryDate`, with the clock read as `fullYear` (`getFullYear()`) and
      `currentMonth` (`getMonth() + 1`): the shape, then the year and month after the slash
      split, compared with the current two-digit year and month. */
  function ValidateExpiryDate(s: string, fullYear: int, currentMonth: int): (r: bool)
    ensures r ==> ExpiryShape(s)
  {
    if !ExpiryShape(s) then false
    else
      assert JsText.AllDigits(s[..2]) && JsText.AllDigits(s[3..]);
      var month := JsText.ParseInt(s[..2]).value;
      var year := JsText.ParseInt(s[3..]).value;
      var currentYear := JsText.Rem(fullYear, 100);
      if year < currentYear then false
      else if year == currentYear && month < currentMonth then false
      else true
  }

  /** The number two decimal digits stand for. */
  function TwoDigits(a: char, b: char): (n: nat)
    requires JsText.IsDigit(a) && JsText.IsDigit(b)
    ensures n < 100
  {
    10 * JsText.DigitValue(a) + JsText.DigitValue(b)
  }

  /** Reading a two-digit string gives its two-digit number. */
  lemma ParseTwoDigits(t: string)
    requires |t| == 2 && JsText.AllDigits(t)
    ensures JsText.ParseInt(t) == Some(TwoDigits(t[0], t[1]))
  {
    assert JsText.DigitsValue(t) == TwoDigits(t[0], t[1]) by {
      var u := t[..1];
      assert u == [t[0]] && u[..0] == [];
      assert JsText.AllDigits(u);
      assert JsText.DigitsValue(u) == JsText.DigitValue(t[0]);
      assert JsText.DigitsValue(t) == JsText.DigitsValue(u) * 10 + JsText.DigitValue(t[1]);
    }
  }

  /** An expiry date is accepted exactly when it has the shape and its year and month, in
      that order, are not before the current two-digit year and the current month; the
      shape admits only the months 1 to 12. */
  lemma ExpiryDateValidIff(s: string, fullYear: int, currentMonth: int)
    ensures ExpiryShape(s) ==> 1 <= TwoDigits(s[0], s[1]) <= 12
    ensures ValidateExpiryDate(s, fullYear, currentMonth) <==>
      && ExpiryShape(s)
      && var month, year, currentYear := TwoDigits(s[0], s[1]), TwoDigits(s[3], s[4]), JsText.Rem(fullYear, 100);
         year > currentYear || (year == currentYear && month >= currentMonth)
  {
    if ExpiryShape(s) {
      assert JsText.AllDigits(s[..2]) && JsText.AllDigits(s[3..]);
      ParseTwoDigits(s[..2]);
      ParseTwoDigits(s[3..]);
      assert s[..2][0] == s[0] && s[..2][1] == s[1] && s[3..][0] == s[3] && s[3..][1] == s[4];
    }
  }

  /** `d.replace(/(\d{2})(\d)/, '$1/$2')` on a string of digits: a slash after the first
      two digits when a third follows; the pattern is not global, so only once. */
  function InsertSlash(d: string): string {
    if |d| >= 3 then d[..2] + "/" + d[2..] else d
  }

  /** The expiry formatter of `handleInputChange`: keep the digits, insert the slash, keep at
      most five characters. */
  function FormatExpiry(v: string): (r: string)
    ensures |r| <= 5
  {
    JsText.Take(InsertSlash(JsText.OnlyDigits(v)), 5)
  }

  /** What the expiry formatter shows: the digits typed while there are at most two,
      otherwise the first two, a slash and at most two more. */
  lemma FormatExpiryShape(v: string)
    ensures var d, r := JsText.OnlyDigits(v), FormatExpiry(v);
      && |r| <= 5
      && (|d| < 3 ==> r == d)
      && (|d| >= 3 ==> r == d[..2] + "/" + JsText.Take(d[2..], 2))
  {
  }

  /** Formatting a formatted expiry date changes nothing. */
  lemma FormatExpiryIdempotent(v: string)
    ensures FormatExpiry(FormatExpiry(v)) == FormatExpiry(v)
  {
    var d, r := JsText.OnlyDigits(v), FormatExpiry(v);
    JsText.OnlyDigitsKeepsDigits(v);
    FormatExpiryShape(v);
    if |d| < 3 {
      JsText.OnlyDigitsKeepsDigits(d);
    } else {
      var a, b := d[..2], JsText.Take(d[2..], 2);
      assert JsText.AllDigits(a) && JsText.AllDigits(b) by {
        assert forall i | 0 <= i < |a| :: a[i] == d[i];
        assert forall i | 0 <= i < |b| :: b[i] == d[i + 2];
      }
      JsText.OnlyDigitsAppend(a + "/", b);
      JsText.OnlyDigitsAppend(a, "/");
      JsText.OnlyDigitsKeepsDigits(a);
      JsText.OnlyDigitsKeepsDigits(b);
      assert JsText.OnlyDigits("/") == [];
      assert JsText.OnlyDigits(r) == a + b;
      FormatExpiryShape(r);
      assert (a + b)[..2] == a && (a + b)[2..] == b;
    }
  }

  /** The expiry formatter and the shape check agree: what the formatter shows has the
      MM/YY shape exactly when at least four digits were typed and the first two make a
      month. */
  lemma FormattedExpiryShapeIff(v: string)
    ensures var d := JsText.OnlyDigits(v);
      ExpiryShape(FormatExpiry(v)) <==>
        |d| >= 4 && ((d[0] == '0' && d[1] != '0') || (d[0] == '1' && d[1] <= '2'))
  {
    var d := JsText.OnlyDigits(v);
    JsText.OnlyDigitsKeepsDigits(v);
    FormatExpiryShape(v);
    if |d| < 3 {
      assert !ExpiryShape(FormatExpiry(v)) by {
        assert |FormatExpiry(v)| < 5;
      }
    } else {
      assert JsText.IsDigit(d[0]) && JsText.IsDigit(d[1]);
    }
  }

  // CVV

  /** `validateCVV`: three or four characters, all digits. */
  predicate ValidateCVV(s: string): (r: bool)
    ensures r ==> JsText.OnlyDigits(s) == s
  {
    JsText.OnlyDigitsKeepsDigits(s);
    3 <= |s| <= 4 && JsText.AllDigits(s)
  }

  /** The CVV formatter of `handleInputChange`: keep the digits, at most four. */
  function FormatCVV(v: string): (r: string)
    ensures |r| <= 4 && JsText.AllDigits(r)
  {
    TakeDigits(v, 4);
    JsText.Take(JsText.OnlyDigits(v), 4)
  }

  /** The CVV formatter and the CVV validator agree: what the formatter shows is a valid CVV
      exactly when at least three digits were typed. */
  lemma FormattedCVVValidIff(v: string)
    ensures ValidateCVV(FormatCVV(v)) <==> |JsText.OnlyDigits(v)| >= 3
  {
    TakeDigits(v, 4);
  }

  /** Formatting a formatted CVV changes nothing. */
  lemma FormatCVVIdempotent(v: string)
    ensures FormatCVV(FormatCVV(v)) == FormatCVV(v)
  {
    TakeDigits(v, 4);
    JsText.OnlyDigitsKeepsDigits(FormatCVV(v));
  }

  // The whole form

  /** The five inputs of the form, by their `name` attribute, in the order `validateForm`
      checks them. */
  datatype Field = Email | CardNumber | CardHolder | ExpiryDate | Cvv

  /** A field's value or message; a field never set reads as the empty string, which is
      falsy like `undefined`. */
  function Get(m: map<Field, string>, f: Field): string {
    if f in m then m[f] else ""
  }

  /** Whether a non-empty value of the field passes its validator. */
  predicate FieldValid(f: Field, value: string, fullYear: int, currentMonth: int) {
    match f
    case Email => EmailRule.IsEmail(value)
    case CardNumber => ValidateCardNumber(value)
    case CardHolder => |value| >= 3
    case ExpiryDate => ValidateExpiryDate(value, fullYear, currentMonth)
    case Cvv => ValidateCVV(value)
  }

  /** The message for an empty field. */
  function RequiredMessage(f: Field): (m: string)
    ensures m != ""
  {
    match f
    case Email => "Email is required"
    case CardNumber => "Card number is required"
    case CardHolder => "Card holder name is required"
    case ExpiryDate => "Expiry date is required"
    case Cvv => "CVV is required"
  }

  /** The message for a field filled in wrongly. */
  function FormatMessage(f: Field): (m: string)
    ensures m != "" && m != RequiredMessage(f)
  {
    match f
    case Email => "Please enter a valid email address"
    case CardNumber => "Please enter a valid 16-digit card number"
    case CardHolder => "Card holder name must be at least 3 characters"
    case ExpiryDate => "Please enter a valid expiry date (MM/YY)"
    case Cvv => "Please enter a valid CVV (3-4 digits)"
  }

  /** The error `validateForm` records for one field: the required message when it is empty,
      the format message when it fails its validator, and nothing otherwise. */
  function FieldError(form: map<Field, string>, f: Field, fullYear: int, currentMonth: int): string {
    var value := Get(form, f);
    if value == "" then RequiredMessage(f)
    else if !FieldValid(f, value, fullYear, currentMonth) then FormatMessage(f)
    else ""
  }

  /** A field is error-free exactly when it is filled in and valid, and the two messages
      tell an empty field from an invalid one. */
  lemma FieldErrorMeaning(form: map<Field, string>, f: Field, fullYear: int, currentMonth: int)
    ensures var e, value := FieldError(form, f, fullYear, currentMonth), Get(form, f);
      && (e == "" <==> value != "" && FieldValid(f, value, fullYear, currentMonth))
      && (e == RequiredMessage(f) <==> value == "")
      && (e == FormatMessage(f) <==> value != "" && !FieldValid(f, value, fullYear, currentMonth))
  {
    var e := FieldError(form, f, fullYear, currentMonth);
    if Get(form, f) == "" {
      assert e == RequiredMessage(f);
    }
  }

  /** Every field is filled in and passes its validator. */
  predicate FormValid(form: map<Field, string>, fullYear: int, currentMonth: int) {
    forall f: Field :: Get(form, f) != "" && FieldValid(f, Get(form, f), fullYear, currentMonth)
  }

  /** One step of `validateForm`: the message for the field, which is empty when the field
      passes. */
  method CheckField(form: map<Field, string>, f: Field, fullYear: int, currentMonth: int) returns (message: string)
    ensures message == FieldError(form, f, fullYear, currentMonth)
  {
    var value := Get(form, f);
    message := "";
    if value == "" {
      message := RequiredMessage(f);
    } else if !FieldValid(f, value, fullYear, currentMonth) {
      message := FormatMessage(f);
    }
  }

  /** `validateForm`: checks the five fields in turn, recording each one's message and
      clearing the flag on any failure. The flag ends up set exactly when every field is
      filled in and valid, which is also exactly when all five messages are empty. */
  method ValidateForm(form: map<Field, string>, fullYear: int, currentMonth: int)
    returns (isValid: bool, errors: map<Field, string>)
    ensures forall f: Field :: f in errors && errors[f] == FieldError(form, f, fullYear, currentMonth)
    ensures isValid <==> forall f: Field :: errors[f] == ""
    ensures isValid <==> FormValid(form, fullYear, currentMonth)
  {
    errors := map[CardNumber := "", CardHolder := "", ExpiryDate := "", Cvv := "", Email := ""];
    isValid := true;
    var message := CheckField(form, Email, fullYear, currentMonth);
    errors, isValid := errors[Email := message], isValid && message == "";
    message := CheckField(form, CardNumber, fullYear, currentMonth);
    errors, isValid := errors[CardNumber := message], isValid && message == "";
    message := CheckField(form, CardHolder, fullYear, currentMonth);
    errors, isValid := errors[CardHolder := message], isValid && message == "";
    message := CheckField(form, ExpiryDate, fullYear, currentMonth);
    errors, isValid := errors[ExpiryDate := message], isValid && message == "";
    message := CheckField(form, Cvv, fullYear, currentMonth);
    errors, isValid := errors[Cvv := message], isValid && message == "";
    forall f: Field ensures f in errors && errors[f] == FieldError(form, f, fullYear, currentMonth) {
      match f
      case Email =>
      case CardNumber =>
      case CardHolder =>
      case ExpiryDate =>
      case Cvv =>
    }
    assert isValid <==>
      errors[Email] == "" && errors[CardNumber] == "" && errors[CardHolder] == "" && errors[ExpiryDate] == "" && errors[Cvv] == "";
    AllFiveEmpty(errors);
    NoErrorsIffFormValid(form, fullYear, currentMonth, errors);
  }

  /** A message for every field: all are empty exactly when each of the five is. */
  lemma AllFiveEmpty(errors: map<Field, string>)
    requires forall f: Field :: f in errors
    ensures (forall f: Field :: errors[f] == "") <==>
      errors[Email] == "" && errors[CardNumber] == "" && errors[CardHolder] == "" && errors[ExpiryDate] == "" && errors[Cvv] == ""
  {
    if errors[Email] == "" && errors[CardNumber] == "" && errors[CardHolder] == "" && errors[ExpiryDate] == "" && errors[Cvv] == "" {
      forall f: Field ensures errors[f] == "" {
        match f
        case Email =>
        case CardNumber =>
        case CardHolder =>
        case ExpiryDate =>
        case Cvv =>
      }
    }
  }

  /** With every field's message recorded, no message is set exactly when the form is valid. */
  lemma NoErrorsIffFormValid(form: map<Field, string>, fullYear: int, currentMonth: int, errors: map<Field, string>)
    requires forall f: Field :: f in errors && errors[f] == FieldError(form, f, fullYear, currentMonth)
    ensures (forall f: Field :: errors[f] == "") <==> FormValid(form, fullYear, currentMonth)
  {
    forall f: Field ensures errors[f] == "" <==> Get(form, f) != "" && FieldValid(f, Get(form, f), fullYear, currentMonth) {
      FieldErrorMeaning(form, f, fullYear, currentMonth);
    }
  }

  /** The form data and the field errors the page keeps. */
  datatype FormState = FormState(data: map<Field, string>, errors: map<Field, string>)

  /** The fields whose input is reformatted as it is typed. */
  predicate IsFormatted(f: Field) {
    f == CardNumber || f == ExpiryDate || f == Cvv
  }

  /** What a field stores for a typed value: the formatter's output for the three formatted
      fields, the value as typed otherwise. */
  function Stored(f: Field, value: string): string {
    match f
    case CardNumber => FormatCardNumber(value)
    case ExpiryDate => FormatExpiry(value)
    case Cvv => FormatCVV(value)
    case _ => value
  }

  /** `handleInputChange`: a formatted field stores the formatter's output and returns
      before touching the errors; any other field stores the value as typed and clears its
      own error when it has one. */
  function HandleInputChange(st: FormState, f: Field, value: string): (r: FormState)
    ensures r.data == st.data[f := Stored(f, value)]
    ensures IsFormatted(f) || Get(st.errors, f) == "" ==> r.errors == st.errors
    ensures !IsFormatted(f) ==> r.errors.Keys == st.errors.Keys && Get(r.errors, f) == ""
    ensures forall g :: g in st.errors && g != f ==> r.errors[g] == st.errors[g]
  {
    if IsFormatted(f) then
      FormState(st.data[f := Stored(f, value)], st.errors)
    else
      var errors := if Get(st.errors, f) != "" then st.errors[f := ""] else st.errors;
      FormState(st.data[f := value], errors)
  }
}
