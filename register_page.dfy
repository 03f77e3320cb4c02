/** The registration form: the validator of each field, the check of the whole form before
    submission, and how editing and leaving a field change the recorded errors. */
module RegisterPage {
  import JsText
  import EmailRule

  /** `[A-Za-z ]`. */
  predicate NameChar(c: char) {
    JsText.IsLetter(c) || c == ' '
  }

  /** `/^[A-Za-z ]+$/.test(value)`. */
  predicate IsNamePattern(value: string) {
    |value| > 0 && forall i :: 0 <= i < |value| ==> NameChar(value[i])
  }

  /** `[@$!%*?&]`: the special characters a password may hold. */
  predicate IsSpecial(c: char) {
    c == '@' || c == '$' || c == '!' || c == '%' || c == '*' || c == '?' || c == '&'
  }

  /** `[A-Za-z\d@$!%*?&]`. */
  predicate PasswordChar(c: char) {
    JsText.IsLetter(c) || JsText.IsDigit(c) || IsSpecial(c)
  }

  /** `/^(?=.{8,20}$)(?=.*[A-Z])(?=.*[a-z])(?=.*\d)(?=.*[@$!%*?&])[A-Za-z\d@$!%*?&]+$/`: the
      whole value is made of allowed characters, and it is 8 to 20 of them with at least one
      of each of the four kinds. */
  predicate IsPasswordPattern(value: string) {
    && 8 <= |value| <= 20
    && (exists i :: 0 <= i < |value| && JsText.IsUpper(value[i]))
    && (exists i :: 0 <= i < |value| && JsText.IsLower(value[i]))
    && (exists i :: 0 <= i < |value| && JsText.IsDigit(value[i]))
    && (exists i :: 0 <= i < |value| && IsSpecial(value[i]))
    && forall i :: 0 <= i < |value| ==> PasswordChar(value[i])
  }

  /** `/^[6-9]\d{9}$/.test(value)`. */
  predicate IsContactPattern(value: string) {
    |value| == 10 && '6' <= value[0] <= '9' && forall i :: 1 <= i < 10 ==> JsText.IsDigit(value[i])
  }

  /** The `name` case of `validateField`. */
  function NameError(value: string): string {
    if JsText.Trim(value) == "" then "Name cannot be blank"
    else if !IsNamePattern(value) then "Name must contain only letters and spaces"
    else ""
  }

  /** The `email` case of `validateField`: blankness is judged on the trimmed value, the
      pattern on the value as typed. */
  function EmailError(value: string): string {
    if JsText.Trim(value) == "" then "Email cannot be blank"
    else if !EmailRule.IsEmail(value) then "Email should be valid"
    else ""
  }

  /** The `password` case of `validateField`. */
  function PasswordError(value: string): string {
    if !IsPasswordPattern(value) then
      "Password must be 8-20 chars, include upper & lower case letters, a digit and a special character"
    else ""
  }

  /** The `contactNumber` case of `validateField`. */
  function ContactError(value: string): string {
    if JsText.Trim(value) == "" then "Contact number cannot be blank"
    else if !IsContactPattern(value) then "Invalid contact number"
    else ""
  }

  /** A password that is all whitespace has no upper-case letter, so it is refused. */
  lemma BlankPasswordRefused(value: string)
    ensures JsText.Trim(value) == "" ==> !IsPasswordPattern(value)
  {
    JsText.TrimBlankIff(value);
  }

  /** `validateField`: the message for the named field's value, empty when it is valid. */
  function ValidateField(name: string, value: string): (r: string)
    ensures (name == "name" || name == "email" || name == "password" || name == "contactNumber") && JsText.Trim(value) == "" ==>
      r != ""
  {
    BlankPasswordRefused(value);
    if name == "name" then NameError(value)
    else if name == "email" then EmailError(value)
    else if name == "password" then PasswordError(value)
    else if name == "contactNumber" then ContactError(value)
    else ""
  }

  /** A name passes exactly when it holds only letters and spaces and at least one
      letter. */
  lemma NameValidIff(value: string)
    ensures NameError(value) == "" <==>
      (forall i :: 0 <= i < |value| ==> NameChar(value[i])) && (exists i :: 0 <= i < |value| && JsText.IsLetter(value[i]))
  {
    JsText.TrimBlankIff(value);
    if NameError(value) == "" {
      assert JsText.Trim(value) != "";
      var i :| 0 <= i < |value| && !JsText.IsWhitespace(value[i]);
      assert JsText.IsLetter(value[i]);
    } else if forall i :: 0 <= i < |value| ==> NameChar(value[i]) {
      forall i | 0 <= i < |value| ensures !JsText.IsLetter(value[i]) {
        assert JsText.IsWhitespace(value[i]);
      }
    }
  }

  /** A name that is all whitespace is reported blank. */
  lemma NameBlankIff(value: string)
    ensures NameError(value) == "Name cannot be blank" <==> forall i :: 0 <= i < |value| ==> JsText.IsWhitespace(value[i])
  {
    JsText.TrimBlankIff(value);
  }

  /** An e-mail passes exactly when it matches the address pattern; a value that is all
      whitespace gets the blank message instead of the invalid one. */
  lemma EmailValidIff(value: string)
    ensures EmailError(value) == "" <==> EmailRule.IsEmail(value)
    ensures EmailError(value) == "Email cannot be blank" <==> forall i :: 0 <= i < |value| ==> JsText.IsWhitespace(value[i])
  {
    JsText.TrimBlankIff(value);
    if EmailRule.IsEmail(value) {
      EmailRule.EmailHasOneAt(value);
      assert !JsText.IsWhitespace(value[0]);
    }
  }

  /** A contact number passes exactly when it is ten digits, the first of them 6 to 9. */
  lemma ContactValidIff(value: string)
    ensures ContactError(value) == "" <==> |value| == 10 && JsText.AllDigits(value) && '6' <= value[0] <= '9'
    ensures ContactError(value) == "Contact number cannot be blank" <==> forall i :: 0 <= i < |value| ==> JsText.IsWhitespace(value[i])
  {
    JsText.TrimBlankIff(value);
    if IsContactPattern(value) {
      assert !JsText.IsWhitespace(value[0]);
    }
  }

  /** A password with a capital, a small letter, a digit and a special character passes. */
  lemma PasswordAccepted()
    ensures PasswordError("Secret1!") == ""
  {
    var p := "Secret1!";
    assert IsPasswordPattern(p) by {
      assert p[0] == 'S' && p[1] == 'e' && p[6] == '1' && p[7] == '!';
      assert JsText.IsUpper(p[0]) && JsText.IsLower(p[1]) && JsText.IsDigit(p[6]) && IsSpecial(p[7]);
      forall i | 0 <= i < |p| ensures PasswordChar(p[i]) {
        assert i < 6 ==> JsText.IsLetter(p[i]);
      }
    }
  }

  /** Passwords without a capital, without a special character, too short, or with a space
      are refused. */
  lemma PasswordsRefused()
    ensures PasswordError("secret1!") != ""
    ensures PasswordError("Secret12") != ""
    ensures PasswordError("Sec1!") != ""
    ensures PasswordError("Secret 1!") != ""
  {
    var q := "secret1!";
    forall i | 0 <= i < |q| ensures !JsText.IsUpper(q[i]) {
    }
    var r := "Secret12";
    forall i | 0 <= i < |r| ensures !IsSpecial(r[i]) {
    }
    var s := "Secret 1!";
    assert !PasswordChar(s[6]);
  }

  /** A field other than the four validated ones never gets a message. */
  lemma OtherFieldsPass(name: string, value: string)
    requires name != "name" && name != "email" && name != "password" && name != "contactNumber"
    ensures ValidateField(name, value) == ""
  {
  }

  /** Whether `validateForm` checks the field: every field but gender, address and role. */
  predicate Checked(key: string) {
    key != "gender" && key != "address" && key != "role"
  }

  /** The errors of the checked fields among `keys` that have one. */
  function ErrorsOf(form: map<string, string>, keys: set<string>): map<string, string>
    requires keys <= form.Keys
  {
    map k | k in keys && Checked(k) && ValidateField(k, form[k]) != "" :: ValidateField(k, form[k])
  }

  /** `validateForm`: runs the validator of every checked field and records the errors
      found; the form may be submitted exactly when there are none, that is, when every
      checked field passes. */
  method ValidateForm(form: map<string, string>) returns (ok: bool, errors: map<string, string>)
    ensures errors == ErrorsOf(form, form.Keys)
    ensures forall k :: k in errors <==> k in form && Checked(k) && ValidateField(k, form[k]) != ""
    ensures forall k :: k in errors ==> errors[k] == ValidateField(k, form[k]) && errors[k] != ""
    ensures ok <==> forall k :: k in form && Checked(k) ==> ValidateField(k, form[k]) == ""
  {
    errors := map[];
    var todo := form.Keys;
    while todo != {}
      invariant todo <= form.Keys
      invariant errors == ErrorsOf(form, form.Keys - todo)
      decreases |todo|
    {
      var key :| key in todo;
      if key != "gender" && key != "address" && key != "role" {
        var error := ValidateField(key, form[key]);
        if error != "" {
          errors := errors[key := error];
        }
      }
      todo := todo - {key};
      assert errors == ErrorsOf(form, form.Keys - todo);
    }
    assert form.Keys - todo == form.Keys;
    ok := |errors| == 0;
    if !ok {
      var k :| k in errors;
    }
  }

  /** An error of the map, or the empty string (falsy, like `undefined`) for none. */
  function Get(errors: map<string, string>, k: string): string {
    if k in errors then errors[k] else ""
  }

  /** `handleChange`: the field takes the value, and an error recorded for that field (and
      only that field) is dropped. */
  function HandleChange(form: map<string, string>, errors: map<string, string>, name: string, value: string)
    : (r: (map<string, string>, map<string, string>))
    ensures r.0 == form[name := value]
    ensures Get(r.1, name) == ""
    ensures forall k :: k != name ==> (k in r.1 <==> k in errors)
    ensures forall k :: k in r.1 ==> k in errors && r.1[k] == errors[k]
  {
    var kept := if Get(errors, name) != "" then errors - {name} else errors;
    (form[name := value], kept)
  }

  /** `handleBlur`: records the field's error when it has one, and otherwise leaves the
      errors as they are; it never removes an error. */
  function HandleBlur(errors: map<string, string>, name: string, value: string): (r: map<string, string>)
    ensures errors.Keys <= r.Keys
    ensures forall k :: k in errors && k != name ==> r[k] == errors[k]
    ensures ValidateField(name, value) != "" ==> r.Keys == errors.Keys + {name} && r[name] == ValidateField(name, value)
    ensures ValidateField(name, value) == "" ==> r == errors
  {
    var error := ValidateField(name, value);
    if error != "" then errors[name := error] else errors
  }

  /** Leaving a field right after typing a valid value into it leaves it without an error. */
  lemma ChangeThenBlurValid(form: map<string, string>, errors: map<string, string>, name: string, value: string)
    requires ValidateField(name, value) == ""
    ensures Get(HandleBlur(HandleChange(form, errors, name, value).1, name, value), name) == ""
  {
  }

  /** After leaving a field, its recorded error is the validator's message, if there is one. */
  lemma BlurRecordsError(errors: map<string, string>, name: string, value: string)
    requires ValidateField(name, value) != ""
    ensures Get(HandleBlur(errors, name, value), name) == ValidateField(name, value)
  {
  }
}
