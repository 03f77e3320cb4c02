/** The e-mail pattern both the payment form and the registration form use: a local part, an
    "@", a domain with a dot inside it, and nothing that is whitespace or a second "@". */
module EmailRule {
  import JsText

  /** `[^\s@]`: neither whitespace nor "@". */
  predicate Plain(c: char) {
    c != '@' && !JsText.IsWhitespace(c)
  }

  /** `/^[^\s@]+@[^\s@]+\.[^\s@]+$/.test(s)`: some "@" at `i` and some "." at `j` cut `s` into
      three non-empty parts, and every other character is plain. */
  predicate IsEmail(s: string) {
    exists i, j :: 0 < i && i + 1 < j < |s| - 1 && s[i] == '@' && s[j] == '.' && AllPlainExcept(s, i)
  }

  /** Every character other than the one at `i` is plain. */
  predicate AllPlainExcept(s: string, i: int) {
    forall k :: 0 <= k < |s| && k != i ==> Plain(s[k])
  }

  /** An address holds exactly one "@" and no whitespace at all. */
  lemma EmailHasOneAt(s: string)
    requires IsEmail(s)
    ensures exists i :: 0 <= i < |s| && s[i] == '@' && forall k :: 0 <= k < |s| && s[k] == '@' ==> k == i
    ensures forall k :: 0 <= k < |s| ==> !JsText.IsWhitespace(s[k])
  {
    var i, j :| 0 < i && i + 1 < j < |s| - 1 && s[i] == '@' && s[j] == '.' && AllPlainExcept(s, i);
    assert forall k :: 0 <= k < |s| && s[k] == '@' ==> k == i;
  }

  /** A few addresses the pattern accepts and rejects. */
  lemma EmailExamples()
    ensures IsEmail("ana@mail.com")
    ensures IsEmail("a@b.c.d")
    ensures !IsEmail("ana@mail")
    ensures !IsEmail("ana@.com")
    ensures !IsEmail("a@b@c.d")
    ensures !IsEmail("a b@c.d")
  {
    var s := "ana@mail.com";
    assert s[3] == '@' && s[8] == '.' && AllPlainExcept(s, 3);
    var t := "a@b.c.d";
    assert t[1] == '@' && t[3] == '.' && AllPlainExcept(t, 1);
    var u := "ana@.com";
    forall i, j | 0 < i && i + 1 < j < |u| - 1 && u[i] == '@' && u[j] == '.'
      ensures false
    {
    }
    var w := "a@b@c.d";
    forall i | 0 < i < |w| && w[i] == '@' ensures !AllPlainExcept(w, i) {
      assert !Plain(w[1]) && !Plain(w[3]);
    }
    var x := "a b@c.d";
    forall i | 0 <= i < |x| ensures !AllPlainExcept(x, i) {
      assert !Plain(x[1]) && !Plain(x[3]);
    }
  }
}
