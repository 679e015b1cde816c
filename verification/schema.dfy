/** The Yup rules the auth forms declare, as predicates on the strings typed.
    Yup's `.email()` check lives in the library and is not modelled here:
    the forms take it as a parameter. */
module Schema {
  import opened Text

  /** `.required()` on a string: the empty string is missing. Whitespace counts
      as content, since the schemas do not trim. */
  predicate Required(s: string) {
    s != ""
  }

  /** The password rule shared by every form: `.min(8)`, `.matches(/\d/)` and
      `.matches(/[a-z]/)`. */
  predicate StrongPassword(p: string) {
    |p| >= 8 && HasDigit(p) && HasLower(p)
  }

  /** A password that passes the rule is never the empty string, so a
      `.required()` next to it adds nothing. */
  lemma StrongIsRequired(p: string)
    ensures StrongPassword(p) ==> Required(p)
  {
  }

  /** Eight lowercase letters and no digit fail; add a digit and they pass. */
  lemma StrongPasswordExamples()
    ensures !StrongPassword("abcdefgh")
    ensures !StrongPassword("ABCDEFG1")
    ensures !StrongPassword("abcdef1")
    ensures StrongPassword("abcdefg1")
  {
    assert IsDigit("abcdefg1"[7]) && IsLower("abcdefg1"[0]);
    assert forall i :: 0 <= i < |"ABCDEFG1"| ==> !IsLower("ABCDEFG1"[i]);
    assert forall i :: 0 <= i < |"abcdefgh"| ==> !IsDigit("abcdefgh"[i]);
  }

  /** Typing more characters around a password that passes the rule never
      makes it fail: the length only grows, and the digit and the lowercase
      letter it had are still there. */
  lemma StrongPasswordGrows(p: string, before: string, after: string)
    ensures StrongPassword(p) ==> StrongPassword(before + p + after)
  {
    if StrongPassword(p) {
      var s := before + p + after;
      var d :| 0 <= d < |p| && IsDigit(p[d]);
      var l :| 0 <= l < |p| && IsLower(p[l]);
      assert s[|before| + d] == p[d];
      assert s[|before| + l] == p[l];
    }
  }

  /** A password with no digit anywhere, whatever its length, never passes. */
  lemma NoDigitNeverStrong(p: string)
    requires forall i :: 0 <= i < |p| ==> !IsDigit(p[i])
    ensures !StrongPassword(p)
  {
  }
}
