/** The contact form's email shape check, the regular expression
    `^[^\s@]+@[^\s@]+\.[^\s@]+$`: a simplified `local@domain.tld` shape,
    not the address grammar of RFC 5322. */
module EmailPattern {

  /** JavaScript's `\s`: the ECMAScript WhiteSpace and LineTerminator code points. */
  predicate IsWhitespace(c: char)
  {
    var n := c as int;
    (0x09 <= n <= 0x0D) || n == 0x20 || n == 0xA0 || n == 0x1680 ||
    (0x2000 <= n <= 0x200A) || n == 0x2028 || n == 0x2029 || n == 0x202F ||
    n == 0x205F || n == 0x3000 || n == 0xFEFF
  }

  /** The character class `[^\s@]`. */
  predicate EmailChar(c: char)
  {
    !IsWhitespace(c) && c != '@'
  }

  /** Every character of `s` is in `[^\s@]`. */
  predicate AllEmailChars(s: string)
  {
    forall i :: 0 <= i < |s| ==> EmailChar(s[i])
  }

  /** A `.` with at least one character on each side. */
  predicate HasInnerDot(r: string)
  {
    exists i :: 1 <= i < |r| - 1 && r[i] == '.'
  }

  /** Index of the first `@` of `s`, or `|s|` when there is none. */
  function FirstAt(s: string): (k: nat)
    ensures k <= |s|
    ensures k < |s| ==> s[k] == '@'
    ensures forall i :: 0 <= i < k ==> s[i] != '@'
  {
    if s == [] then 0
    else if s[0] == '@' then 0
    else 1 + FirstAt(s[1..])
  }

  /** `emailRegex.test(s)`: split at the first `@` (the leading `[^\s@]+` cannot
      run past it), then check the local part and the domain. The result is
      the `L@R` shape: `L` non-empty and in `[^\s@]*`, `R` in `[^\s@]*` with a
      `.` that has a character on each side. */
  function IsValidEmail(s: string): (ok: bool)
    ensures ok <==> exists k :: 0 < k < |s| && s[k] == '@' && AllEmailChars(s[..k])
                               && AllEmailChars(s[k + 1..]) && HasInnerDot(s[k + 1..])
  {
    var k := FirstAt(s);
    if 0 < k < |s| && AllEmailChars(s[..k]) && AllEmailChars(s[k + 1..]) && HasInnerDot(s[k + 1..])
    then true
    else
      assert forall k' :: 0 < k' < |s| && s[k'] == '@' && AllEmailChars(s[..k']) ==> k' == k by {
        forall k' | 0 < k' < |s| && s[k'] == '@' && AllEmailChars(s[..k'])
          ensures k' == k
        {
          forall i | 0 <= i < k' ensures s[i] != '@' {
            assert EmailChar(s[..k'][i]);
          }
        }
      }
      false
  }

  /** The regular expression read literally: one or more `[^\s@]`, an `@`, one
      or more `[^\s@]`, a `.`, one or more `[^\s@]`, and nothing else. */
  ghost predicate MatchesEmailRegex(s: string)
  {
    exists i, j :: 0 < i && i + 1 < j && j + 1 < |s| && s[i] == '@' && s[j] == '.'
                   && AllEmailChars(s[..i]) && AllEmailChars(s[i + 1..j]) && AllEmailChars(s[j + 1..])
  }

  /** Every string the `L@R` check accepts matches the regular expression. */
  lemma ValidEmailMatchesRegex(s: string)
    requires IsValidEmail(s)
    ensures MatchesEmailRegex(s)
  {
    var k :| 0 < k < |s| && s[k] == '@' && AllEmailChars(s[..k])
             && AllEmailChars(s[k + 1..]) && HasInnerDot(s[k + 1..]);
    var r := s[k + 1..];
    var d :| 1 <= d < |r| - 1 && r[d] == '.';
    var j := k + 1 + d;
    var domain, tld := s[k + 1..j], s[j + 1..];
    assert domain == r[..d] && tld == r[d + 1..];
    assert AllEmailChars(domain) by {
      forall t | 0 <= t < |domain| ensures EmailChar(domain[t]) {
        assert domain[t] == r[t];
      }
    }
    assert AllEmailChars(tld) by {
      forall t | 0 <= t < |tld| ensures EmailChar(tld[t]) {
        assert tld[t] == r[d + 1 + t];
      }
    }
    assert s[j] == '.';
  }

  /** Every string the regular expression matches passes the `L@R` check. */
  lemma RegexMatchIsValidEmail(s: string)
    requires MatchesEmailRegex(s)
    ensures IsValidEmail(s)
  {
    var i, j :| 0 < i && i + 1 < j && j + 1 < |s| && s[i] == '@' && s[j] == '.'
                && AllEmailChars(s[..i]) && AllEmailChars(s[i + 1..j]) && AllEmailChars(s[j + 1..]);
    var r, domain, tld := s[i + 1..], s[i + 1..j], s[j + 1..];
    assert r[j - i - 1] == '.';
    assert HasInnerDot(r);
    assert AllEmailChars(r) by {
      forall t | 0 <= t < |r| ensures EmailChar(r[t]) {
        if t < j - i - 1 {
          assert r[t] == domain[t];
        } else if t > j - i - 1 {
          assert r[t] == tld[t - (j - i)];
        }
      }
    }
  }

  /** The `L@R` check accepts exactly the strings the regular expression matches. */
  lemma EmailCheckIsRegex(s: string)
    ensures IsValidEmail(s) <==> MatchesEmailRegex(s)
  {
    if IsValidEmail(s) {
      ValidEmailMatchesRegex(s);
    }
    if MatchesEmailRegex(s) {
      RegexMatchIsValidEmail(s);
    }
  }

  /** A shaped address passes. */
  lemma ShapedAddressPasses()
    ensures IsValidEmail("a@b.com")
  {
    var s := "a@b.com";
    assert s[..1] == "a" && s[2..] == "b.com" && s[2..][1] == '.';
  }

  /** A string without `@` fails. */
  lemma NoAtSignFails()
    ensures !IsValidEmail("not-an-email")
  {
    var s := "not-an-email";
    assert '@' !in s;
    assert forall k :: 0 <= k < |s| ==> s[k] != '@';
  }

  /** An `@` with nothing before it fails. */
  lemma MissingLocalPartFails()
    ensures !IsValidEmail("@b.com")
  {
    var s := "@b.com";
    assert '@' !in s[1..];
    assert forall k :: 0 < k < |s| ==> s[k] == s[1..][k - 1];
    assert forall k :: 0 < k < |s| ==> s[k] != '@';
  }

  /** A domain whose only `.` comes first fails. */
  lemma DotRightAfterAtFails()
    ensures !IsValidEmail("a@.com")
  {
    var s := "a@.com";
    var r := s[2..];
    assert r == ".com" && r[1] == 'c' && r[2] == 'o';
    assert !HasInnerDot(r);
    assert '@' !in r;
    assert forall k :: 2 <= k < |s| ==> s[k] == r[k - 2];
    assert forall k :: 0 < k < |s| && s[k] == '@' ==> k == 1;
  }

  /** A space in the local part fails. */
  lemma SpaceInLocalPartFails()
    ensures !IsValidEmail("a b@c.com")
  {
    var s := "a b@c.com";
    assert s[..3] == "a b" && !EmailChar(s[..3][1]);
    assert !AllEmailChars(s[..3]);
    assert '@' !in s[4..];
    assert forall k :: 4 <= k < |s| ==> s[k] == s[4..][k - 4];
    assert s[1] != '@' && s[2] != '@';
    assert forall k :: 0 < k < |s| && s[k] == '@' ==> k == 3;
  }
}
