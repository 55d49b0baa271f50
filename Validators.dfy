/** The two field validators of the sign-in form: the e-mail pattern
    `^[^\s@]+@[^\s@]+\.[^\s@]+$` and the phone pattern `^[0-9]{10}$`.
    Each is given twice: as the language of the regular expression read literally,
    and as the decision procedure the form uses; a lemma shows they agree. */
module Validators {
  import opened Common

  /** JavaScript's `\s`: the ECMAScript WhiteSpace and LineTerminator code points. */
  predicate IsWs(c: char) {
    c == '\t' || c == '\n' || c == '\U{B}' || c == '\U{C}' || c == '\r' || c == ' ' ||
    c == '\U{A0}' || c == '\U{1680}' || ('\U{2000}' <= c <= '\U{200A}') ||
    c == '\U{2028}' || c == '\U{2029}' || c == '\U{202F}' || c == '\U{205F}' ||
    c == '\U{3000}' || c == '\U{FEFF}'
  }

  /** The character class `[^\s@]`. */
  predicate IsEmailChar(c: char) {
    !IsWs(c) && c != '@'
  }

  predicate AllEmailChars(s: string) {
    forall i :: 0 <= i < |s| ==> IsEmailChar(s[i])
  }

  /** `[^\s@]+`: a non-empty run of e-mail characters. */
  predicate EmailRun(s: string) {
    |s| > 0 && AllEmailChars(s)
  }

  /** `s` matches the e-mail pattern with its `@` at `i` and the chosen `\.` at `j`. */
  ghost predicate EmailSplit(s: string, i: int, j: int) {
    0 <= i < j < |s| &&
    EmailRun(s[..i]) && s[i] == '@' && EmailRun(s[i + 1..j]) && s[j] == '.' && EmailRun(s[j + 1..])
  }

  /** The language of `^[^\s@]+@[^\s@]+\.[^\s@]+$`: some way of splitting `s` fits the pattern. */
  ghost predicate EmailPattern(s: string) {
    exists i, j :: EmailSplit(s, i, j)
  }

  /** The domain part holds a `.` that is neither its first nor its last character. */
  predicate HasInteriorDot(d: string) {
    |d| >= 3 && '.' in d[1..|d| - 1]
  }

  /** `validateEmail`: split at the first `@`; the local part must be a run of
      e-mail characters and the domain a run of e-mail characters with an interior dot. */
  function ValidateEmail(s: string): bool {
    var at := FindChar(s, '@');
    0 < at < |s| && AllEmailChars(s[..at]) && AllEmailChars(s[at + 1..]) && HasInteriorDot(s[at + 1..])
  }

  /** The decision procedure accepts exactly the language of the regular expression. */
  lemma EmailPatternIff(s: string)
    ensures ValidateEmail(s) <==> EmailPattern(s)
  {
    var at := FindChar(s, '@');
    if ValidateEmail(s) {
      var d := s[at + 1..];
      var k :| 1 <= k < |d| - 1 && d[k] == '.';
      var j := at + 1 + k;
      assert s[at + 1..j] == d[..k];
      assert s[j + 1..] == d[k + 1..];
      assert EmailSplit(s, at, j);
    }
    if EmailPattern(s) {
      var i, j :| EmailSplit(s, i, j);
      assert forall k :: 0 <= k < i ==> s[..i][k] == s[k];
      assert at == i;
      var d := s[i + 1..];
      assert d == s[i + 1..j] + [s[j]] + s[j + 1..];
      assert d[j - i - 1] == '.';
      assert '.' in d[1..|d| - 1] by {
        assert d[1..|d| - 1][j - i - 2] == '.';
      }
    }
  }

  /** The structural reading: `L + "@" + D` passes exactly when `L` is a non-empty run
      of e-mail characters and `D` a run of e-mail characters with an interior dot. */
  lemma EmailStructure(l: string, d: string)
    ensures ValidateEmail(l + "@" + d) <==>
            |l| > 0 && AllEmailChars(l) && AllEmailChars(d) && HasInteriorDot(d)
  {
    var s := l + "@" + d;
    var at := FindChar(s, '@');
    if '@' in l {
      var p :| 0 <= p < |l| && l[p] == '@';
      assert s[p] == '@';
      assert at <= p;
      assert s[at + 1..][|l| - at - 1] == '@';
    } else {
      assert forall k :: 0 <= k < |l| ==> s[k] == l[k];
      assert s[|l|] == '@';
      assert at == |l|;
      assert s[..at] == l;
      assert s[at + 1..] == d;
    }
  }

  /** Every accepted address holds exactly one `@` and no whitespace. */
  lemma EmailAcceptedShape(s: string)
    requires ValidateEmail(s)
    ensures multiset(s)['@'] == 1
    ensures forall k :: 0 <= k < |s| ==> !IsWs(s[k])
  {
    var at := FindChar(s, '@');
    var l, d := s[..at], s[at + 1..];
    assert s == l + [s[at]] + d;
    assert '@' !in l by {
      assert forall k :: 0 <= k < |l| ==> IsEmailChar(l[k]);
    }
    assert '@' !in d by {
      assert forall k :: 0 <= k < |d| ==> IsEmailChar(d[k]);
    }
    assert multiset(s) == multiset(l) + multiset{'@'} + multiset(d);
    forall k | 0 <= k < |s|
      ensures !IsWs(s[k])
    {
      if k < at {
        assert s[k] == l[k];
      } else if k > at {
        assert s[k] == d[k - at - 1];
      }
    }
  }

  /** Strings without an `@`, with several, or with any whitespace are rejected. */
  lemma EmailRejects(s: string)
    requires multiset(s)['@'] != 1 || exists k :: 0 <= k < |s| && IsWs(s[k])
    ensures !ValidateEmail(s)
  {
    if ValidateEmail(s) {
      EmailAcceptedShape(s);
    }
  }

  /** The anchored repetition `[0-9]{n}`. */
  function MatchDigits(s: string, n: nat): bool {
    if n == 0 then s == []
    else s != [] && IsDigit(s[0]) && MatchDigits(s[1..], n - 1)
  }

  const PhoneLength: nat := 10

  /** `validatePhone`: the whole string is `[0-9]{10}`. */
  function ValidatePhone(s: string): bool {
    MatchDigits(s, PhoneLength)
  }

  /** `[0-9]{n}` matches exactly the digit strings of length `n`. */
  lemma {:induction false} MatchDigitsIff(s: string, n: nat)
    ensures MatchDigits(s, n) <==> |s| == n && AllDigits(s)
  {
    if n > 0 && s != [] {
      MatchDigitsIff(s[1..], n - 1);
      if AllDigits(s) {
        assert AllDigits(s[1..]) by {
          assert forall k :: 0 <= k < |s| - 1 ==> s[1..][k] == s[k + 1];
        }
      }
      if MatchDigits(s, n) {
        forall k | 0 <= k < |s|
          ensures IsDigit(s[k])
        {
          if k > 0 {
            assert s[k] == s[1..][k - 1];
          }
        }
      }
    }
  }

  /** A phone number passes exactly when it is ten ASCII digits. */
  lemma ValidatePhoneIff(s: string)
    ensures ValidatePhone(s) <==> |s| == 10 && AllDigits(s)
  {
    MatchDigitsIff(s, PhoneLength);
  }
}
