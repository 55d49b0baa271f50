/** The phone field's input normaliser, `value.replace(/[^0-9]/g, '').slice(0, 10)`:
    drop every character that is not an ASCII digit, then keep at most ten. */
module PhoneInput {
  import opened Common
  import opened Validators

  /** `value.replace(/[^0-9]/g, '')`: the digits of `v`, in order. */
  function DigitsOf(v: string): string {
    if v == [] then []
    else (if IsDigit(v[0]) then [v[0]] else []) + DigitsOf(v[1..])
  }

  /** `s.slice(0, n)`: the first `n` characters, or all of `s` when it is shorter. */
  function Take(s: string, n: nat): string {
    if |s| <= n then s else s[..n]
  }

  /** The value `handlePhoneChange` stores for the raw input `v`. */
  function NormalizePhone(v: string): string {
    Take(DigitsOf(v), PhoneLength)
  }

  /** Filtering keeps only digits. */
  lemma {:induction false} DigitsOfAllDigits(v: string)
    ensures AllDigits(DigitsOf(v))
  {
    if v != [] {
      DigitsOfAllDigits(v[1..]);
    }
  }

  /** Filtering distributes over concatenation. */
  lemma {:induction false} DigitsOfAppend(a: string, b: string)
    ensures DigitsOf(a + b) == DigitsOf(a) + DigitsOf(b)
  {
    if a != [] {
      assert (a + b)[1..] == a[1..] + b;
      DigitsOfAppend(a[1..], b);
    } else {
      assert a + b == b;
    }
  }

  /** A string of digits is left as it is. */
  lemma {:induction false} DigitsOfFixesDigits(v: string)
    requires AllDigits(v)
    ensures DigitsOf(v) == v
  {
    if v != [] {
      DigitsOfFixesDigits(v[1..]);
    }
  }

  /** A string without digits is erased. */
  lemma {:induction false} DigitsOfErasesNonDigits(v: string)
    requires forall k :: 0 <= k < |v| ==> !IsDigit(v[k])
    ensures DigitsOf(v) == []
  {
    if v != [] {
      DigitsOfErasesNonDigits(v[1..]);
    }
  }

  /** The stored phone holds only digits, at most ten of them, and it is the first
      `min(10, #digits)` digits of the input in order. */
  lemma NormalizePhoneShape(v: string)
    ensures AllDigits(NormalizePhone(v))
    ensures |NormalizePhone(v)| == if |DigitsOf(v)| < 10 then |DigitsOf(v)| else 10
    ensures NormalizePhone(v) == DigitsOf(v)[..|NormalizePhone(v)|]
  {
    DigitsOfAllDigits(v);
  }

  /** Normalising a normalised phone changes nothing. */
  lemma NormalizePhoneIdempotent(v: string)
    ensures NormalizePhone(NormalizePhone(v)) == NormalizePhone(v)
  {
    NormalizePhoneShape(v);
    DigitsOfFixesDigits(NormalizePhone(v));
  }

  /** A valid phone number typed in is stored unchanged. */
  lemma NormalizeKeepsValidPhone(p: string)
    requires ValidatePhone(p)
    ensures NormalizePhone(p) == p
  {
    ValidatePhoneIff(p);
    DigitsOfFixesDigits(p);
  }

  /** The stored phone is valid exactly when the input holds at least ten digits,
      and exactly when its length is ten (the condition the handler tests). */
  lemma NormalizePhoneValidIff(v: string)
    ensures ValidatePhone(NormalizePhone(v)) <==> |DigitsOf(v)| >= 10
    ensures ValidatePhone(NormalizePhone(v)) <==> |NormalizePhone(v)| == 10
  {
    NormalizePhoneShape(v);
    ValidatePhoneIff(NormalizePhone(v));
  }

  /** Typing more never changes the digits already kept: the stored phone for `v`
      is a prefix of the stored phone for `v + w`. */
  lemma NormalizePhonePrefix(v: string, w: string)
    ensures StartsWith(NormalizePhone(v + w), NormalizePhone(v))
  {
    DigitsOfAppend(v, w);
    var d, e := DigitsOf(v), DigitsOf(w);
    assert (d + e)[..|d|] == d;
  }
}
