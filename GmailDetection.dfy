/** The simulated "Continue with Gmail" flow: choosing a previously seen Gmail
    address among the values the browser offers (`detectDeviceEmail`), and the
    address the fallback fabricates from the user agent and the clock
    (`handleGoogleSignInFallback`). Browser lookups arrive as parameters. */
module GmailDetection {
  import opened Common
  import opened Validators

  /** The marker every detected or fabricated address carries. */
  const GmailSuffix: string := "@gmail.com"

  /** `value.includes('@gmail.com')`. */
  predicate IsGmail(s: string) {
    Contains(s, GmailSuffix)
  }

  // ---------------------------------------------------------------------------
  // Date.now().toString().slice(-4)
  // ---------------------------------------------------------------------------

  function DigitChar(d: nat): (c: char)
    requires d < 10
    ensures IsDigit(c) && c as int - '0' as int == d
  {
    ('0' as int + d) as char
  }

  /** `n.toString()` for a non-negative integer: its decimal digits, no leading zero. */
  function DecimalString(n: nat): string
  {
    if n < 10 then [DigitChar(n)] else DecimalString(n / 10) + [DigitChar(n % 10)]
  }

  /** The number a string of decimal digits denotes. */
  function DecimalValue(s: string): nat
    requires AllDigits(s)
  {
    if s == [] then 0
    else 10 * DecimalValue(s[..|s| - 1]) + (s[|s| - 1] as int - '0' as int)
  }

  /** `s.slice(-n)` for `n > 0`: the last `n` characters, or all of `s` when it is shorter.
      `LastN(s, 0)` is the empty string, a case of the model only (JavaScript's `slice(-0)`
      is the whole string); the component always takes the last four characters. */
  function LastN(s: string, n: nat): string {
    if |s| <= n then s else s[|s| - n..]
  }

  function Pow10(k: nat): (p: nat)
    ensures p >= 1
  {
    if k == 0 then 1 else 10 * Pow10(k - 1)
  }

  /** `toString` produces a non-empty digit string that reads back as the number. */
  lemma {:induction false} DecimalRoundTrip(n: nat)
    ensures |DecimalString(n)| >= 1 && AllDigits(DecimalString(n))
    ensures DecimalValue(DecimalString(n)) == n
    ensures n >= 10 ==> |DecimalString(n)| == 1 + |DecimalString(n / 10)|
  {
    if n >= 10 {
      DecimalRoundTrip(n / 10);
      var s := DecimalString(n);
      assert s[..|s| - 1] == DecimalString(n / 10);
    }
  }

  lemma LastNSnoc(p: string, c: char, k: nat)
    requires k >= 1
    ensures LastN(p + [c], k) == LastN(p, k - 1) + [c]
  {
    if |p| + 1 > k {
      assert (p + [c])[|p| + 1 - k..] == p[|p| - (k - 1)..] + [c];
    }
  }

  lemma MulAtLeast(x: int, m: nat)
    requires x >= 1
    ensures x * m >= m
  {
    assert x * m == (x - 1) * m + m;
  }

  /** `n % m` is `b` whenever `n` is `a * m + b` with `0 <= b < m`. */
  lemma ModUnique(n: nat, m: nat, a: nat, b: nat)
    requires m > 0 && n == a * m + b && b < m
    ensures n % m == b
  {
    var q, r := n / m, n % m;
    assert n == q * m + r;
    assert (a - q) * m == r - b;
    if a > q {
      MulAtLeast(a - q, m);
    } else if q > a {
      MulAtLeast(q - a, m);
    }
  }

  lemma DigitShift(n: nat, k: nat)
    requires k >= 1
    ensures n % Pow10(k) == 10 * ((n / 10) % Pow10(k - 1)) + n % 10
  {
    var q, r := n / 10, n % 10;
    var m := Pow10(k - 1);
    var a, b := q / m, q % m;
    assert n == 10 * q + r;
    assert q == a * m + b;
    assert 10 * q == a * (10 * m) + 10 * b;
    assert 10 * b + r < 10 * m;
    ModUnique(n, 10 * m, a, 10 * b + r);
  }

  lemma DecimalValueSnoc(x: string, c: char)
    requires AllDigits(x) && IsDigit(c)
    ensures AllDigits(x + [c])
    ensures DecimalValue(x + [c]) == 10 * DecimalValue(x) + (c as int - '0' as int)
  {
    assert (x + [c])[..|x|] == x;
  }

  /** The last `k` characters of `n.toString()` read back as `n % 10^k`. */
  lemma {:induction false} LastDigitsValue(n: nat, k: nat)
    ensures AllDigits(LastN(DecimalString(n), k))
    ensures DecimalValue(LastN(DecimalString(n), k)) == n % Pow10(k)
  {
    if k == 0 || n < 10 {
      LastDigitsBase(n, k);
    } else {
      LastDigitsValue(n / 10, k - 1);
      LastDigitsStep(n, k);
    }
  }

  lemma LastDigitsBase(n: nat, k: nat)
    requires k == 0 || n < 10
    ensures AllDigits(LastN(DecimalString(n), k))
    ensures DecimalValue(LastN(DecimalString(n), k)) == n % Pow10(k)
  {
    DecimalRoundTrip(n);
    var s := DecimalString(n);
    if k == 0 {
      assert LastN(s, k) == [];
      ModUnique(n, 1, n, 0);
    } else {
      assert |s| == 1;
      assert LastN(s, k) == s;
      assert Pow10(k) >= 10 by {
        assert Pow10(k) == 10 * Pow10(k - 1);
      }
      ModUnique(n, Pow10(k), 0, n);
    }
  }

  lemma LastDigitsStep(n: nat, k: nat)
    requires n >= 10 && k >= 1
    requires AllDigits(LastN(DecimalString(n / 10), k - 1))
    requires DecimalValue(LastN(DecimalString(n / 10), k - 1)) == (n / 10) % Pow10(k - 1)
    ensures AllDigits(LastN(DecimalString(n), k))
    ensures DecimalValue(LastN(DecimalString(n), k)) == n % Pow10(k)
  {
    var c := DigitChar(n % 10);
    var x := LastN(DecimalString(n / 10), k - 1);
    assert DecimalString(n) == DecimalString(n / 10) + [c];
    LastNSnoc(DecimalString(n / 10), c, k);
    DecimalValueSnoc(x, c);
    DigitShift(n, k);
  }

  /** The timestamp tag of a fabricated address: one to four digits (four once the
      clock reads 1000 or more) denoting the clock value modulo 10000. */
  lemma TimestampTag(now: nat)
    ensures var t := LastN(DecimalString(now), 4);
      1 <= |t| <= 4 && AllDigits(t) && DecimalValue(t) == now % 10000 &&
      (now >= 1000 ==> |t| == 4)
  {
    LastDigitsValue(now, 4);
    DecimalRoundTrip(now);
    if now >= 1000 {
      DecimalRoundTrip(now / 10);
      DecimalRoundTrip(now / 100);
      DecimalRoundTrip(now / 1000);
      assert now / 10 / 10 == now / 100;
      assert now / 100 / 10 == now / 1000;
    }
  }

  // ---------------------------------------------------------------------------
  // handleGoogleSignInFallback's address
  // ---------------------------------------------------------------------------

  /** The local-part prefix chosen from the user agent. */
  function DevicePrefix(userAgent: string): string {
    if Contains(userAgent, "Android") then "android.user"
    else if Contains(userAgent, "iPhone") || Contains(userAgent, "iPad") then "iphone.user"
    else "mobile.user"
  }

  /** `${prefix}${timestamp}@gmail.com`. */
  function FabricatedEmail(userAgent: string, now: nat): string {
    DevicePrefix(userAgent) + LastN(DecimalString(now), 4) + GmailSuffix
  }

  /** The address the fallback settles on, given the `zhevents_last_gmail` slot. */
  function FallbackEmail(stored: Option<string>, userAgent: string, now: nat): string {
    if stored.Some? && IsGmail(stored.value) then stored.value
    else FabricatedEmail(userAgent, now)
  }

  /** The fallback's address always carries `@gmail.com` (so it is never empty). */
  lemma FallbackEmailIsGmail(stored: Option<string>, userAgent: string, now: nat)
    ensures IsGmail(FallbackEmail(stored, userAgent, now))
    ensures FallbackEmail(stored, userAgent, now) != []
  {
    var e := FallbackEmail(stored, userAgent, now);
    if !(stored.Some? && IsGmail(stored.value)) {
      ContainsSuffix(DevicePrefix(userAgent) + LastN(DecimalString(now), 4), GmailSuffix);
    }
    ContainsIff(e, GmailSuffix);
  }

  lemma DevicePrefixChars(userAgent: string)
    ensures AllEmailChars(DevicePrefix(userAgent))
  {
    var p := DevicePrefix(userAgent);
    forall k | 0 <= k < |p|
      ensures IsEmailChar(p[k])
    {
      assert p[k] in "abdehilmnoprsu.";
    }
  }

  lemma DigitsAreEmailChars(t: string)
    requires AllDigits(t)
    ensures AllEmailChars(t)
  {
    forall k | 0 <= k < |t|
      ensures IsEmailChar(t[k])
    {
      assert IsDigit(t[k]);
    }
  }

  lemma AllEmailCharsAppend(a: string, b: string)
    requires AllEmailChars(a) && AllEmailChars(b)
    ensures AllEmailChars(a + b)
  {
    forall k | 0 <= k < |a + b|
      ensures IsEmailChar((a + b)[k])
    {
      if k >= |a| {
        assert (a + b)[k] == b[k - |a|];
      }
    }
  }

  /** A fabricated address passes the form's own e-mail validator. */
  lemma FabricatedEmailValid(userAgent: string, now: nat)
    ensures ValidateEmail(FabricatedEmail(userAgent, now))
  {
    var p := DevicePrefix(userAgent);
    var t := LastN(DecimalString(now), 4);
    LastDigitsValue(now, 4);
    DevicePrefixChars(userAgent);
    DigitsAreEmailChars(t);
    AllEmailCharsAppend(p, t);
    var d := "gmail.com";
    assert AllEmailChars(d) by {
      forall k | 0 <= k < |d|
        ensures IsEmailChar(d[k])
      {
        assert d[k] in "gmail.co";
      }
    }
    assert HasInteriorDot(d) by {
      assert d[1..|d| - 1][4] == '.';
    }
    assert FabricatedEmail(userAgent, now) == (p + t) + "@" + d;
    EmailStructure(p + t, d);
  }

  /** Once the fallback has stored its address, every later fallback, on any device
      and at any time, settles on that same address. */
  lemma FallbackStable(stored: Option<string>, ua1: string, now1: nat, ua2: string, now2: nat)
    ensures var e := FallbackEmail(stored, ua1, now1);
      FallbackEmail(Some(e), ua2, now2) == e
  {
    FallbackEmailIsGmail(stored, ua1, now1);
  }

  // ---------------------------------------------------------------------------
  // detectDeviceEmail's selection
  // ---------------------------------------------------------------------------

  /** The first candidate that carries `@gmail.com`, if any. */
  function FirstGmail(cs: seq<string>): Option<string> {
    if cs == [] then None
    else if IsGmail(cs[0]) then Some(cs[0])
    else FirstGmail(cs[1..])
  }

  /** There is no Gmail candidate exactly when the selection finds none. */
  lemma {:induction false} FirstGmailNone(cs: seq<string>)
    ensures FirstGmail(cs) == None <==> forall i :: 0 <= i < |cs| ==> !IsGmail(cs[i])
  {
    if cs != [] {
      FirstGmailNone(cs[1..]);
      assert forall i :: 1 <= i < |cs| ==> cs[i] == cs[1..][i - 1];
    }
  }

  /** The selection returns the candidate at `i` when it is the first Gmail one. */
  lemma {:induction false} FirstGmailAt(cs: seq<string>, i: nat)
    requires i < |cs| && IsGmail(cs[i])
    requires forall j :: 0 <= j < i ==> !IsGmail(cs[j])
    ensures FirstGmail(cs) == Some(cs[i])
  {
    if i > 0 {
      assert forall j :: 0 <= j < i - 1 ==> cs[1..][j] == cs[j + 1];
      FirstGmailAt(cs[1..], i - 1);
    }
  }

  /** Selecting from a concatenation looks at the second part only when the first has no Gmail. */
  lemma {:induction false} FirstGmailAppend(a: seq<string>, b: seq<string>)
    ensures FirstGmail(a + b) == if FirstGmail(a).Some? then FirstGmail(a) else FirstGmail(b)
  {
    if a == [] {
      assert a + b == b;
    } else {
      assert (a + b)[1..] == a[1..] + b;
      FirstGmailAppend(a[1..], b);
    }
  }

  function OptionSeq(o: Option<string>): seq<string> {
    if o.Some? then [o.value] else []
  }

  /** The sources `detectDeviceEmail` consults, in its order: the stored address, the
      credential manager's id, the values of the page's e-mail inputs, session storage. */
  function Candidates(lastGmail: Option<string>, credentialId: Option<string>,
                      inputValues: seq<string>, sessionEmail: Option<string>): seq<string>
  {
    OptionSeq(lastGmail) + OptionSeq(credentialId) + inputValues + OptionSeq(sessionEmail)
  }

  /** `detectDeviceEmail`: return the first source whose value carries `@gmail.com`. */
  method DetectDeviceEmail(lastGmail: Option<string>, credentialId: Option<string>,
                           inputValues: seq<string>, sessionEmail: Option<string>)
    returns (r: Option<string>)
    ensures r == FirstGmail(Candidates(lastGmail, credentialId, inputValues, sessionEmail))
    ensures r.Some? ==> IsGmail(r.value)
  {
    var front := OptionSeq(lastGmail) + OptionSeq(credentialId);
    FirstGmailAppend(front + inputValues, OptionSeq(sessionEmail));
    FirstGmailAppend(front, inputValues);
    FirstGmailAppend(OptionSeq(lastGmail), OptionSeq(credentialId));
    if lastGmail.Some? && IsGmail(lastGmail.value) {
      return lastGmail;
    }
    if credentialId.Some? && IsGmail(credentialId.value) {
      return credentialId;
    }
    var i := 0;
    while i < |inputValues|
      invariant 0 <= i <= |inputValues|
      invariant forall j :: 0 <= j < i ==> !IsGmail(inputValues[j])
    {
      if IsGmail(inputValues[i]) {
        FirstGmailAt(inputValues, i);
        return Some(inputValues[i]);
      }
      i := i + 1;
    }
    FirstGmailNone(inputValues);
    if sessionEmail.Some? && IsGmail(sessionEmail.value) {
      return sessionEmail;
    }
    return None;
  }
}
