/** The three regular expressions of the contact form (script.js, `validateEmail`,
    `validatePhone`, `validateName`), each as the language it accepts. */
module Validators {
  import opened JsText

  const AT: CodeUnit := '@' as int
  const DOT: CodeUnit := '.' as int

  /** Length window of `validatePhone`'s `{10,20}`. */
  const PhoneMinLength := 10
  const PhoneMaxLength := 20

  /** Length window of `validateName`'s `{2,50}`. */
  const NameMinLength := 2
  const NameMaxLength := 50

  /** The class `[\+\d\s\(\)\-]`: `\d` is the ASCII digits only. */
  predicate IsPhoneChar(c: CodeUnit) {
    c == '+' as int || ('0' as int <= c <= '9' as int) || IsJsWhitespace(c)
    || c == '(' as int || c == ')' as int || c == '-' as int
  }

  /** The class `[a-zA-ZÀ-ÿ\s\-']`: the range À-ÿ is U+00C0 to U+00FF, which also holds
      the signs × (U+00D7) and ÷ (U+00F7). */
  predicate IsNameChar(c: CodeUnit) {
    ('a' as int <= c <= 'z' as int) || ('A' as int <= c <= 'Z' as int) || (0xC0 <= c <= 0xFF)
    || IsJsWhitespace(c) || c == '-' as int || c == '\'' as int
  }

  /** The class `[^\s@]` of the e-mail pattern. */
  predicate IsEmailChar(c: CodeUnit) {
    !IsJsWhitespace(c) && c != AT
  }

  predicate AllEmailChars(s: JsString) {
    forall k | 0 <= k < |s| :: IsEmailChar(s[k])
  }

  /** `s` matches `[cls]*`, checked one code unit at a time. */
  function AllIn(cls: CodeUnit -> bool, s: JsString): (ok: bool)
    ensures ok <==> forall k | 0 <= k < |s| :: cls(s[k])
  {
    if s == [] then true
    else cls(s[0]) && AllIn(cls, s[1..])
  }

  /** `validatePhone`: `/^[\+\d\s\(\)\-]{10,20}$/.test(phone)`. */
  function ValidatePhone(s: JsString): (ok: bool)
    ensures ok <==> PhoneMinLength <= |s| <= PhoneMaxLength && forall k | 0 <= k < |s| :: IsPhoneChar(s[k])
  {
    PhoneMinLength <= |s| <= PhoneMaxLength && AllIn(IsPhoneChar, s)
  }

  /** `validateName`: `/^[a-zA-ZÀ-ÿ\s\-']{2,50}$/.test(name)`. */
  function ValidateName(s: JsString): (ok: bool)
    ensures ok <==> NameMinLength <= |s| <= NameMaxLength && forall k | 0 <= k < |s| :: IsNameChar(s[k])
  {
    NameMinLength <= |s| <= NameMaxLength && AllIn(IsNameChar, s)
  }

  /** `s` matches the e-mail pattern with its `@` at index `i` and the `.` that ends the
      second run at index `j`. */
  ghost predicate PatternAt(s: JsString, i: int, j: int) {
    0 < i && i + 1 < j && j + 1 < |s| && s[i] == AT && s[j] == DOT
    && AllEmailChars(s[..i]) && AllEmailChars(s[i + 1..j]) && AllEmailChars(s[j + 1..])
  }

  /** The language of `/^[^\s@]+@[^\s@]+\.[^\s@]+$/`: three non-empty runs of `[^\s@]`
      separated by `@` and by `.`. */
  ghost predicate EmailPattern(s: JsString) {
    exists i, j :: PatternAt(s, i, j)
  }

  /** `d[k]` is a `.` that is neither the first nor the last code unit of `d`. */
  ghost predicate InnerDotAt(d: JsString, k: int) {
    0 < k < |d| - 1 && d[k] == DOT
  }

  /** A domain part as the e-mail pattern accepts it: no whitespace or `@`, and a `.` that is
      neither its first nor its last code unit. */
  ghost predicate IsDomain(d: JsString) {
    AllEmailChars(d) && exists k :: InnerDotAt(d, k)
  }

  /** `s[i]` is an `@` with only `[^\s@]` before it and a domain part after it. */
  ghost predicate AtSplit(s: JsString, i: int) {
    0 <= i < |s| && s[i] == AT && AllEmailChars(s[..i]) && IsDomain(s[i + 1..])
  }

  /** `s` is a non-empty local part, an `@` and a domain part. */
  ghost predicate LocalAtDomain(s: JsString) {
    exists i :: 0 < i && AtSplit(s, i)
  }

  lemma AllEmailCharsConcat(a: JsString, b: JsString)
    ensures AllEmailChars(a + b) <==> AllEmailChars(a) && AllEmailChars(b)
  {
    if AllEmailChars(a) && AllEmailChars(b) {
      forall k | 0 <= k < |a + b| ensures IsEmailChar((a + b)[k]) {
        if k >= |a| { assert (a + b)[k] == b[k - |a|]; }
      }
    }
    if AllEmailChars(a + b) {
      forall k | 0 <= k < |a| ensures IsEmailChar(a[k]) {
        assert (a + b)[k] == a[k];
      }
      forall k | 0 <= k < |b| ensures IsEmailChar(b[k]) {
        assert (a + b)[|a| + k] == b[k];
      }
    }
  }

  /** Dropping the first code unit moves a split one place to the left. */
  lemma AtSplitShift(s: JsString, i: int)
    requires |s| > 0 && 0 < i
    ensures AtSplit(s, i) <==> IsEmailChar(s[0]) && AtSplit(s[1..], i - 1)
  {
    if i < |s| {
      assert s[..i] == [s[0]] + s[1..][..i - 1];
      assert s[i + 1..] == s[1..][i..];
      AllEmailCharsConcat([s[0]], s[1..][..i - 1]);
    }
  }

  /** States of a left-to-right matcher for the e-mail pattern. */
  datatype EmailState =
    | Start       // nothing read
    | InLocal     // a non-empty local part read
    | AfterAt     // the `@` read
    | InDomain    // a non-empty domain start read, no usable `.` yet
    | AfterDot    // the domain ends in a `.` that is not its first code unit
    | Accept      // such a `.` is followed by at least one code unit
    | Reject

  function EmailStep(q: EmailState, c: CodeUnit): EmailState {
    if q == Reject || IsJsWhitespace(c) then Reject
    else if c == AT then (if q == InLocal then AfterAt else Reject)
    else match q
      case Start => InLocal
      case InLocal => InLocal
      case AfterAt => InDomain
      case InDomain => if c == DOT then AfterDot else InDomain
      case AfterDot => Accept
      case Accept => Accept
      case Reject => Reject
  }

  function Run(q: EmailState, s: JsString): EmailState
    decreases |s|
  {
    if s == [] then q else Run(EmailStep(q, s[0]), s[1..])
  }

  /** `validateEmail`: `/^[^\s@]+@[^\s@]+\.[^\s@]+$/.test(email)`. */
  function ValidateEmail(s: JsString): (ok: bool)
    ensures ok <==> EmailPattern(s)
  {
    EmailLocalAtDomain(s);
    EmailPatternIsLocalAtDomain(s);
    Run(Start, s) == Accept
  }

  lemma {:induction false} RunFromReject(s: JsString)
    ensures Run(Reject, s) == Reject
  {
    if s != [] { RunFromReject(s[1..]); }
  }

  lemma {:induction false} RunFromAccept(s: JsString)
    ensures Run(Accept, s) == Accept <==> AllEmailChars(s)
  {
    if s != [] {
      if IsEmailChar(s[0]) {
        RunFromAccept(s[1..]);
        assert AllEmailChars(s) <==> AllEmailChars(s[1..]);
      } else {
        RunFromReject(s[1..]);
      }
    }
  }

  lemma RunFromAfterDot(s: JsString)
    ensures Run(AfterDot, s) == Accept <==> |s| > 0 && AllEmailChars(s)
  {
    if s != [] {
      if IsEmailChar(s[0]) {
        RunFromAccept(s[1..]);
        assert AllEmailChars(s) <==> AllEmailChars(s[1..]);
      } else {
        RunFromReject(s[1..]);
      }
    }
  }

  lemma {:induction false} RunFromInDomain(s: JsString)
    ensures Run(InDomain, s) == Accept <==> AllEmailChars(s) && exists k | 0 <= k < |s| - 1 :: s[k] == DOT
  {
    if s != [] {
      var t := s[1..];
      assert AllEmailChars(s) <==> IsEmailChar(s[0]) && AllEmailChars(t);
      if !IsEmailChar(s[0]) {
        RunFromReject(t);
      } else if s[0] == DOT {
        RunFromAfterDot(t);
        if |t| > 0 { assert s[0] == DOT && 0 < |s| - 1; }
      } else {
        RunFromInDomain(t);
        if exists k | 0 <= k < |t| - 1 :: t[k] == DOT {
          var k :| 0 <= k < |t| - 1 && t[k] == DOT;
          assert s[k + 1] == DOT;
        }
        if exists k | 0 <= k < |s| - 1 :: s[k] == DOT {
          var k :| 0 <= k < |s| - 1 && s[k] == DOT;
          assert t[k - 1] == DOT;
        }
      }
    }
  }

  lemma RunFromAfterAt(s: JsString)
    ensures Run(AfterAt, s) == Accept <==> IsDomain(s)
  {
    if s != [] {
      var t := s[1..];
      assert AllEmailChars(s) <==> IsEmailChar(s[0]) && AllEmailChars(t);
      if !IsEmailChar(s[0]) {
        RunFromReject(t);
      } else {
        RunFromInDomain(t);
        if exists k | 0 <= k < |t| - 1 :: t[k] == DOT {
          var k :| 0 <= k < |t| - 1 && t[k] == DOT;
          assert InnerDotAt(s, k + 1);
        }
        if exists k :: InnerDotAt(s, k) {
          var k :| InnerDotAt(s, k);
          assert t[k - 1] == DOT;
        }
      }
    }
  }

  lemma {:induction false} RunFromInLocal(s: JsString)
    ensures Run(InLocal, s) == Accept <==> exists i :: AtSplit(s, i)
  {
    if s != [] {
      var t := s[1..];
      forall i | 0 < i ensures AtSplit(s, i) <==> IsEmailChar(s[0]) && AtSplit(t, i - 1) {
        AtSplitShift(s, i);
      }
      if IsJsWhitespace(s[0]) {
        RunFromReject(t);
        assert !AtSplit(s, 0);
      } else if s[0] == AT {
        RunFromAfterAt(t);
        assert s[..0] == [];
        assert AtSplit(s, 0) <==> IsDomain(t);
      } else {
        RunFromInLocal(t);
        assert !AtSplit(s, 0);
        if exists i :: AtSplit(t, i) {
          var i :| AtSplit(t, i);
          assert AtSplit(s, i + 1);
        }
      }
    }
  }

  /** The matcher accepts exactly the local-part `@` domain-part strings. */
  lemma EmailLocalAtDomain(s: JsString)
    ensures Run(Start, s) == Accept <==> LocalAtDomain(s)
  {
    if s != [] {
      var t := s[1..];
      forall i | 0 < i ensures AtSplit(s, i) <==> IsEmailChar(s[0]) && AtSplit(t, i - 1) {
        AtSplitShift(s, i);
      }
      if !IsEmailChar(s[0]) {
        RunFromReject(t);
      } else {
        RunFromInLocal(t);
        if exists i :: AtSplit(t, i) {
          var i :| AtSplit(t, i);
          assert AtSplit(s, i + 1);
        }
      }
    }
  }

  /** A match of the pattern is a split whose domain has an inner `.`, and back. */
  lemma PatternAtIsAtSplit(s: JsString, i: int, j: int)
    requires 0 < i && i + 1 < j && j + 1 < |s|
    ensures PatternAt(s, i, j) <==> AtSplit(s, i) && s[j] == DOT
  {
    var d := s[i + 1..];
    assert d == s[i + 1..j] + [s[j]] + s[j + 1..];
    AllEmailCharsConcat(s[i + 1..j] + [s[j]], s[j + 1..]);
    AllEmailCharsConcat(s[i + 1..j], [s[j]]);
    assert d[j - i - 1] == s[j];
    if s[j] == DOT {
      assert InnerDotAt(d, j - i - 1);
    }
  }

  /** The three-run form of the pattern and the local `@` domain form are the same language. */
  lemma EmailPatternIsLocalAtDomain(s: JsString)
    ensures EmailPattern(s) <==> LocalAtDomain(s)
  {
    if EmailPattern(s) {
      var i, j :| PatternAt(s, i, j);
      PatternAtIsAtSplit(s, i, j);
    }
    if LocalAtDomain(s) {
      var i :| 0 < i && AtSplit(s, i);
      var d := s[i + 1..];
      var k :| InnerDotAt(d, k);
      var j := i + 1 + k;
      assert s[j] == d[k];
      PatternAtIsAtSplit(s, i, j);
    }
  }

  /** An accepted address holds exactly one `@`. */
  lemma EmailHasSingleAt(s: JsString)
    requires ValidateEmail(s)
    ensures exists i | 0 < i < |s| - 1 :: s[i] == AT && forall k | 0 <= k < |s| && k != i :: s[k] != AT
  {
  }

  /** Sample addresses: `a@b.co` passes, `a@b` and `a b@c.com` fail. */
  lemma EmailExamples()
    ensures ValidateEmail(Units("a@b.co"))
    ensures !ValidateEmail(Units("a@b"))
    ensures !ValidateEmail(Units("a b@c.com"))
  {
    var good := Units("a@b.co");
    assert good[1] == AT && good[3] == DOT;
    assert AllEmailChars(good[..1]) && AllEmailChars(good[2..3]) && AllEmailChars(good[4..]);
    assert PatternAt(good, 1, 3);
    var spaced := Units("a b@c.com");
    assert IsJsWhitespace(spaced[1]);
    forall i | 1 < i < |spaced| ensures !AllEmailChars(spaced[..i]) {
      assert spaced[..i][1] == spaced[1];
    }
    EmailPatternIsLocalAtDomain(spaced);
  }

  /** A plain ten-digit number and a formatted international number pass. */
  lemma PhoneAccepted()
    ensures ValidatePhone(Units("0612345678"))
    ensures ValidatePhone(Units("+31 (0)6-1234567"))
  {
  }

  /** Nine and twenty-one code units are outside the window, and a letter is outside the class. */
  lemma PhoneRejected()
    ensures !ValidatePhone(Units("061234567"))
    ensures !ValidatePhone(Units("+31 6 1234 5678 90123"))
    ensures !ValidatePhone(Units("06-1234567x"))
  {
    assert !IsPhoneChar(Units("06-1234567x")[10]);
  }

  /** Accented names pass; one letter, digits and 51 code units do not. */
  lemma NameExamples()
    ensures ValidateName(Units("José O'Brien-Müller"))
    ensures !ValidateName(Units("J"))
    ensures !ValidateName(Units("R2D2"))
    ensures !ValidateName(Units("Abcdefghij Abcdefghij Abcdefghij Abcdefghij Abcdefg"))
  {
    assert !IsNameChar(Units("R2D2")[1]);
  }
}
