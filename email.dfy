/** Email field validation of the waitlist form: the whitespace class that
    `String.prototype.trim` and the regular-expression escape `\s` share, the
    trimming of the field value, the pattern `^[^\s@]+@[^\s@]+\.[^\s@]+$`
    behind `validateEmail`, and the three-way decision that the blur and
    submit handlers take on the trimmed value. */
module Email {

  /** ECMAScript WhiteSpace and LineTerminator: tab, line feed, vertical tab,
      form feed, carriage return, the space separators of Unicode category Zs,
      the byte-order mark, and the line and paragraph separators. */
  predicate IsSpace(c: char) {
    || c == '\t' || c == '\n' || c == '\U{B}' || c == '\U{C}' || c == '\r'
    || c == ' ' || c == '\U{A0}' || c == '\U{1680}'
    || ('\U{2000}' <= c && c <= '\U{200A}')
    || c == '\U{2028}' || c == '\U{2029}' || c == '\U{202F}' || c == '\U{205F}'
    || c == '\U{3000}' || c == '\U{FEFF}'
  }

  predicate AllSpace(s: string) {
    forall k | 0 <= k < |s| :: IsSpace(s[k])
  }

  predicate NoSpace(s: string) {
    forall k | 0 <= k < |s| :: !IsSpace(s[k])
  }

  // ---------------------------------------------------------------------------
  // trim()
  // ---------------------------------------------------------------------------

  /** The number of whitespace characters at the front of `s`. */
  function LeadingSpace(s: string): (n: nat)
    ensures n <= |s|
  {
    if |s| > 0 && IsSpace(s[0]) then 1 + LeadingSpace(s[1..]) else 0
  }

  /** The number of whitespace characters at the back of `s`. */
  function TrailingSpace(s: string): (n: nat)
    ensures n <= |s|
  {
    if |s| > 0 && IsSpace(s[|s| - 1]) then 1 + TrailingSpace(s[..|s| - 1]) else 0
  }

  /** `String.prototype.trim`: `s` without its leading and trailing
      whitespace. */
  function Trim(s: string): (r: string)
    ensures |r| <= |s|
  {
    var rest := s[LeadingSpace(s)..];
    rest[..|rest| - TrailingSpace(rest)]
  }

  /** LeadingSpace counts exactly the whitespace prefix: all of it is
      whitespace and the character after it is not. */
  lemma {:induction false} LeadingSpaceIsMaximal(s: string)
    ensures AllSpace(s[..LeadingSpace(s)])
    ensures LeadingSpace(s) < |s| ==> !IsSpace(s[LeadingSpace(s)])
  {
    if |s| > 0 && IsSpace(s[0]) {
      var n := LeadingSpace(s);
      LeadingSpaceIsMaximal(s[1..]);
      assert s[..n] == [s[0]] + s[1..][..n - 1];
    }
  }

  /** TrailingSpace counts exactly the whitespace suffix. */
  lemma {:induction false} TrailingSpaceIsMaximal(s: string)
    ensures AllSpace(s[|s| - TrailingSpace(s)..])
    ensures TrailingSpace(s) < |s| ==> !IsSpace(s[|s| - 1 - TrailingSpace(s)])
  {
    if |s| > 0 && IsSpace(s[|s| - 1]) {
      var front := s[..|s| - 1];
      var n := TrailingSpace(s);
      TrailingSpaceIsMaximal(front);
      assert s[|s| - n..] == front[|front| - (n - 1)..] + [s[|s| - 1]];
    }
  }

  /** The result of trim() is a slice of `s`, everything cut off on either
      side is whitespace, and the result neither starts nor ends with
      whitespace. */
  lemma TrimShape(s: string)
    ensures exists i | 0 <= i <= |s| - |Trim(s)| ::
      Trim(s) == s[i..i + |Trim(s)|] && AllSpace(s[..i]) && AllSpace(s[i + |Trim(s)|..])
    ensures Trim(s) == [] || (!IsSpace(Trim(s)[0]) && !IsSpace(Trim(s)[|Trim(s)| - 1]))
  {
    var i := LeadingSpace(s);
    var rest := s[i..];
    var j := |rest| - TrailingSpace(rest);
    var r := Trim(s);
    LeadingSpaceIsMaximal(s);
    TrailingSpaceIsMaximal(rest);
    assert r == rest[..j] == s[i..i + j];
    assert rest[j..] == s[i + j..];
    assert r == s[i..i + |r|] && AllSpace(s[..i]) && AllSpace(s[i + |r|..]);
    if j > 0 {
      assert r[0] == rest[0];
      assert r[j - 1] == rest[|rest| - 1 - TrailingSpace(rest)];
    }
  }

  /** trim() yields the empty string exactly when `s` is all whitespace. */
  lemma TrimEmptyIff(s: string)
    ensures Trim(s) == [] <==> AllSpace(s)
  {
    var r := Trim(s);
    TrimShape(s);
    if r == [] {
      var i :| 0 <= i <= |s| && r == s[i..i] && AllSpace(s[..i]) && AllSpace(s[i..]);
      forall k | 0 <= k < |s| ensures IsSpace(s[k]) {
        if k < i { assert s[..i][k] == s[k]; } else { assert s[i..][k - i] == s[k]; }
      }
    }
  }

  /** A string with no whitespace at either end is left unchanged by trim(). */
  lemma TrimUnchanged(s: string)
    requires s == [] || (!IsSpace(s[0]) && !IsSpace(s[|s| - 1]))
    ensures Trim(s) == s
  {
    assert LeadingSpace(s) == 0;
    assert s[0..] == s;
  }

  /** trim() is idempotent. */
  lemma TrimIdempotent(s: string)
    ensures Trim(Trim(s)) == Trim(s)
  {
    TrimShape(s);
    TrimUnchanged(Trim(s));
  }

  // ---------------------------------------------------------------------------
  // validateEmail(): the pattern ^[^\s@]+@[^\s@]+\.[^\s@]+$
  // ---------------------------------------------------------------------------

  /** `[^\s@]`: a character that is neither whitespace nor '@'. */
  predicate IsRunChar(c: char) {
    !IsSpace(c) && c != '@'
  }

  /** `[^\s@]+`: a non-empty run of such characters. */
  predicate IsRun(s: string) {
    |s| > 0 && forall k | 0 <= k < |s| :: IsRunChar(s[k])
  }

  /** `validateEmail`: the whole of `s` is in the language of the anchored
      pattern, that is, `s` splits as run, '@', run, '.', run. The middle run
      may itself hold dots, so `dot` is any one of them. */
  predicate ValidateEmail(s: string): (accepted: bool)
    ensures accepted ==> 5 <= |s| && '@' in s && '.' in s
  {
    exists at, dot | 0 <= at < dot < |s| ::
      && IsRun(s[..at]) && s[at] == '@'
      && IsRun(s[at + 1..dot]) && s[dot] == '.'
      && IsRun(s[dot + 1..])
  }

  /** The domain part holds a '.' that is neither its first nor its last
      character. */
  predicate DotInside(domain: string) {
    exists k | 0 < k < |domain| - 1 :: domain[k] == '.'
  }

  /** The strings the pattern accepts, described without runs: no whitespace,
      exactly one '@' (at `at`, none before it and none after it), a non-empty
      local part before it, and a domain part after it with an inner '.'. */
  predicate WellFormed(s: string) {
    && NoSpace(s)
    && exists at | 0 < at < |s| ::
         && s[at] == '@' && '@' !in s[..at] && '@' !in s[at + 1..]
         && DotInside(s[at + 1..])
  }

  lemma RunHasNoAt(s: string)
    requires IsRun(s)
    ensures '@' !in s && NoSpace(s)
  {
    forall k | 0 <= k < |s| ensures s[k] != '@' && !IsSpace(s[k]) {
      assert IsRunChar(s[k]);
    }
  }

  lemma SliceIsRun(s: string, lo: int, hi: int)
    requires 0 <= lo < hi <= |s|
    requires NoSpace(s) && '@' !in s[lo..hi]
    ensures IsRun(s[lo..hi])
  {
    forall k | 0 <= k < hi - lo ensures IsRunChar(s[lo..hi][k]) {
      assert s[lo..hi][k] == s[lo + k];
    }
  }

  lemma ValidateEmailImpliesWellFormed(s: string)
    requires ValidateEmail(s)
    ensures WellFormed(s)
  {
    var at, dot :| 0 <= at < dot < |s|
      && IsRun(s[..at]) && s[at] == '@'
      && IsRun(s[at + 1..dot]) && s[dot] == '.'
      && IsRun(s[dot + 1..]);
    RunHasNoAt(s[..at]);
    RunHasNoAt(s[at + 1..dot]);
    RunHasNoAt(s[dot + 1..]);
    forall k | 0 <= k < |s| ensures !IsSpace(s[k]) {
      if k < at {
        assert s[..at][k] == s[k];
      } else if at < k < dot {
        assert s[at + 1..dot][k - at - 1] == s[k];
      } else if dot < k {
        assert s[dot + 1..][k - dot - 1] == s[k];
      }
    }
    var domain := s[at + 1..];
    assert domain == s[at + 1..dot] + [s[dot]] + s[dot + 1..];
    assert domain[dot - at - 1] == '.';
  }

  /** A split point pair witnesses acceptance by the pattern. */
  lemma AcceptAt(s: string, at: int, dot: int)
    requires 0 <= at < dot < |s|
    requires IsRun(s[..at]) && s[at] == '@'
    requires IsRun(s[at + 1..dot]) && s[dot] == '.'
    requires IsRun(s[dot + 1..])
    ensures ValidateEmail(s)
  {
  }

  lemma NoAtInPart(domain: string, lo: int, hi: int)
    requires 0 <= lo <= hi <= |domain|
    requires '@' !in domain
    ensures '@' !in domain[lo..hi]
  {
    var part := domain[lo..hi];
    forall m | 0 <= m < |part| ensures part[m] != '@' {
      assert part[m] == domain[lo + m];
    }
  }

  /** The split the pattern needs, given the '@' and a '.' inside the domain
      of a string without whitespace and with a single '@'. */
  lemma SplitAt(s: string, at: int, dot: int)
    requires 0 < at && at + 1 < dot < |s| - 1
    requires NoSpace(s) && s[at] == '@' && s[dot] == '.'
    requires '@' !in s[..at] && '@' !in s[at + 1..]
    ensures ValidateEmail(s)
  {
    var domain := s[at + 1..];
    assert s[..at] == s[0..at];
    SliceIsRun(s, 0, at);
    assert s[at + 1..dot] == domain[0..dot - at - 1];
    NoAtInPart(domain, 0, dot - at - 1);
    SliceIsRun(s, at + 1, dot);
    assert s[dot + 1..] == domain[dot - at..|domain|] == s[dot + 1..|s|];
    NoAtInPart(domain, dot - at, |domain|);
    SliceIsRun(s, dot + 1, |s|);
    AcceptAt(s, at, dot);
  }

  lemma WellFormedImpliesValidateEmail(s: string)
    requires WellFormed(s)
    ensures ValidateEmail(s)
  {
    var at :| 0 < at < |s| && s[at] == '@' && '@' !in s[..at] && '@' !in s[at + 1..]
      && DotInside(s[at + 1..]);
    var domain := s[at + 1..];
    var k :| 0 < k < |domain| - 1 && domain[k] == '.';
    SplitAt(s, at, at + 1 + k);
  }

  /** The pattern accepts exactly the well-formed strings. */
  lemma ValidateEmailIff(s: string)
    ensures ValidateEmail(s) <==> WellFormed(s)
  {
    if ValidateEmail(s) { ValidateEmailImpliesWellFormed(s); }
    if WellFormed(s) { WellFormedImpliesValidateEmail(s); }
  }

  /** An accepted address has no whitespace at either end, so trimming it
      changes nothing. */
  lemma ValidEmailIsTrimmed(s: string)
    requires ValidateEmail(s)
    ensures Trim(s) == s
  {
    ValidateEmailImpliesWellFormed(s);
    TrimUnchanged(s);
  }

  /** Lower-case letters and dots are run characters. */
  lemma LowerCaseRun(s: string)
    requires |s| > 0
    requires forall k | 0 <= k < |s| :: 'a' <= s[k] <= 'z' || s[k] == '.'
    ensures IsRun(s)
  {
  }

  /** The usual shape is accepted. */
  lemma AcceptedSample()
    ensures ValidateEmail("user@example.com")
  {
    var s := "user@example.com";
    LowerCaseRun(s[..4]);
    LowerCaseRun(s[5..12]);
    LowerCaseRun(s[13..]);
    AcceptAt(s, 4, 12);
  }

  /** A domain part with several dots is accepted: the middle run takes the
      dots before the last one. */
  lemma AcceptedDottedSample()
    ensures ValidateEmail("a@b.c.d")
  {
    var t := "a@b.c.d";
    LowerCaseRun(t[..1]);
    LowerCaseRun(t[2..5]);
    LowerCaseRun(t[6..]);
    AcceptAt(t, 1, 5);
  }

  /** A missing dot, a second '@', an empty local part, a dot that ends the
      address and an inner space are each rejected. */
  lemma RejectedSamples()
    ensures !ValidateEmail("a@b")
    ensures !ValidateEmail("a@@b.c")
    ensures !ValidateEmail("@b.c")
    ensures !ValidateEmail("a@b.")
    ensures !ValidateEmail("a b@c.d")
  {
    ValidateEmailIff("a@b");
    ValidateEmailIff("a@@b.c");
    ValidateEmailIff("@b.c");
    ValidateEmailIff("a@b.");
    ValidateEmailIff("a b@c.d");
    assert "a@@b.c"[1] == '@' && "a@@b.c"[2] == '@';
    assert IsSpace("a b@c.d"[1]);
  }

  // ---------------------------------------------------------------------------
  // The required / invalid / clear decision (blur and submit handlers)
  // ---------------------------------------------------------------------------

  /** Outcome of checking the email field. */
  datatype FieldCheck = Missing | Malformed | Accepted

  const RequiredMessage: string := "Email address is required"
  const InvalidMessage: string := "Please enter a valid email address"

  /** The decision on the raw field value: trim it, then empty means the
      field is missing, a value the pattern rejects is malformed, anything
      else is accepted. */
  function CheckEmail(value: string): (c: FieldCheck)
    ensures c == Accepted ==> 5 <= |value|
  {
    var v := Trim(value);
    if v == [] then Missing
    else if !ValidateEmail(v) then Malformed
    else Accepted
  }

  /** The decision in terms of the raw value: missing exactly when it is all
      whitespace, accepted exactly when its trimmed form is well formed, and
      malformed otherwise. */
  lemma CheckEmailOutcomes(value: string)
    ensures CheckEmail(value) == Missing <==> AllSpace(value)
    ensures CheckEmail(value) == Malformed <==> !AllSpace(value) && !WellFormed(Trim(value))
    ensures CheckEmail(value) == Accepted <==> WellFormed(Trim(value))
  {
    TrimEmptyIff(value);
    ValidateEmailIff(Trim(value));
  }

  /** The text the form group's error element holds after the decision:
      one of the two messages when an error is shown, the empty string when
      the error is cleared. */
  function ErrorText(c: FieldCheck): (t: string)
    ensures t == "" <==> c == Accepted
    ensures c == Missing ==> t == RequiredMessage
    ensures c == Malformed ==> t == InvalidMessage
  {
    match c
    case Missing => RequiredMessage
    case Malformed => InvalidMessage
    case Accepted => ""
  }
}
