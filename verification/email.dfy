/**
  The address-shape check run by `handleEmailChange` (src/pages/note.jsx:35-45):
  the regular expression `^[^\s@]+@[^\s@]+\.[^\s@]+$` tested against the field value.
 */
module EmailShape {

  /** JavaScript's `\s` class: the ECMAScript WhiteSpace and LineTerminator characters. */
  predicate IsJsWhitespace(c: char)
  {
    || c == '\t' || c == '\n' || c == '\U{000B}' || c == '\U{000C}' || c == '\r'
    || c == ' ' || c == '\U{00A0}' || c == '\U{1680}'
    || ('\U{2000}' <= c <= '\U{200A}')
    || c == '\U{2028}' || c == '\U{2029}' || c == '\U{202F}' || c == '\U{205F}'
    || c == '\U{3000}' || c == '\U{FEFF}'
  }

  /** One character of the class `[^\s@]`. */
  predicate IsAddressChar(c: char)
  {
    c != '@' && !IsJsWhitespace(c)
  }

  predicate AllAddressChars(s: string)
  {
    forall k | 0 <= k < |s| :: IsAddressChar(s[k])
  }

  /**
    `/^[^\s@]+@[^\s@]+\.[^\s@]+$/.test(s)`: the string splits, at some `@` and
    some later `.`, into three non-empty runs of `[^\s@]`.
   */
  predicate EmailRegexTest(s: string)
  {
    exists at, dot | 0 < at && at + 1 < dot && dot + 1 < |s| ::
      && s[at] == '@' && s[dot] == '.'
      && AllAddressChars(s[..at])
      && AllAddressChars(s[at + 1..dot])
      && AllAddressChars(s[dot + 1..])
  }

  /** The local part of an address: non-empty, no whitespace, no `@`. */
  predicate IsLocalPart(l: string)
  {
    |l| > 0 && AllAddressChars(l)
  }

  /** The domain of an address: no whitespace, no `@`, and a `.` that is neither first nor last. */
  predicate IsDomainPart(d: string)
  {
    AllAddressChars(d) && exists k | 0 < k < |d| - 1 :: d[k] == '.'
  }

  /** The shape `L@D` with a local part `L` and a domain `D`. */
  predicate IsLocalAtDomain(s: string)
  {
    exists at | 0 <= at < |s| :: s[at] == '@' && IsLocalPart(s[..at]) && IsDomainPart(s[at + 1..])
  }

  /** Every slice of a run of `[^\s@]` characters is one too. */
  lemma SliceOfAddressChars(s: string, lo: nat, hi: nat)
    requires AllAddressChars(s) && lo <= hi <= |s|
    ensures AllAddressChars(s[lo..hi])
  {
    forall j | 0 <= j < hi - lo ensures IsAddressChar(s[lo..hi][j]) {
      assert s[lo..hi][j] == s[lo + j];
    }
  }

  /** A witness of the regular expression gives the shape `L@D`. */
  lemma RegexTestGivesLocalAtDomain(s: string, at: nat, dot: nat)
    requires 0 < at && at + 1 < dot && dot + 1 < |s|
    requires s[at] == '@' && s[dot] == '.'
    requires AllAddressChars(s[..at]) && AllAddressChars(s[at + 1..dot]) && AllAddressChars(s[dot + 1..])
    ensures IsLocalPart(s[..at]) && IsDomainPart(s[at + 1..])
  {
    var d := s[at + 1..];
    var mid, tail := s[at + 1..dot], s[dot + 1..];
    forall k | 0 <= k < |d| ensures IsAddressChar(d[k]) {
      if at + 1 + k < dot {
        assert d[k] == mid[k];
      } else if at + 1 + k > dot {
        assert d[k] == tail[at + k - dot];
      }
    }
    assert d[dot - at - 1] == '.';
  }

  /** The shape `L@D` gives a witness of the regular expression. */
  lemma LocalAtDomainGivesRegexTest(s: string, at: nat)
    requires at < |s| && s[at] == '@' && IsLocalPart(s[..at]) && IsDomainPart(s[at + 1..])
    ensures EmailRegexTest(s)
  {
    var d := s[at + 1..];
    var k :| 0 < k < |d| - 1 && d[k] == '.';
    var dot := at + 1 + k;
    SliceOfAddressChars(d, 0, k);
    SliceOfAddressChars(d, k + 1, |d|);
    assert s[at + 1..dot] == d[0..k];
    assert s[dot + 1..] == d[k + 1..|d|];
    assert s[dot] == '.';
  }

  /** The regular expression accepts exactly the strings of the shape `L@D`. */
  lemma RegexTestIsLocalAtDomain(s: string)
    ensures EmailRegexTest(s) <==> IsLocalAtDomain(s)
  {
    if EmailRegexTest(s) {
      var at: nat, dot: nat :| 0 < at && at + 1 < dot && dot + 1 < |s|
        && s[at] == '@' && s[dot] == '.'
        && AllAddressChars(s[..at]) && AllAddressChars(s[at + 1..dot]) && AllAddressChars(s[dot + 1..]);
      RegexTestGivesLocalAtDomain(s, at, dot);
    }
    if IsLocalAtDomain(s) {
      var at: nat :| at < |s| && s[at] == '@' && IsLocalPart(s[..at]) && IsDomainPart(s[at + 1..]);
      LocalAtDomainGivesRegexTest(s, at);
    }
  }

  /** In a string the regular expression accepts, every character other than the `@` is in `[^\s@]`. */
  lemma AcceptedCharIsAddressChar(s: string, at: nat, dot: nat, p: nat)
    requires 0 < at && at + 1 < dot && dot + 1 < |s|
    requires s[at] == '@' && s[dot] == '.'
    requires AllAddressChars(s[..at]) && AllAddressChars(s[at + 1..dot]) && AllAddressChars(s[dot + 1..])
    requires p < |s| && p != at
    ensures IsAddressChar(s[p])
  {
    if p < at {
      assert s[..at][p] == s[p];
    } else if at < p < dot {
      assert s[at + 1..dot][p - at - 1] == s[p];
    } else if p > dot {
      assert s[dot + 1..][p - dot - 1] == s[p];
    }
  }

  /** An accepted address holds exactly one `@`, and it is not the first character. */
  lemma AcceptedAddressHasOneAt(s: string, i: nat, j: nat)
    requires EmailRegexTest(s)
    requires i < |s| && j < |s| && s[i] == '@' && s[j] == '@'
    ensures i == j && i > 0
  {
    var at: nat, dot: nat :| 0 < at && at + 1 < dot && dot + 1 < |s|
      && s[at] == '@' && s[dot] == '.'
      && AllAddressChars(s[..at]) && AllAddressChars(s[at + 1..dot]) && AllAddressChars(s[dot + 1..]);
    if i != at {
      AcceptedCharIsAddressChar(s, at, dot, i);
    }
    if j != at {
      AcceptedCharIsAddressChar(s, at, dot, j);
    }
  }

  /** An accepted address contains no whitespace. */
  lemma AcceptedAddressHasNoWhitespace(s: string, i: nat)
    requires EmailRegexTest(s) && i < |s|
    ensures !IsJsWhitespace(s[i])
  {
    var at: nat, dot: nat :| 0 < at && at + 1 < dot && dot + 1 < |s|
      && s[at] == '@' && s[dot] == '.'
      && AllAddressChars(s[..at]) && AllAddressChars(s[at + 1..dot]) && AllAddressChars(s[dot + 1..]);
    if i != at {
      AcceptedCharIsAddressChar(s, at, dot, i);
    }
  }
}
