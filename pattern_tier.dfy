// The pattern tier: `pattern.sub(MASK_VALUE, text)` for a pattern given by
// its match at a position, the two patterns that are modelled exactly (email
// and postal code), and the fold of all five patterns in list order.
module PatternTier {
  import opened MaskSettings
  import opened Detection

  /** A matcher gives the length of the match of a pattern at the start of a
      string, or 0 when the pattern does not match there. None of the
      patterns can match the empty string. */
  ghost predicate Bounded(m: string -> nat) {
    forall t :: m(t) <= |t|
  }

  /** `re.sub(pattern, MASK_VALUE, s)`: scan left to right; where the pattern
      matches, emit the marker and continue after the match; elsewhere keep
      the character and move on by one. */
  function Sub(m: string -> nat, s: string): (r: string)
    requires Bounded(m)
    decreases |s|
  {
    if |s| == 0 then ""
    else if m(s) > 0 then MaskMarker + Sub(m, s[m(s)..])
    else [s[0]] + Sub(m, s[1..])
  }

  /** No match of the pattern starts anywhere in `t`. */
  ghost predicate NoMatch(m: string -> nat, t: string) {
    forall i :: 0 <= i <= |t| ==> m(t[i..]) == 0
  }

  /** `x` and `y` agree on their first `n` characters. */
  ghost predicate SamePrefix(x: string, y: string, n: nat) {
    n <= |x| && n <= |y| && x[..n] == y[..n]
  }

  /** The matched text never contains a marker character. */
  ghost predicate AvoidsMarker(m: string -> nat) {
    forall t {:trigger m(t)} :: forall j :: 0 <= j < m(t) <= |t| ==> t[j] != '*'
  }

  /** Whether the pattern matches depends only on the characters it matched:
      a string that agrees on them is matched too. */
  ghost predicate DecidedByMatch(m: string -> nat) {
    forall x, y {:trigger SamePrefix(x, y, m(x))} :: 0 < m(x) && SamePrefix(x, y, m(x)) ==> m(y) > 0
  }

  /** Text before the first marker character of the output is input text. */
  lemma {:induction false} SubKeepsPrefix(m: string -> nat, t: string, len: nat)
    requires Bounded(m) && AvoidsMarker(m)
    requires len <= |Sub(m, t)| && forall j :: 0 <= j < len ==> Sub(m, t)[j] != '*'
    ensures len <= |t| && Sub(m, t)[..len] == t[..len]
    decreases |t|
  {
    if |t| > 0 && m(t) == 0 && len > 0 {
      var rest := Sub(m, t[1..]);
      assert Sub(m, t) == [t[0]] + rest;
      forall j | 0 <= j < len - 1 ensures rest[j] != '*' {
        assert Sub(m, t)[j + 1] == rest[j];
      }
      SubKeepsPrefix(m, t[1..], len - 1);
      assert Sub(m, t)[..len] == [t[0]] + rest[..len - 1];
      assert t[..len] == [t[0]] + t[1..][..len - 1];
    } else if |t| > 0 && m(t) > 0 {
      assert Sub(m, t)[0] == '*';
    }
  }

  /** A match at the start of `[s[0]] + Sub(m, s[1..])` only covers text
      that was kept from `s`. */
  lemma KeptCharMatchIsInput(m: string -> nat, s: string)
    requires Bounded(m) && AvoidsMarker(m) && |s| > 0
    ensures var out := [s[0]] + Sub(m, s[1..]);
      m(out) > 0 ==> SamePrefix(out, s, m(out))
  {
    var rest := Sub(m, s[1..]);
    var out := [s[0]] + rest;
    var n := m(out);
    if n > 0 {
      assert forall j :: 0 <= j < n ==> out[j] != '*';
      forall j | 0 <= j < n - 1 ensures rest[j] != '*' {
        assert out[j + 1] == rest[j];
      }
      SubKeepsPrefix(m, s[1..], n - 1);
      assert out[..n] == [s[0]] + rest[..n - 1];
      assert s[..n] == [s[0]] + s[1..][..n - 1];
    }
  }

  /** Where the input had no match, the output has none either. */
  lemma KeptCharStartsNoMatch(m: string -> nat, s: string)
    requires Bounded(m) && AvoidsMarker(m) && DecidedByMatch(m)
    requires |s| > 0 && m(s) == 0
    ensures m([s[0]] + Sub(m, s[1..])) == 0
  {
    KeptCharMatchIsInput(m, s);
  }

  /** After the substitution no match of the pattern is left anywhere. */
  lemma {:induction false} SubLeavesNoMatch(m: string -> nat, s: string)
    requires Bounded(m) && AvoidsMarker(m) && DecidedByMatch(m)
    ensures NoMatch(m, Sub(m, s))
    decreases |s|
  {
    var out := Sub(m, s);
    if |s| == 0 {
      assert out[0..] == "";
    } else if m(s) > 0 {
      var rest := Sub(m, s[m(s)..]);
      SubLeavesNoMatch(m, s[m(s)..]);
      forall i | 0 <= i <= |out| ensures m(out[i..]) == 0 {
        if i < 3 {
          assert out[i..][0] == '*';
        } else {
          assert out[i..] == rest[i - 3..];
        }
      }
    } else {
      var rest := Sub(m, s[1..]);
      SubLeavesNoMatch(m, s[1..]);
      KeptCharStartsNoMatch(m, s);
      forall i | 0 <= i <= |out| ensures m(out[i..]) == 0 {
        if i > 0 {
          assert out[i..] == rest[i - 1..];
        }
      }
    }
  }

  /** Text with no match is left as it is. */
  lemma {:induction false} SubWithoutMatchIsIdentity(m: string -> nat, t: string)
    requires Bounded(m) && NoMatch(m, t)
    ensures Sub(m, t) == t
    decreases |t|
  {
    if |t| > 0 {
      assert t[0..] == t;
      forall i | 0 <= i <= |t[1..]| ensures m(t[1..][i..]) == 0 {
        assert t[1..][i..] == t[i + 1..];
      }
      SubWithoutMatchIsIdentity(m, t[1..]);
    }
  }

  /** Scrubbing twice is scrubbing once, and the marker itself is never
      scrubbed. */
  lemma SubIdempotent(m: string -> nat, s: string)
    requires Bounded(m) && AvoidsMarker(m) && DecidedByMatch(m)
    ensures Sub(m, Sub(m, s)) == Sub(m, s)
    ensures Sub(m, MaskMarker) == MaskMarker
  {
    SubLeavesNoMatch(m, s);
    SubWithoutMatchIsIdentity(m, Sub(m, s));
    forall i | 0 <= i <= |MaskMarker| ensures m(MaskMarker[i..]) == 0 {
      if i < 3 {
        assert MaskMarker[i..][0] == '*';
      }
    }
    SubWithoutMatchIsIdentity(m, MaskMarker);
  }

  // ---------------------------------------------------------------------
  // Postal code: 〒?\d{3}[-‐－]\d{4}

  /** `\d`, limited to ASCII and full-width decimal digits. */
  predicate IsDigit(c: char) {
    '0' <= c <= '9' || '\U{FF10}' <= c <= '\U{FF19}'
  }

  /** The class `[-‐－]`: hyphen-minus, hyphen, full-width hyphen-minus. */
  predicate IsPostalHyphen(c: char) {
    c == '-' || c == '\U{2010}' || c == '\U{FF0D}'
  }

  /** `\d{3}[-‐－]\d{4}` matches at the start of `s`. */
  predicate PostalDigits(s: string) {
    |s| >= 8 && IsDigit(s[0]) && IsDigit(s[1]) && IsDigit(s[2]) && IsPostalHyphen(s[3])
    && IsDigit(s[4]) && IsDigit(s[5]) && IsDigit(s[6]) && IsDigit(s[7])
  }

  /** The match at the start of `s`: the optional postal mark is tried first. */
  function PostalMatch(s: string): (n: nat)
    ensures n <= |s|
  {
    if |s| > 0 && s[0] == '〒' && PostalDigits(s[1..]) then 9
    else if PostalDigits(s) then 8
    else 0
  }

  /** A string agreeing with a postal match on the matched text matches too. */
  lemma PostalDecided(x: string, y: string)
    requires 0 < PostalMatch(x) && SamePrefix(x, y, PostalMatch(x))
    ensures PostalMatch(y) > 0
  {
    var n := PostalMatch(x);
    assert forall j :: 0 <= j < n ==> x[j] == x[..n][j] == y[..n][j] == y[j];
    if n == 8 {
      assert PostalDigits(y);
    } else {
      assert PostalDigits(y[1..]) by {
        assert forall j :: 0 <= j < 8 ==> x[1..][j] == y[1..][j];
      }
    }
  }

  /** A postal match holds the mark, digits and a hyphen, never a '*'. */
  lemma PostalAvoids(t: string)
    ensures forall j :: 0 <= j < PostalMatch(t) <= |t| ==> t[j] != '*'
  {
    if PostalMatch(t) == 9 {
      assert forall j :: 1 <= j < 9 ==> t[j] == t[1..][j - 1];
    }
  }

  lemma PostalMatcherFits()
    ensures Bounded(PostalMatch) && AvoidsMarker(PostalMatch) && DecidedByMatch(PostalMatch)
  {
    forall t ensures forall j :: 0 <= j < PostalMatch(t) <= |t| ==> t[j] != '*' {
      PostalAvoids(t);
    }
    forall x, y | 0 < PostalMatch(x) && SamePrefix(x, y, PostalMatch(x)) ensures PostalMatch(y) > 0 {
      PostalDecided(x, y);
    }
  }

  /** The postal-code entry of PATTERNS. */
  function ScrubPostal(s: string): string {
    PostalMatcherFits();
    Sub(PostalMatch, s)
  }

  /** No postal code is left after scrubbing, and scrubbing is idempotent. */
  lemma ScrubPostalComplete(s: string)
    ensures forall i :: 0 <= i <= |ScrubPostal(s)| ==> PostalMatch(ScrubPostal(s)[i..]) == 0
    ensures ScrubPostal(ScrubPostal(s)) == ScrubPostal(s)
    ensures ScrubPostal(MaskMarker) == MaskMarker
  {
    PostalMatcherFits();
    SubLeavesNoMatch(PostalMatch, s);
    SubIdempotent(PostalMatch, s);
  }

  // ---------------------------------------------------------------------
  // Email: [a-zA-Z0-9_.+-]+@[a-zA-Z0-9-]+\.[a-zA-Z0-9-.]+

  predicate IsAsciiAlnum(c: char) {
    'a' <= c <= 'z' || 'A' <= c <= 'Z' || '0' <= c <= '9'
  }

  /** `[a-zA-Z0-9_.+-]` */
  predicate IsLocalChar(c: char) {
    IsAsciiAlnum(c) || c == '_' || c == '.' || c == '+' || c == '-'
  }

  /** `[a-zA-Z0-9-]` */
  predicate IsDomainChar(c: char) {
    IsAsciiAlnum(c) || c == '-'
  }

  /** `[a-zA-Z0-9-.]` */
  predicate IsTopChar(c: char) {
    IsAsciiAlnum(c) || c == '-' || c == '.'
  }

  /** End of the longest run of `p` characters starting at `i` (what a greedy
      `[...]+` consumes). */
  function RunEnd(p: char -> bool, s: string, i: nat): (e: nat)
    requires i <= |s|
    ensures i <= e <= |s|
    ensures forall j :: i <= j < e ==> p(s[j])
    ensures e < |s| ==> !p(s[e])
    decreases |s| - i
  {
    if i < |s| && p(s[i]) then RunEnd(p, s, i + 1) else i
  }

  /** The match at the start of `s`. Each `+` is greedy and the character
      after each of the first two runs is outside that run's class, so
      backtracking never finds a different match: the match is determined by
      the three maximal runs. */
  function EmailMatch(s: string): (n: nat)
    ensures n <= |s|
  {
    var e := RunEnd(IsLocalChar, s, 0);
    if e == 0 || e == |s| || s[e] != '@' then 0
    else
      var d := RunEnd(IsDomainChar, s, e + 1);
      if d == e + 1 || d == |s| || s[d] != '.' then 0
      else
        var t := RunEnd(IsTopChar, s, d + 1);
        if t == d + 1 then 0 else t
  }

  /** Two strings that agree below `n` have the same run ends below `n`. */
  lemma RunEndAgrees(p: char -> bool, x: string, y: string, i: nat, n: nat)
    requires i <= n <= |x| && n <= |y| && x[..n] == y[..n]
    ensures RunEnd(p, x, i) < n ==> RunEnd(p, y, i) == RunEnd(p, x, i)
    ensures RunEnd(p, x, i) >= n ==> RunEnd(p, y, i) >= n
  {
    assert forall j :: 0 <= j < n ==> x[j] == x[..n][j] == y[..n][j] == y[j];
  }

  /** The three runs of an email match: the local part ends at an '@', the
      domain at a '.', and the match ends with the last run. */
  lemma EmailParts(s: string) returns (e: nat, d: nat)
    requires EmailMatch(s) > 0
    ensures 0 < e < d < |s| && e + 1 < d
    ensures e == RunEnd(IsLocalChar, s, 0) && s[e] == '@'
    ensures d == RunEnd(IsDomainChar, s, e + 1) && s[d] == '.'
    ensures RunEnd(IsTopChar, s, d + 1) == EmailMatch(s) > d + 1
  {
    e := RunEnd(IsLocalChar, s, 0);
    d := RunEnd(IsDomainChar, s, e + 1);
  }

  /** Three such runs make an email match. */
  lemma EmailFromParts(s: string, e: nat, d: nat)
    requires 0 < e < d < |s| && e + 1 < d
    requires e == RunEnd(IsLocalChar, s, 0) && s[e] == '@'
    requires d == RunEnd(IsDomainChar, s, e + 1) && s[d] == '.'
    requires RunEnd(IsTopChar, s, d + 1) > d + 1
    ensures EmailMatch(s) > 0
  {
  }

  /** A string agreeing with an email match on the matched text matches too. */
  lemma EmailDecided(x: string, y: string)
    requires 0 < EmailMatch(x) && SamePrefix(x, y, EmailMatch(x))
    ensures EmailMatch(y) > 0
  {
    var n := EmailMatch(x);
    var e, d := EmailParts(x);
    assert x[e] == x[..n][e] == y[..n][e] == y[e];
    assert x[d] == x[..n][d] == y[..n][d] == y[d];
    RunEndAgrees(IsLocalChar, x, y, 0, n);
    RunEndAgrees(IsDomainChar, x, y, e + 1, n);
    RunEndAgrees(IsTopChar, x, y, d + 1, n);
    EmailFromParts(y, e, d);
  }

  lemma EmailMatcherFits()
    ensures Bounded(EmailMatch) && AvoidsMarker(EmailMatch) && DecidedByMatch(EmailMatch)
  {
    forall x, y | 0 < EmailMatch(x) && SamePrefix(x, y, EmailMatch(x)) ensures EmailMatch(y) > 0 {
      EmailDecided(x, y);
    }
  }

  /** The email entry of PATTERNS. */
  function ScrubEmail(s: string): string {
    EmailMatcherFits();
    Sub(EmailMatch, s)
  }

  /** No email address is left after scrubbing, and scrubbing is idempotent. */
  lemma ScrubEmailComplete(s: string)
    ensures forall i :: 0 <= i <= |ScrubEmail(s)| ==> EmailMatch(ScrubEmail(s)[i..]) == 0
    ensures ScrubEmail(ScrubEmail(s)) == ScrubEmail(s)
    ensures ScrubEmail(MaskMarker) == MaskMarker
  {
    EmailMatcherFits();
    SubLeavesNoMatch(EmailMatch, s);
    SubIdempotent(EmailMatch, s);
  }

  // ---------------------------------------------------------------------
  // The five patterns, in list order

  /** PATTERNS: email, phone, mobile, postal code, address. */
  function Patterns(d: Detectors): seq<string -> string> {
    [ScrubEmail, d.phone, d.mobile, ScrubPostal, d.address]
  }

  /** Each scrubber applied to the output of the one before it. */
  function ApplyAll(scrubbers: seq<string -> string>, text: string): string
    decreases |scrubbers|
  {
    if |scrubbers| == 0 then text else ApplyAll(scrubbers[1..], scrubbers[0](text))
  }

  /** The fold over PATTERNS is the five substitutions in list order. */
  lemma PatternsInOrder(d: Detectors, text: string)
    ensures ApplyAll(Patterns(d), text)
         == d.address(ScrubPostal(d.mobile(d.phone(ScrubEmail(text)))))
  {
    var ps := Patterns(d);
    var t1 := ScrubEmail(text);
    var t2 := d.phone(t1);
    var t3 := d.mobile(t2);
    var t4 := ScrubPostal(t3);
    assert ps[1..] == [d.phone, d.mobile, ScrubPostal, d.address];
    assert ps[1..][1..] == [d.mobile, ScrubPostal, d.address];
    assert ps[1..][1..][1..] == [ScrubPostal, d.address];
    assert ps[1..][1..][1..][1..] == [d.address];
    calc {
      ApplyAll(ps, text);
      ApplyAll(ps[1..], t1);
      ApplyAll(ps[1..][1..], t2);
      ApplyAll(ps[1..][1..][1..], t3);
      ApplyAll(ps[1..][1..][1..][1..], t4);
      ApplyAll([], d.address(t4));
    }
  }
}
