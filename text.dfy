// String helpers with Python's semantics: str.strip(), str.lower() as far as
// the keyword tests can observe it, and the substring test `k in h`.
module PyText {

  /** The code points for which Python's str.isspace() holds (these are what
      str.strip() removes), including the ideographic space U+3000. */
  predicate IsSpace(c: char) {
    ('\U{9}' <= c <= '\U{D}') || ('\U{1C}' <= c <= '\U{20}') || c == '\U{85}' || c == '\U{A0}'
    || c == '\U{1680}' || ('\U{2000}' <= c <= '\U{200A}') || c == '\U{2028}' || c == '\U{2029}'
    || c == '\U{202F}' || c == '\U{205F}' || c == '\U{3000}'
  }

  /** Every character of `s` is whitespace (the empty string included). */
  predicate IsBlank(s: string) {
    forall i :: 0 <= i < |s| ==> IsSpace(s[i])
  }

  /** Leading whitespace removed (str.lstrip()). */
  function TrimStart(s: string): (r: string)
    ensures |r| <= |s| && r == s[|s| - |r|..]
    ensures r == [] || !IsSpace(r[0])
    ensures forall j :: 0 <= j < |s| - |r| ==> IsSpace(s[j])
  {
    if |s| > 0 && IsSpace(s[0]) then TrimStart(s[1..]) else s
  }

  /** Trailing whitespace removed (str.rstrip()). */
  function TrimEnd(s: string): (r: string)
    ensures |r| <= |s| && r == s[..|r|]
    ensures r == [] || !IsSpace(r[|r| - 1])
    ensures forall j :: |r| <= j < |s| ==> IsSpace(s[j])
  {
    if |s| > 0 && IsSpace(s[|s| - 1]) then TrimEnd(s[..|s| - 1]) else s
  }

  /** str.strip(). */
  function Strip(s: string): string {
    TrimEnd(TrimStart(s))
  }

  /** `s.strip()` is the slice `s[a..b]` with whitespace only outside it. */
  lemma StripIsSlice(s: string) returns (a: nat, b: nat)
    ensures a <= b <= |s| && Strip(s) == s[a..b]
    ensures forall j :: 0 <= j < a ==> IsSpace(s[j])
    ensures forall j :: b <= j < |s| ==> IsSpace(s[j])
    ensures a < b ==> !IsSpace(s[a]) && !IsSpace(s[b - 1])
  {
    var t := TrimStart(s);
    a := |s| - |t|;
    b := a + |Strip(s)|;
    forall j | b <= j < |s| ensures IsSpace(s[j]) {
      assert t[j - a] == s[j];
    }
  }

  /** `s.strip() == ""` exactly when `s` is all whitespace. */
  lemma StripEmptyIffBlank(s: string)
    ensures Strip(s) == "" <==> IsBlank(s)
  {
    var a, b := StripIsSlice(s);
    assert a < b ==> Strip(s)[0] == s[a];
  }

  /** ASCII upper case to lower case; every other character is kept. Python's
      str.lower() maps more characters, but only U+0130 and U+212A lower to
      ASCII letters, and neither can complete a keyword of HEADER_KEYWORDS. */
  function LowerChar(c: char): char {
    if 'A' <= c <= 'Z' then (c as int + 32) as char else c
  }

  /** str.lower() on ASCII letters: no capital is left, each capital
      becomes its small letter, and every other character is kept. */
  function Lower(s: string): (r: string)
    ensures |r| == |s|
    ensures forall i :: 0 <= i < |r| ==> !('A' <= r[i] <= 'Z')
    ensures forall i :: 0 <= i < |s| && 'A' <= s[i] <= 'Z' ==> r[i] as int == s[i] as int + 32
    ensures forall i :: 0 <= i < |s| && !('A' <= s[i] <= 'Z') ==> r[i] == s[i]
  {
    seq(|s|, i requires 0 <= i < |s| => LowerChar(s[i]))
  }

  /** Lowering twice is lowering once. */
  lemma LowerIdempotent(s: string)
    ensures Lower(Lower(s)) == Lower(s)
  {
    var once := Lower(s);
    forall i | 0 <= i < |once| ensures Lower(once)[i] == once[i] {
    }
  }

  /** `k` occurs in `h` starting at index `i`. */
  ghost predicate OccursAt(h: string, k: string, i: int) {
    0 <= i && i + |k| <= |h| && h[i..i + |k|] == k
  }

  /** Python's `k in h` for strings. */
  function Contains(h: string, k: string): bool
    decreases |h|
  {
    if |k| > |h| then false
    else if k <= h then true
    else Contains(h[1..], k)
  }

  /** An occurrence at any index makes the test succeed. */
  lemma {:induction false} OccursThenContains(h: string, k: string, i: int)
    requires OccursAt(h, k, i)
    ensures Contains(h, k)
    decreases i
  {
    if i == 0 {
      assert k <= h;
    } else if !(k <= h) {
      assert h[1..][i - 1..i - 1 + |k|] == h[i..i + |k|];
      OccursThenContains(h[1..], k, i - 1);
    }
  }

  /** A successful test has a witness index. */
  lemma {:induction false} ContainsThenOccurs(h: string, k: string) returns (i: nat)
    requires Contains(h, k)
    ensures OccursAt(h, k, i)
    decreases |h|
  {
    if k <= h {
      i := 0;
    } else {
      var j := ContainsThenOccurs(h[1..], k);
      assert h[1..][j..j + |k|] == h[j + 1..j + 1 + |k|];
      i := j + 1;
    }
  }

  /** The recursive test agrees with "some occurrence exists". */
  lemma ContainsIffOccurs(h: string, k: string)
    ensures Contains(h, k) <==> exists i :: OccursAt(h, k, i)
  {
    if Contains(h, k) {
      var i := ContainsThenOccurs(h, k);
    }
    forall i | OccursAt(h, k, i) ensures Contains(h, k) {
      OccursThenContains(h, k, i);
    }
  }

  /** A keyword that is already lower case is found in the lowered text
      wherever it is found in the text. */
  lemma LowerKeepsOccurrence(h: string, k: string)
    requires Lower(k) == k
    requires Contains(h, k)
    ensures Contains(Lower(h), k)
  {
    ContainsIffOccurs(h, k);
    var i :| OccursAt(h, k, i);
    assert Lower(h)[i..i + |k|] == Lower(h[i..i + |k|]);
    assert OccursAt(Lower(h), k, i);
    ContainsIffOccurs(Lower(h), k);
  }

  /** An occurrence in a slice is an occurrence in the whole text. */
  lemma OccursInSlice(h: string, a: nat, b: nat, k: string, i: nat)
    requires a <= b <= |h| && OccursAt(h[a..b], k, i)
    ensures OccursAt(h, k, a + i)
  {
    forall j | 0 <= j < |k| ensures h[a + i + j] == k[j] {
      assert h[a..b][i..i + |k|][j] == k[j];
    }
    assert h[a + i..a + i + |k|] == k;
  }

  /** An occurrence that lies within `[a, b)` is an occurrence in the slice. */
  lemma OccursInsideSlice(h: string, a: nat, b: nat, k: string, i: nat)
    requires a <= i && i + |k| <= b <= |h| && OccursAt(h, k, i)
    ensures OccursAt(h[a..b], k, i - a)
  {
    forall j | 0 <= j < |k| ensures h[a..b][i - a + j] == k[j] {
      assert h[i..i + |k|][j] == k[j];
    }
    assert h[a..b][i - a..i - a + |k|] == k;
  }

  /** An occurrence of a keyword with non-blank ends lies between the
      whitespace margins of the text. */
  lemma OccursWithinMargins(h: string, k: string, a: nat, b: nat, i: nat)
    requires a <= b <= |h|
    requires forall j :: 0 <= j < a ==> IsSpace(h[j])
    requires forall j :: b <= j < |h| ==> IsSpace(h[j])
    requires |k| > 0 && !IsSpace(k[0]) && !IsSpace(k[|k| - 1]) && OccursAt(h, k, i)
    ensures a <= i && i + |k| <= b
  {
    assert h[i] == h[i..i + |k|][0] && h[i + |k| - 1] == h[i..i + |k|][|k| - 1];
  }

  /** Stripping only removes whitespace at the ends, so a keyword that neither
      starts nor ends with whitespace is in the stripped text exactly when it
      is in the text. */
  lemma StripKeepsOccurrence(h: string, k: string)
    requires |k| > 0 && !IsSpace(k[0]) && !IsSpace(k[|k| - 1])
    ensures Contains(Strip(h), k) <==> Contains(h, k)
  {
    var a, b := StripIsSlice(h);
    if Contains(h[a..b], k) {
      StrippedOccurrenceIsInText(h, a, b, k);
    }
    if Contains(h, k) {
      TextOccurrenceIsStripped(h, a, b, k);
    }
  }

  lemma StrippedOccurrenceIsInText(h: string, a: nat, b: nat, k: string)
    requires a <= b <= |h| && Contains(h[a..b], k)
    ensures Contains(h, k)
  {
    var i := ContainsThenOccurs(h[a..b], k);
    OccursInSlice(h, a, b, k, i);
    OccursThenContains(h, k, a + i);
  }

  lemma TextOccurrenceIsStripped(h: string, a: nat, b: nat, k: string)
    requires a <= b <= |h|
    requires forall j :: 0 <= j < a ==> IsSpace(h[j])
    requires forall j :: b <= j < |h| ==> IsSpace(h[j])
    requires |k| > 0 && !IsSpace(k[0]) && !IsSpace(k[|k| - 1]) && Contains(h, k)
    ensures Contains(h[a..b], k)
  {
    var i := ContainsThenOccurs(h, k);
    OccursWithinMargins(h, k, a, b, i);
    OccursInsideSlice(h, a, b, k, i);
    OccursThenContains(h[a..b], k, i - a);
  }
}
