// Column policy derived from the header text: should_mask_header and
// should_truncate_header.
module HeaderPolicy {
  import opened PyText
  import opened MaskSettings

  /** should_mask_header: some lower-cased keyword occurs in the lower-cased,
      stripped header; None is never a mask header. */
  predicate ShouldMaskHeader(header: Value) {
    match header
    case None => false
    case _ =>
      var h := Strip(Lower(Shown(header)));
      exists kw :: kw in HeaderKeywords && Contains(h, Lower(kw))
  }

  /** should_truncate_header: a case-sensitive test on the stripped header. */
  predicate ShouldTruncateHeader(header: Value) {
    match header
    case None => false
    case _ =>
      var h := Strip(Shown(header));
      exists kw :: kw in TruncateKeywords && Contains(h, kw)
  }

  /** A keyword that case folding leaves alone and that neither starts nor
      ends with whitespace. */
  predicate Folded(kw: string) {
    |kw| > 0 && Lower(kw) == kw && !IsSpace(kw[0]) && !IsSpace(kw[|kw| - 1])
  }

  // One small lemma per keyword group keeps each enumeration cheap.
  lemma NameKeywordsFolded(kw: string) requires kw in NameKeywords ensures Folded(kw) {}
  lemma KanaKeywordsFolded(kw: string) requires kw in KanaKeywords ensures Folded(kw) {}
  lemma CompanyKeywordsFolded(kw: string) requires kw in CompanyKeywords ensures Folded(kw) {}
  lemma AddressKeywordsFolded(kw: string) requires kw in AddressKeywords ensures Folded(kw) {}
  lemma PasswordKeywordsFolded(kw: string) requires kw in PasswordKeywords ensures Folded(kw) {}
  lemma PhoneKeywordsFolded(kw: string) requires kw in PhoneKeywords ensures Folded(kw) {}
  lemma FaxKeywordsFolded(kw: string) requires kw in FaxKeywords ensures Folded(kw) {}
  lemma MailKeywordsFolded(kw: string) requires kw in MailKeywords ensures Folded(kw) {}
  lemma RecordKeywordsFolded(kw: string) requires kw in RecordKeywords ensures Folded(kw) {}

  /** Every mask keyword is folded. */
  lemma KeywordsAreFolded(kw: string)
    requires kw in HeaderKeywords
    ensures Folded(kw)
  {
    if kw in NameKeywords { NameKeywordsFolded(kw); }
    else if kw in KanaKeywords { KanaKeywordsFolded(kw); }
    else if kw in CompanyKeywords { CompanyKeywordsFolded(kw); }
    else if kw in AddressKeywords { AddressKeywordsFolded(kw); }
    else if kw in PasswordKeywords { PasswordKeywordsFolded(kw); }
    else if kw in PhoneKeywords { PhoneKeywordsFolded(kw); }
    else if kw in FaxKeywords { FaxKeywordsFolded(kw); }
    else if kw in MailKeywords { MailKeywordsFolded(kw); }
    else { RecordKeywordsFolded(kw); }
  }

  /** The mask test is exactly "some keyword occurs in the header once ASCII
      letters are lowered": stripping never changes the outcome. */
  lemma MaskHeaderIffKeyword(header: Value)
    ensures ShouldMaskHeader(header) <==>
      !header.None? && exists kw :: kw in HeaderKeywords && Contains(Lower(Shown(header)), kw)
  {
    if !header.None? {
      var low := Lower(Shown(header));
      forall kw | kw in HeaderKeywords
        ensures Contains(Strip(low), Lower(kw)) <==> Contains(low, kw)
      {
        KeywordsAreFolded(kw);
        StripKeepsOccurrence(low, kw);
      }
    }
  }

  /** The header test ignores the case of ASCII letters. */
  lemma MaskHeaderIgnoresCase(h: string)
    ensures ShouldMaskHeader(Str(h)) <==> ShouldMaskHeader(Str(Lower(h)))
  {
    LowerIdempotent(h);
    assert Shown(Str(Lower(h))) == Lower(h) && Shown(Str(h)) == h;
  }

  /** A header containing 名 (the bare "name" keyword) is always a mask
      header, so 件名 or 品名 columns are masked as well. */
  lemma NameCharMasks(header: Value)
    requires !header.None? && Contains(Shown(header), "名")
    ensures ShouldMaskHeader(header)
  {
    KeywordsAreFolded("名");
    LowerKeepsOccurrence(Shown(header), "名");
    MaskHeaderIffKeyword(header);
  }

  /** The truncate test is exactly "メモ or 備考 occurs in the header". */
  lemma TruncateHeaderIffKeyword(header: Value)
    ensures ShouldTruncateHeader(header) <==>
      !header.None? && (Contains(Shown(header), "メモ") || Contains(Shown(header), "備考"))
  {
    if !header.None? {
      StripKeepsOccurrence(Shown(header), "メモ");
      StripKeepsOccurrence(Shown(header), "備考");
      TruncateKeywordIn(Strip(Shown(header)));
    }
  }

  /** The truncate keyword list holds exactly メモ and 備考. */
  lemma TruncateKeywordIn(h: string)
    ensures (exists kw :: kw in TruncateKeywords && Contains(h, kw))
        <==> Contains(h, "メモ") || Contains(h, "備考")
  {
    assert TruncateKeywords[0] == "メモ" && TruncateKeywords[1] == "備考";
    if Contains(h, "メモ") || Contains(h, "備考") {
      var kw := if Contains(h, "メモ") then TruncateKeywords[0] else TruncateKeywords[1];
      assert kw in TruncateKeywords && Contains(h, kw);
    }
  }

  /** Both truncate keywords are also mask keywords, so every truncate column
      is a mask column: its values are masked to the marker, then truncated. */
  lemma TruncateImpliesMask(header: Value)
    ensures ShouldTruncateHeader(header) ==> ShouldMaskHeader(header)
  {
    if ShouldTruncateHeader(header) {
      TruncateHeaderIffKeyword(header);
      var kw := if Contains(Shown(header), "メモ") then "メモ" else "備考";
      KeywordsAreFolded(kw);
      LowerKeepsOccurrence(Shown(header), kw);
      MaskHeaderIffKeyword(header);
    }
  }
}
