// The cell transforms: whole-cell masking, the pattern pipeline, the entity
// pipeline with its pattern fallback, and truncation.
module CellRedactor {
  import opened PyText
  import opened MaskSettings
  import opened Detection
  import opened PatternTier
  import opened EntityTier

  /** mask_value: an empty or whitespace-only cell is returned as it is, any
      other cell becomes the marker. */
  function MaskValue(v: Value): (r: Value)
    ensures v.None? || IsBlank(Shown(v)) ==> r == v
    ensures !v.None? && !IsBlank(Shown(v)) ==> r == Str(MaskMarker)
  {
    if v.None? then v
    else
      StripEmptyIffBlank(Shown(v));
      if Strip(Shown(v)) == "" then v else Str(MaskMarker)
  }

  /** truncate: the text of the cell cut to at most MAX_TEXT_LENGTH
      characters, as a string. */
  function Truncate(v: Value): (r: Value)
    ensures v.None? ==> r == None
    ensures !v.None? ==> r.Str? && |r.s| <= MaxTextLength && r.s <= Shown(v)
    ensures !v.None? && |Shown(v)| <= MaxTextLength ==> r == Str(Shown(v))
    ensures !v.None? && |Shown(v)| > MaxTextLength ==> |r.s| == MaxTextLength
  {
    if v.None? then v
    else
      var text := Shown(v);
      Str(if |text| > MaxTextLength then text[..MaxTextLength] else text)
  }

  /** Truncating twice is truncating once. */
  lemma TruncateIdempotent(v: Value)
    ensures Truncate(Truncate(v)) == Truncate(v)
  {
  }

  // ---------------------------------------------------------------------
  // mask_by_pattern

  /** What mask_by_pattern returns: nothing for an empty cell, otherwise the
      text of the cell passed through the five patterns in list order. */
  function PatternMasked(d: Detectors, v: Value): (r: Value)
    ensures v.None? <==> r.None?
    ensures !v.None? ==> r.Str?
  {
    if v.None? then None else Str(ApplyAll(Patterns(d), Shown(v)))
  }

  /** mask_by_pattern, one substitution per turn of the loop. */
  method MaskByPattern(d: Detectors, v: Value) returns (r: Value)
    ensures r == PatternMasked(d, v)
  {
    if v.None? {
      return v;
    }
    var text := Shown(v);
    var patterns := Patterns(d);
    var i := 0;
    while i < |patterns|
      invariant 0 <= i <= |patterns|
      invariant ApplyAll(patterns[i..], text) == ApplyAll(patterns, Shown(v))
    {
      assert patterns[i..][1..] == patterns[i + 1..];
      text := patterns[i](text);
      i := i + 1;
    }
    return Str(text);
  }

  /** The marker is not a match of the two patterns modelled here, so it comes
      through the pipeline unchanged whenever the other three leave it alone:
      masking an already masked cell changes nothing. */
  lemma PatternMaskedKeepsMarker(d: Detectors)
    requires d.phone(MaskMarker) == MaskMarker && d.mobile(MaskMarker) == MaskMarker
    requires d.address(MaskMarker) == MaskMarker
    ensures PatternMasked(d, Str(MaskMarker)) == Str(MaskMarker)
  {
    PatternsInOrder(d, MaskMarker);
    ScrubEmailComplete(MaskMarker);
    ScrubPostalComplete(MaskMarker);
  }

  /** A text in which none of the five patterns finds anything comes through
      unchanged. */
  lemma PatternMaskedWithoutMatch(d: Detectors, text: string)
    requires forall i :: 0 <= i <= |text| ==> EmailMatch(text[i..]) == 0
    requires forall i :: 0 <= i <= |text| ==> PostalMatch(text[i..]) == 0
    requires d.phone(text) == text && d.mobile(text) == text && d.address(text) == text
    ensures PatternMasked(d, Str(text)) == Str(text)
  {
    PatternsInOrder(d, text);
    EmailMatcherFits();
    PostalMatcherFits();
    SubWithoutMatchIsIdentity(EmailMatch, text);
    SubWithoutMatchIsIdentity(PostalMatch, text);
  }

  // ---------------------------------------------------------------------
  // mask_by_ner

  /** What mask_by_ner returns. Without the language model, or for an empty
      cell, it is mask_by_pattern; a whitespace-only cell is returned as it
      is; otherwise the target entities are replaced from the last to the
      first and the result goes through the pattern pipeline. */
  function NerMasked(d: Detectors, v: Value): (r: Value)
    ensures v.None? ==> r == None
    ensures v.Str? ==> r.Str?
    ensures !d.nlpAvailable || v.None? ==> r == PatternMasked(d, v)
    ensures d.nlpAvailable && !v.None? && IsBlank(Shown(v)) ==> r == v
    ensures !v.None? && !(d.nlpAvailable && IsBlank(Shown(v))) ==> r.Str?
  {
    if !d.nlpAvailable || v.None? then PatternMasked(d, v)
    else
      var text := Shown(v);
      StripEmptyIffBlank(text);
      if Strip(text) == "" then v
      else PatternMasked(d, Str(Redact(text, SortDesc(d.ner(text)))))
  }

  /** mask_by_ner: the sorted entities spliced one per turn of the loop. */
  method MaskByNer(d: Detectors, v: Value) returns (r: Value)
    ensures r == NerMasked(d, v)
  {
    if !d.nlpAvailable || v.None? {
      r := MaskByPattern(d, v);
      return;
    }
    var text := Shown(v);
    if Strip(text) == "" {
      return v;
    }
    var entities := SortDesc(d.ner(text));
    var masked := text;
    var i := 0;
    while i < |entities|
      invariant 0 <= i <= |entities|
      invariant Redact(masked, entities[i..]) == Redact(text, entities)
    {
      assert entities[i..][1..] == entities[i + 1..];
      var ent := entities[i];
      if ent.kind in NerTargetLabels {
        masked := masked[..Min(ent.start, |masked|)] + MaskMarker + masked[Min(ent.end, |masked|)..];
      }
      i := i + 1;
    }
    r := MaskByPattern(d, Str(masked));
  }

  /** With entities as the language model reports them (inside the text, in
      order, not overlapping), mask_by_ner is the reference redaction at the
      original offsets followed by the pattern pipeline. */
  lemma NerMaskedIsReference(d: Detectors, v: Value)
    requires d.nlpAvailable && !v.None? && !IsBlank(Shown(v))
    requires WellFormed(d.ner(Shown(v)), 0, |Shown(v)|)
    ensures NerMasked(d, v) == PatternMasked(d, Str(Reference(Shown(v), d.ner(Shown(v)), 0)))
  {
    EntityLoopIsReference(Shown(v), d.ner(Shown(v)));
  }

  /** Entities outside NER_TARGET_LABELS are never replaced: when no entity
      has a target label, mask_by_ner is mask_by_pattern on a non-blank cell. */
  lemma NerMaskedIgnoresOtherLabels(d: Detectors, v: Value)
    requires d.nlpAvailable && !v.None? && !IsBlank(Shown(v))
    requires forall i :: 0 <= i < |d.ner(Shown(v))| ==> d.ner(Shown(v))[i].kind !in NerTargetLabels
    ensures NerMasked(d, v) == PatternMasked(d, v)
  {
    var es := d.ner(Shown(v));
    var sorted := SortDesc(es);
    forall i | 0 <= i < |sorted| ensures sorted[i].kind !in NerTargetLabels {
      assert sorted[i] in multiset(sorted);
      assert sorted[i] in multiset(es);
      var j :| 0 <= j < |es| && es[j] == sorted[i];
    }
    NonTargetsKeepText(Shown(v), sorted);
  }
}
