// The semantic tier of mask_by_ner: entities sorted by start offset from the
// last to the first, each target entity spliced out of the text and replaced
// by the marker.
module EntityTier {
  import opened MaskSettings
  import opened Detection

  function Min(a: nat, b: nat): nat {
    if a < b then a else b
  }

  /** `masked[:start] + MASK_VALUE + masked[end:]`, with Python's slices
      clamped to the length of the text. */
  function Splice(text: string, e: Span): string {
    text[..Min(e.start, |text|)] + MaskMarker + text[Min(e.end, |text|)..]
  }

  /** One turn of the entity loop: only entities with a target label are
      replaced. */
  function Step(text: string, e: Span): string {
    if e.kind in NerTargetLabels then Splice(text, e) else text
  }

  /** The entity loop over `ents` in the order given. */
  function Redact(text: string, ents: seq<Span>): string
    decreases |ents|
  {
    if |ents| == 0 then text else Redact(Step(text, ents[0]), ents[1..])
  }

  // ---------------------------------------------------------------------
  // sorted(doc.ents, key=lambda e: e.start_char, reverse=True)

  ghost predicate SortedDesc(s: seq<Span>) {
    forall i, j :: 0 <= i < j < |s| ==> s[i].start >= s[j].start
  }

  /** Places `e` after every entity whose start is not below its own, in a
      sequence already descending by start: the result is descending and
      holds one entity more. */
  function InsertDesc(e: Span, r: seq<Span>): (out: seq<Span>)
    requires SortedDesc(r)
    ensures SortedDesc(out)
    ensures multiset(out) == multiset(r) + multiset{e}
    ensures out[0] == e || (|r| > 0 && out[0] == r[0])
    decreases |r|
  {
    if |r| == 0 then [e]
    else if r[0].start >= e.start then
      assert r == [r[0]] + r[1..];
      var rest := InsertDesc(e, r[1..]);
      ConsSorted(r[0], rest);
      [r[0]] + rest
    else
      ConsSorted(e, r);
      [e] + r
  }

  lemma ConsSorted(x: Span, s: seq<Span>)
    requires SortedDesc(s) && (|s| > 0 ==> s[0].start <= x.start)
    ensures SortedDesc([x] + s)
  {
    forall i, j | 0 <= i < j < |[x] + s| ensures ([x] + s)[i].start >= ([x] + s)[j].start {
      if i > 0 {
        assert ([x] + s)[i] == s[i - 1];
      }
      assert ([x] + s)[j] == s[j - 1];
    }
  }

  /** `sorted(entities, key=start, reverse=True)`: descending by start, the
      same entities. The order among equal starts is not stated. */
  function SortDesc(s: seq<Span>): (out: seq<Span>)
    ensures SortedDesc(out)
    ensures multiset(out) == multiset(s)
    decreases |s|
  {
    if |s| == 0 then []
    else
      assert s == s[..|s| - 1] + [s[|s| - 1]];
      InsertDesc(s[|s| - 1], SortDesc(s[..|s| - 1]))
  }

  function Reverse(s: seq<Span>): (r: seq<Span>)
    ensures |r| == |s|
    decreases |s|
  {
    if |s| == 0 then [] else [s[|s| - 1]] + Reverse(s[..|s| - 1])
  }

  // ---------------------------------------------------------------------
  // Offsets stay valid

  /** What spaCy guarantees of `doc.ents`: non-empty spans inside the text,
      in document order, not overlapping. `from` bounds the starts below. */
  ghost predicate WellFormed(es: seq<Span>, from: nat, n: nat) {
    (forall i :: 0 <= i < |es| ==> from <= es[i].start < es[i].end <= n)
    && (forall i, j :: 0 <= i < j < |es| ==> es[i].end <= es[j].start)
  }

  /** The reference redaction: walk the original text left to right, keep the
      text between entities, and put the marker in place of each target
      entity, all at the entities' ORIGINAL offsets. */
  function Reference(text: string, es: seq<Span>, from: nat): string
    requires from <= |text| && WellFormed(es, from, |text|)
    decreases |es|
  {
    if |es| == 0 then text[from..]
    else Piece(text, es[0], from) + Reference(text, es[1..], es[0].end)
  }

  /** The text from `from` up to the end of entity `e`, as the reference
      walk emits it. */
  function Piece(text: string, e: Span, from: nat): string
    requires from <= e.start <= e.end <= |text|
  {
    if e.kind in NerTargetLabels then text[from..e.start] + MaskMarker else text[from..e.end]
  }

  lemma PieceLocal(x: string, e: Span, from: nat, b: nat)
    requires from <= e.start <= e.end <= b <= |x|
    ensures Piece(x[..b], e, from) == Piece(x, e, from)
  {
    assert x[..b][from..e.start] == x[from..e.start];
    assert x[..b][from..e.end] == x[from..e.end];
  }

  /** Well-formed entities have strictly increasing starts, so the
      descending sort simply reverses them. */
  lemma {:induction false} SortDescReverses(es: seq<Span>, n: nat)
    requires WellFormed(es, 0, n)
    ensures SortDesc(es) == Reverse(es)
    decreases |es|
  {
    if |es| > 0 {
      var init := es[..|es| - 1];
      var last := es[|es| - 1];
      assert WellFormed(init, 0, n);
      SortDescReverses(init, n);
      if |init| > 0 {
        assert Reverse(init)[0] == init[|init| - 1];
        assert init[|init| - 1].start < last.start;
      }
    }
  }

  /** The reference only reads the text below the last entity end `b`. */
  lemma {:induction false} ReferenceLocal(x: string, es: seq<Span>, from: nat, b: nat)
    requires from <= b <= |x| && WellFormed(es, from, b)
    ensures WellFormed(es, from, |x|) && WellFormed(es, from, |x[..b]|)
    ensures Reference(x, es, from) == Reference(x[..b], es, from) + x[b..]
    decreases |es|
  {
    if |es| > 0 {
      var e := es[0];
      assert WellFormed(es[1..], e.end, b);
      ReferenceLocal(x, es[1..], e.end, b);
      PieceLocal(x, e, from, b);
    } else {
      assert x[from..] == x[..b][from..] + x[b..];
    }
  }

  lemma WellFormedRest(es: seq<Span>, from: nat, n: nat)
    requires |es| > 0 && WellFormed(es, from, n)
    ensures WellFormed(es[1..], es[0].end, n)
  {
  }

  lemma WellFormedInit(init: seq<Span>, l: Span, from: nat, n: nat)
    requires WellFormed(init + [l], from, n)
    ensures WellFormed(init, from, l.start) && from <= l.start < l.end <= n
  {
    var es := init + [l];
    assert es[|init|] == l;
    forall i | 0 <= i < |init| ensures from <= init[i].start < init[i].end <= l.start {
      assert es[i] == init[i];
    }
    forall i, j | 0 <= i < j < |init| ensures init[i].end <= init[j].start {
      assert es[i] == init[i] && es[j] == init[j];
    }
  }

  /** What the text from the start of entity `l` on becomes. */
  function Tail(x: string, l: Span): string
    requires l.start <= l.end <= |x|
  {
    if l.kind in NerTargetLabels then MaskMarker + x[l.end..] else x[l.start..]
  }

  lemma ReferenceSingle(x: string, l: Span, from: nat)
    requires from <= l.start < l.end <= |x|
    ensures WellFormed([l], from, |x|)
    ensures Reference(x, [l], from) == Reference(x[..l.start], [], from) + Tail(x, l)
  {
    assert [l][1..] == [];
    assert x[from..l.end] + x[l.end..] == x[from..l.start] + x[l.start..];
    assert x[..l.start][from..] == x[from..l.start];
  }

  /** Splitting off the last entity of the reference walk. */
  lemma {:induction false} ReferenceLast(x: string, init: seq<Span>, l: Span, from: nat)
    requires from <= |x| && WellFormed(init + [l], from, |x|)
    ensures WellFormed(init, from, l.start) && from <= l.start < l.end <= |x|
    ensures Reference(x, init + [l], from) == Reference(x[..l.start], init, from) + Tail(x, l)
    decreases |init|
  {
    WellFormedInit(init, l, from, |x|);
    if |init| == 0 {
      assert init + [l] == [l];
      ReferenceSingle(x, l, from);
    } else {
      var es := init + [l];
      assert es[0] == init[0] && es[1..] == init[1..] + [l];
      WellFormedRest(es, from, |x|);
      ReferenceLast(x, init[1..], l, init[0].end);
      ReferenceLastStep(x, init, l, from);
    }
  }

  /** The inductive step of ReferenceLast, the hypothesis given as a
      precondition. */
  lemma ReferenceLastStep(x: string, init: seq<Span>, l: Span, from: nat)
    requires |init| > 0 && from <= |x| && WellFormed(init + [l], from, |x|)
    requires WellFormed(init, from, l.start) && l.start < l.end <= |x|
    requires (init + [l])[1..] == init[1..] + [l] && (init + [l])[0] == init[0]
    requires WellFormed(init[1..] + [l], init[0].end, |x|)
    requires WellFormed(init[1..], init[0].end, l.start)
    requires Reference(x, init[1..] + [l], init[0].end)
          == Reference(x[..l.start], init[1..], init[0].end) + Tail(x, l)
    ensures Reference(x, init + [l], from) == Reference(x[..l.start], init, from) + Tail(x, l)
  {
    var h := init[0];
    PieceLocal(x, h, from, l.start);
  }

  /** Applying the entities from the last to the first equals the reference
      splice at the original offsets: no replacement shifts an entity that is
      still to be applied. */
  lemma {:induction false} ReverseRedactMatchesReference(text: string, es: seq<Span>)
    requires WellFormed(es, 0, |text|)
    ensures Redact(text, Reverse(es)) == Reference(text, es, 0)
    decreases |es|
  {
    if |es| > 0 {
      var init := es[..|es| - 1];
      var l := es[|es| - 1];
      assert es == init + [l];
      ReferenceLast(text, init, l, 0);
      var u := Step(text, l);
      assert u[..l.start] == text[..l.start];
      assert u[l.start..] == Tail(text, l);
      ReferenceLocal(u, init, 0, l.start);
      ReverseRedactMatchesReference(u, init);
      assert Reverse(es) == [l] + Reverse(init);
      assert Reverse(es)[1..] == Reverse(init);
    }
  }

  /** The entity loop of mask_by_ner, on well-formed entities, is the
      reference redaction. */
  lemma EntityLoopIsReference(text: string, es: seq<Span>)
    requires WellFormed(es, 0, |text|)
    ensures Redact(text, SortDesc(es)) == Reference(text, es, 0)
  {
    SortDescReverses(es, |text|);
    ReverseRedactMatchesReference(text, es);
  }

  /** Entities with other labels change nothing. */
  lemma {:induction false} NonTargetsKeepText(text: string, es: seq<Span>)
    requires forall i :: 0 <= i < |es| ==> es[i].kind !in NerTargetLabels
    ensures Redact(text, es) == text
    decreases |es|
  {
    if |es| > 0 {
      NonTargetsKeepText(text, es[1..]);
    }
  }
}
