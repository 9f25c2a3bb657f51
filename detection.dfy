// The run-wide detection capability: whether the semantic model loaded, and
// the parts of the program's detectors that are not modelled character by
// character (the model's entity parse and three of the five patterns).
module Detection {

  /** One entity of the parsed document: `ent.start_char`, `ent.end_char`,
      `ent.label_` (as `kind`), offsets counted in characters of the cell text. */
  datatype Span = Span(start: nat, end: nat, kind: string)

  /** The oracles a run works with. `nlpAvailable` is NLP_AVAILABLE, fixed when
      the program starts; `ner` is `nlp(text).ents` in document order; `phone`,
      `mobile` and `address` are `pattern.sub(MASK_VALUE, text)` for the second,
      third and fifth entries of PATTERNS. */
  datatype Detectors = Detectors(
    nlpAvailable: bool,
    ner: string -> seq<Span>,
    phone: string -> string,
    mobile: string -> string,
    address: string -> string)
}
