/**
 * A flashcard record and the defaults `store` fills into it before writing it.
 * A field the JavaScript object may lack is an `Option`; JavaScript's `||` keeps a
 * value that is truthy, so a missing field, an empty string and the number 0 are
 * replaced.
 */
module Cards {
  import opened Wrappers

  /** The fields of a flashcard object; `id` is the `@id` field and `kind` the `@type` field. */
  datatype Flashcard = Flashcard(
    id: Option<string>,
    kind: Option<string>,
    frontText: Option<string>,
    backText: Option<string>,
    hint: Option<string>,
    familiarity: Option<int>,
    reviewedCount: Option<int>,
    group: Option<string>,
    reviewedAt: Option<string>,
    createdAt: Option<string>,
    updatedAt: Option<string>)

  const FLASHCARD_TYPE := "flashcard"
  const DEFAULT_GROUP := "default"

  /** JavaScript truthiness of a string field: present and not empty. */
  predicate TruthyText(o: Option<string>) {
    o.Some? && o.value != ""
  }

  /** JavaScript truthiness of a number field: present and not zero. */
  predicate TruthyNumber(o: Option<int>) {
    o.Some? && o.value != 0
  }

  /** `o || fallback` for a string field. */
  function TextOr(o: Option<string>, fallback: string): (r: Option<string>) {
    if TruthyText(o) then o else Some(fallback)
  }

  /** `o || fallback` for a number field. */
  function NumberOr(o: Option<int>, fallback: int): (r: Option<int>) {
    if TruthyNumber(o) then o else Some(fallback)
  }

  /** The assignments `store` makes to its argument, given the formatted current date. */
  function Normalize(card: Flashcard, date: string): (r: Flashcard) {
    card.(
      id := TextOr(card.id, date),
      group := TextOr(card.group, DEFAULT_GROUP),
      kind := Some(FLASHCARD_TYPE),
      familiarity := NumberOr(card.familiarity, 0),
      reviewedCount := NumberOr(card.reviewedCount, 0),
      reviewedAt := TextOr(card.reviewedAt, date),
      updatedAt := Some(date),
      createdAt := if !TruthyText(card.createdAt) then Some(date) else card.createdAt)
  }

  /** The fields the declared schema lists as required are all present. */
  predicate HasRequiredFields(card: Flashcard) {
    card.id.Some? && card.kind.Some? && card.frontText.Some? && card.group.Some? && card.createdAt.Some?
  }

  /** What every record `store` produces looks like, for a non-empty date. */
  predicate Normalized(card: Flashcard) {
    && TruthyText(card.id)
    && TruthyText(card.group)
    && card.kind == Some(FLASHCARD_TYPE)
    && card.familiarity.Some?
    && card.reviewedCount.Some?
    && TruthyText(card.reviewedAt)
    && TruthyText(card.createdAt)
    && card.updatedAt.Some?
  }

  /** A truthy `@id`, `group`, `reviewedAt` or `createdAt` is kept; a falsy one becomes
      the date, or "default" for the group. */
  lemma NormalizeFillsIdentity(card: Flashcard, date: string)
    ensures var r := Normalize(card, date);
      && (if TruthyText(card.id) then r.id == card.id else r.id == Some(date))
      && (if TruthyText(card.group) then r.group == card.group else r.group == Some(DEFAULT_GROUP))
      && (if TruthyText(card.reviewedAt) then r.reviewedAt == card.reviewedAt else r.reviewedAt == Some(date))
      && (if TruthyText(card.createdAt) then r.createdAt == card.createdAt else r.createdAt == Some(date))
  {
  }

  /** Whatever the input held, `@type` becomes "flashcard" and `updatedAt` the date. */
  lemma NormalizeStamps(card: Flashcard, date: string)
    ensures Normalize(card, date).kind == Some(FLASHCARD_TYPE)
    ensures Normalize(card, date).updatedAt == Some(date)
  {
  }

  /** A missing counter becomes 0; any present value, 0 included, is kept. */
  lemma NormalizeCounters(card: Flashcard, date: string)
    ensures Normalize(card, date).familiarity == Some(card.familiarity.GetOr(0))
    ensures Normalize(card, date).reviewedCount == Some(card.reviewedCount.GetOr(0))
  {
  }

  /** The card's text is never touched. */
  lemma NormalizeKeepsText(card: Flashcard, date: string)
    ensures Normalize(card, date).frontText == card.frontText
    ensures Normalize(card, date).backText == card.backText
    ensures Normalize(card, date).hint == card.hint
  {
  }

  /** With a non-empty date, every result is normalised. */
  lemma NormalizeIsNormalized(card: Flashcard, date: string)
    requires date != ""
    ensures Normalized(Normalize(card, date))
  {
  }

  /** Normalising a normalised record changes nothing but `updatedAt`. */
  lemma NormalizeNormalized(card: Flashcard, date: string)
    requires Normalized(card)
    ensures Normalize(card, date) == card.(updatedAt := Some(date))
  {
  }

  /** Normalising twice with the same date is normalising once. */
  lemma NormalizeIdempotent(card: Flashcard, date: string)
    requires date != ""
    ensures Normalize(Normalize(card, date), date) == Normalize(card, date)
  {
    NormalizeIsNormalized(card, date);
    NormalizeNormalized(Normalize(card, date), date);
  }

  /** Storing a stored record again later moves only `updatedAt`: `createdAt`, `@id` and
      `group`, and so the record's path, stay as they were. */
  lemma NormalizeRestamp(card: Flashcard, first: string, later: string)
    requires first != ""
    ensures Normalize(Normalize(card, first), later) == Normalize(card, first).(updatedAt := Some(later))
    ensures Normalize(Normalize(card, first), later).createdAt == Normalize(card, first).createdAt
  {
    NormalizeIsNormalized(card, first);
    NormalizeNormalized(Normalize(card, first), later);
  }

  /** Of the schema's required fields, `store` fills all but `frontText`: the result has them
      all exactly when the input has a `frontText`. */
  lemma NormalizeRequiredFields(card: Flashcard, date: string)
    ensures HasRequiredFields(Normalize(card, date)) <==> card.frontText.Some?
  {
  }
}
