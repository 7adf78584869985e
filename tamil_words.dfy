/** Tamil words that more than one checker's rules mention. */
module TamilWords {
  /** "he". */
  const He: string := "அவன்"
  /** "they" (plural, honorific). */
  const PluralSubject: string := "அவர்கள்"
  /** "comes", singular masculine. */
  const SingularVerb: string := "வருகிறான்"
  /** "come", plural. */
  const PluralVerb: string := "வருகிறார்கள்"
}
