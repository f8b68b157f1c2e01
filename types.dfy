/** The records exchanged between the upload screen, the review session and
    the results sink (src/renderer/types/index.ts). */
module Types {

  /** One vocabulary item, as produced by the generation or paste step. The
      session never edits an item; it only reorders and repeats it. */
  datatype VocabularyWord = VocabularyWord(
    term: string,
    beginTimestamp: string,
    endTimestamp: string,
    englishMeaning: string,
    turkishMeaning: string,
    sampleSentenceInEnglish: string,
    sampleSentenceInTurkish: string)

  /** The answer recorded for one term: the word as it was shown, its latest
      answer `known`, and `wasUnknown`, which is true once the term was ever
      answered "didn't know". The declared TypeScript interface has no
      `wasUnknown`, but the session always writes it. */
  datatype WordResult = WordResult(word: VocabularyWord, known: bool, wasUnknown: bool)
}
