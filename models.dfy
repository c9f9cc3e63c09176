/** The records of src/models/model.py that the lexical annotator returns. */
module Models {

  /** One annotated word: the word, its number of occurrences, its grammatical label. */
  datatype WordInfo = WordInfo(word: string, freq: int, gramInfo: string)

  /** The annotation of a text: its words and how many there are. */
  datatype TextInfo = TextInfo(wordsInfo: seq<WordInfo>, wordsCount: int)
}
