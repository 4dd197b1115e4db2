/** The five outcomes of word validation and the reply text each one carries. */
module Constants {
  import opened Wrappers

  datatype ValidationResult = Valid | Empty | TooLong | NotEnglish | InvalidParts

  const EmptyText := "❗ Введи интересующее слово"
  const TooLongText := "🛑 Слишком длинное слово. Введи другое"
  const NotEnglishText := "❌ 🇬🇧 Используй только английские буквы (допускается дефис в середине слова)."
  const InvalidPartsText := "⚠️ Каждая часть слова должна быть минимум из 2 букв"

  /**
   * The enum member's value: the message the bot sends for a rejection.
   * `Valid` has the value `None`, so only rejections produce a reply.
   */
  function Message(v: ValidationResult): (r: Option<string>)
    ensures r.None? <==> v == Valid
    ensures r.Some? ==> |r.value| > 0
  {
    match v
    case Valid => None
    case Empty => Some(EmptyText)
    case TooLong => Some(TooLongText)
    case NotEnglish => Some(NotEnglishText)
    case InvalidParts => Some(InvalidPartsText)
  }

  /** Distinct outcomes carry distinct messages, so the reply identifies the outcome. */
  lemma MessageInjective(v: ValidationResult, w: ValidationResult)
    ensures Message(v) == Message(w) <==> v == w
  {
  }
}
