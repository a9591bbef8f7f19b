/**
 * Example messages for `procesarMensaje`, one per kind of answer (exact
 * keyword, keyword in upper case with padding, keyword inside a sentence,
 * no keyword, empty message), proved about the model of bot.js.
 */
module Scenarios {
  import opened Text
  import opened Responder
  import opened Bot

  /** "hola" is answered with the greeting. */
  lemma GreetingScenario()
    ensures ProcessMessage("hola") == GreetingReply
  {
    KeywordsUniqueAndNormal();
    NormalFixed("hola");
    RespondExact(Replies, Fallback, "hola", 0);
  }

  /** Upper case and surrounding spaces do not matter: "  HOLA  " is
      answered with the greeting too. */
  lemma ShoutedGreetingScenario()
    ensures ProcessMessage("  HOLA  ") == GreetingReply
  {
    assert Lower("  HOLA  ") == "  " + "hola" + "  ";
    TrimUnique("  ", "hola", "  ");
    KeywordsUniqueAndNormal();
    RespondExact(Replies, Fallback, "  HOLA  ", 0);
  }

  lemma HoursSentenceWords()
    ensures Lower("Quisiera saber los ") == "quisiera saber los "
    ensures Lower("HORARIOS") == "horarios"
    ensures Lower(" de atención") == " de atención"
  {
    assert Lower("Quisiera saber los ") == "quisiera saber los ";
    assert Lower("HORARIOS") == "horarios";
  }

  lemma HoursSentenceLower()
    ensures Lower("Quisiera saber los HORARIOS de atención") == "quisiera saber los horarios de atención"
  {
    var a, b, c := "Quisiera saber los ", "HORARIOS", " de atención";
    assert "Quisiera saber los HORARIOS de atención" == a + b + c;
    LowerConcat(a + b, c);
    LowerConcat(a, b);
    HoursSentenceWords();
    assert "quisiera saber los horarios de atención" == "quisiera saber los " + "horarios" + " de atención";
  }

  lemma HoursSentenceNormal()
    ensures Normalize("Quisiera saber los HORARIOS de atención") == "quisiera saber los horarios de atención"
  {
    HoursSentenceLower();
    NormalizeOfTrimmedLower("Quisiera saber los HORARIOS de atención", "quisiera saber los horarios de atención");
  }

  /** The only 'h' of the sentence starts "horarios", not "hola". */
  lemma HoursSentenceLacksHola()
    ensures !Includes("quisiera saber los horarios de atención", "hola")
  {
    assert "quisiera saber los horarios de atención" == "quisiera saber los " + "horarios de atención";
    SkipWithoutFirstChar("quisiera saber los ", "horarios de atención", "hola");
    IncludesStep("horarios de atención", "hola");
    assert "horarios de atención"[..4][2] == 'r';
    assert "horarios de atención"[1..] == "orarios de atención";
    IncludedCharsOccur("orarios de atención", "hola", 0);
  }

  lemma HoursSentenceHasHorarios()
    ensures Includes("quisiera saber los horarios de atención", "horarios")
  {
    assert "quisiera saber los horarios de atención" == "quisiera saber los " + "horarios" + " de atención";
    IncludesInfix("quisiera saber los ", "horarios", " de atención");
  }

  /** A question that mentions the hours in capitals gets the hours reply. */
  lemma HoursScenario()
    ensures ProcessMessage("Quisiera saber los HORARIOS de atención") == HoursReply
  {
    HoursSentenceNormal();
    HoursSentenceLacksHola();
    HoursSentenceHasHorarios();
    KeywordsAbsentBefore("quisiera saber los horarios de atención", 1);
    FirstIncludedAt(Replies, "quisiera saber los horarios de atención", 1);
    ProcessMessageIsScan("Quisiera saber los HORARIOS de atención");
  }

  lemma HelpSentenceKeywords()
    ensures !Includes("ayuda por favor", "hola") && !Includes("ayuda por favor", "horarios")
    ensures !Includes("ayuda por favor", "servicios") && !Includes("ayuda por favor", "contacto")
    ensures !Includes("ayuda por favor", "precio") && Includes("ayuda por favor", "ayuda")
  {
    var text := "ayuda por favor";
    IncludedCharsOccur(text, "hola", 0);
    IncludedCharsOccur(text, "horarios", 0);
    IncludedCharsOccur(text, "servicios", 0);
    IncludedCharsOccur(text, "contacto", 0);
    IncludedCharsOccur(text, "precio", 2);
    assert text == [] + "ayuda" + " por favor";
    IncludesInfix([], "ayuda", " por favor");
  }

  /** "ayuda por favor" gets the help reply. */
  lemma HelpScenario()
    ensures ProcessMessage("ayuda por favor") == HelpReply
  {
    NormalFixed("ayuda por favor");
    HelpSentenceKeywords();
    KeywordsAbsentBefore("ayuda por favor", 5);
    FirstIncludedAt(Replies, "ayuda por favor", 5);
    ProcessMessageIsScan("ayuda por favor");
  }

  lemma NoKeywordFacts()
    ensures !Includes("xyz123", "hola") && !Includes("xyz123", "horarios")
    ensures !Includes("xyz123", "servicios") && !Includes("xyz123", "contacto")
    ensures !Includes("xyz123", "precio") && !Includes("xyz123", "ayuda")
  {
    var text := "xyz123";
    IncludedCharsOccur(text, "hola", 0);
    IncludedCharsOccur(text, "horarios", 0);
    IncludedCharsOccur(text, "servicios", 0);
    IncludedCharsOccur(text, "contacto", 0);
    IncludedCharsOccur(text, "precio", 0);
    IncludedCharsOccur(text, "ayuda", 0);
  }

  /** Text without any keyword gets the fallback. */
  lemma NoKeywordScenario()
    ensures ProcessMessage("xyz123") == Fallback
  {
    NormalFixed("xyz123");
    NoKeywordFacts();
    KeywordsAbsentBefore("xyz123", 6);
    RespondNoKeyword(Replies, Fallback, "xyz123");
  }

  /** The empty message gets the fallback. */
  lemma EmptyMessageScenario()
    ensures ProcessMessage("") == Fallback
  {
    NormalFixed("");
    KeywordsAbsentBefore("", 6);
    RespondNoKeyword(Replies, Fallback, "");
  }
}
