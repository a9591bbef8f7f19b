/**
 * The autoresponder of bot.js: its reply table, `procesarMensaje`, the
 * filter deciding which incoming messages get a reply, and the chat id of
 * a scheduled message.
 */
module Bot {
  import opened Wrappers
  import opened Text
  import opened Responder

  /** The `respuestas` object: keywords in declaration order, which is the
      order `for...in` visits them. */
  const Replies: Table := [
    Entry("hola", GreetingReply),
    Entry("horarios", HoursReply),
    Entry("servicios", ServicesReply),
    Entry("contacto", ContactReply),
    Entry("precio", PriceReply),
    Entry("ayuda", HelpReply)
  ]

  const GreetingReply: string := "¡Hola! 👋 Soy tu asistente virtual. ¿En qué puedo ayudarte?"
  const HoursReply: string := "Nuestros horarios de atención son:\n📅 Lunes a Viernes: 9:00 AM - 6:00 PM\n📅 Sábados: 9:00 AM - 2:00 PM\n📅 Domingos: Cerrado"
  const ServicesReply: string := "Ofrecemos los siguientes servicios:\n• Consultoría\n• Soporte técnico\n• Desarrollo de software\n• Capacitaciones"
  const ContactReply: string := "Puedes contactarnos por:\n📧 Email: info@empresa.com\n📞 Teléfono: +1234567890\n🌐 Web: www.empresa.com"
  const PriceReply: string := "Para información sobre precios, por favor contacta a nuestro equipo comercial. Escribe \"contacto\" para obtener los datos."
  const HelpReply: string := "Comandos disponibles:\n• hola - Saludo\n• horarios - Ver horarios\n• servicios - Nuestros servicios\n• contacto - Información de contacto\n• precio - Consultar precios\n• ayuda - Ver esta ayuda"

  /** The reply when no keyword matches. */
  const Fallback: string := "No entiendo tu mensaje. Escribe \"ayuda\" para ver los comandos disponibles o contacta con un humano para asistencia personalizada."

  /** `procesarMensaje(mensaje)`: always one of the six table replies or the
      fallback. */
  function ProcessMessage(message: string): (r: string)
    ensures r in {GreetingReply, HoursReply, ServicesReply, ContactReply, PriceReply, HelpReply, Fallback}
  {
    RepliesListed();
    Respond(Replies, Fallback, message)
  }

  lemma RepliesListed()
    ensures forall i :: 0 <= i < |Replies| ==>
      Replies[i].reply in {GreetingReply, HoursReply, ServicesReply, ContactReply, PriceReply, HelpReply}
  {
    forall i | 0 <= i < |Replies|
      ensures Replies[i].reply in {GreetingReply, HoursReply, ServicesReply, ContactReply, PriceReply, HelpReply}
    {
      var reply := Replies[i].reply;
      if i == 0 {
        assert reply == GreetingReply;
      } else if i == 1 {
        assert reply == HoursReply;
      } else if i == 2 {
        assert reply == ServicesReply;
      } else if i == 3 {
        assert reply == ContactReply;
      } else if i == 4 {
        assert reply == PriceReply;
      } else {
        assert reply == HelpReply;
      }
    }
  }

  /** The table's keywords are distinct and already in normal form, so an
      exact match can hit each of them. */
  lemma KeywordsUniqueAndNormal()
    ensures UniqueKeywords(Replies)
    ensures forall i :: 0 <= i < |Replies| ==> IsNormal(Replies[i].keyword)
  {
  }

  /** Every reply is non-empty, so an exact match is always taken, and none
      is the fallback, so the fallback means that nothing matched. */
  lemma RepliesDistinctFromFallback()
    ensures forall i :: 0 <= i < |Replies| ==> Truthy(Replies[i].reply) && Replies[i].reply != Fallback
  {
  }

  /** Each keyword of `respuestas`, sent on its own, is answered with its
      own reply. */
  lemma KeywordGetsOwnReply(i: nat)
    requires i < |Replies|
    ensures ProcessMessage(Replies[i].keyword) == Replies[i].reply
  {
    KeywordsUniqueAndNormal();
    RepliesDistinctFromFallback();
    NormalFixed(Replies[i].keyword);
    RespondExact(Replies, Fallback, Replies[i].keyword, i);
  }

  /** No keyword occurs inside a later one: each earlier keyword has a
      character the later one lacks. */
  lemma KeywordsNotNested()
    ensures NoEarlierKeywordInside(Replies)
  {
    forall i, j | 0 <= j < i < |Replies|
      ensures !Includes(Replies[i].keyword, Replies[j].keyword)
    {
      if i < 3 {
        EarlierKeywordNotInsideFirst(i, j);
      } else if i == 3 {
        EarlierKeywordNotInsideContacto(j);
      } else {
        EarlierKeywordNotInsideLast(i, j);
      }
    }
  }

  lemma EarlierKeywordNotInsideFirst(i: nat, j: nat)
    requires j < i < 3
    ensures !Includes(Replies[i].keyword, Replies[j].keyword)
  {
    var later, earlier := Replies[i].keyword, Replies[j].keyword;
    if i == 1 && j == 0 {
      assert later == "horarios" && earlier == "hola";
      IncludedCharsOccur(later, earlier, 2);
    } else if i == 2 && j == 0 {
      assert later == "servicios" && earlier == "hola";
      IncludedCharsOccur(later, earlier, 0);
    } else {
      assert later == "servicios" && earlier == "horarios";
      IncludedCharsOccur(later, earlier, 0);
    }
  }

  lemma EarlierKeywordNotInsideContacto(j: nat)
    requires j < 3
    ensures !Includes(Replies[3].keyword, Replies[j].keyword)
  {
    var later, earlier := Replies[3].keyword, Replies[j].keyword;
    assert later == "contacto";
    if j == 0 {
      assert earlier == "hola";
    } else if j == 1 {
      assert earlier == "horarios";
    } else {
      assert earlier == "servicios";
    }
    IncludedCharsOccur(later, earlier, 0);
  }

  lemma EarlierKeywordNotInsideLast(i: nat, j: nat)
    requires j < i && 4 <= i < |Replies|
    ensures !Includes(Replies[i].keyword, Replies[j].keyword)
  {
    var later, earlier := Replies[i].keyword, Replies[j].keyword;
    if i == 4 && j == 0 {
      assert later == "precio" && earlier == "hola";
      IncludedCharsOccur(later, earlier, 0);
    } else if i == 4 && j == 1 {
      assert later == "precio" && earlier == "horarios";
      IncludedCharsOccur(later, earlier, 0);
    } else if i == 4 && j == 2 {
      assert later == "precio" && earlier == "servicios";
      IncludedCharsOccur(later, earlier, 0);
    } else if i == 4 && j == 3 {
      assert later == "precio" && earlier == "contacto";
      IncludedCharsOccur(later, earlier, 2);
    } else if i == 5 && j == 0 {
      assert later == "ayuda" && earlier == "hola";
      IncludedCharsOccur(later, earlier, 0);
    } else if i == 5 && j == 1 {
      assert later == "ayuda" && earlier == "horarios";
      IncludedCharsOccur(later, earlier, 0);
    } else if i == 5 && j == 2 {
      assert later == "ayuda" && earlier == "servicios";
      IncludedCharsOccur(later, earlier, 0);
    } else if i == 5 && j == 3 {
      assert later == "ayuda" && earlier == "contacto";
      IncludedCharsOccur(later, earlier, 0);
    } else {
      assert later == "ayuda" && earlier == "precio";
      IncludedCharsOccur(later, earlier, 0);
    }
  }

  /** For this table the exact-match step never changes the answer: every
      reply is the scan's reply for the normalised message. */
  lemma ProcessMessageIsScan(message: string)
    ensures ProcessMessage(message) == ScanReply(Replies, Fallback, Normalize(message))
  {
    KeywordsUniqueAndNormal();
    KeywordsNotNested();
    ExactStepAgreesWithScan(Replies, Fallback, message);
  }

  /** Lifts facts about the keywords, written out, to the first `n`
      entries of the table. */
  lemma KeywordsAbsentBefore(text: string, n: nat)
    requires n <= |Replies|
    requires n > 0 ==> !Includes(text, "hola")
    requires n > 1 ==> !Includes(text, "horarios")
    requires n > 2 ==> !Includes(text, "servicios")
    requires n > 3 ==> !Includes(text, "contacto")
    requires n > 4 ==> !Includes(text, "precio")
    requires n > 5 ==> !Includes(text, "ayuda")
    ensures forall j :: 0 <= j < n ==> !Includes(text, Replies[j].keyword)
  {
    forall j | 0 <= j < n ensures !Includes(text, Replies[j].keyword) {
      var keyword := Replies[j].keyword;
      if j == 0 {
        assert keyword == "hola";
      } else if j == 1 {
        assert keyword == "horarios";
      } else if j == 2 {
        assert keyword == "servicios";
      } else if j == 3 {
        assert keyword == "contacto";
      } else if j == 4 {
        assert keyword == "precio";
      } else {
        assert keyword == "ayuda";
      }
    }
  }

  /** With this table the fallback reply means exactly that the
      normalised message contains no keyword. */
  lemma ProcessMessageFallbackIff(message: string)
    ensures ProcessMessage(message) == Fallback
            <==> forall j :: 0 <= j < |Replies| ==> !Includes(Normalize(message), Replies[j].keyword)
  {
    RepliesDistinctFromFallback();
    RespondFallbackIff(Replies, Fallback, message);
  }

  // ---------------------------------------------------------------------
  // The `'message'` handler's filter
  // ---------------------------------------------------------------------

  /** What the handler reads from an incoming message: its type tag
      (`"chat"` for plain text), whether the bot's own account sent it, and
      its body. */
  datatype IncomingMessage = IncomingMessage(kind: string, fromMe: bool, body: string)

  /** The handler's guard chain, with `chatIsGroup` the `isGroup` flag of
      the message's chat: the reply it sends, or `None` when it returns
      early. A reply is sent exactly for a text message in a one-to-one chat
      that the bot did not send itself, and it is `procesarMensaje` of the
      body. */
  function HandleMessage(message: IncomingMessage, chatIsGroup: bool): (reply: Option<string>)
    ensures reply.Some? <==> message.kind == "chat" && !chatIsGroup && !message.fromMe
    ensures reply.Some? ==> reply.value == ProcessMessage(message.body)
  {
    if message.kind != "chat" then None
    else if chatIsGroup then None
    else if message.fromMe then None
    else Some(ProcessMessage(message.body))
  }

  // ---------------------------------------------------------------------
  // Scheduled messages
  // ---------------------------------------------------------------------

  /** Suffix of the chat id of an individual (non-group) contact. */
  const IndividualSuffix: string := "@c.us"

  /** The chat id `enviarMensajeProgramado` sends to. */
  function ChatId(number: string): (id: string)
    ensures |id| == |number| + |IndividualSuffix|
    ensures id[..|number|] == number && id[|number|..] == IndividualSuffix
  {
    number + IndividualSuffix
  }

  /** Reads the number back out of an individual chat id. */
  function NumberOfChatId(id: string): Option<string> {
    if |id| >= |IndividualSuffix| && id[|id| - |IndividualSuffix|..] == IndividualSuffix
    then Some(id[..|id| - |IndividualSuffix|])
    else None
  }

  /** A chat id gives back the number it was built from. */
  lemma ChatIdRoundTrip(number: string)
    ensures NumberOfChatId(ChatId(number)) == Some(number)
  {
    var id := ChatId(number);
    assert id[..|id| - |IndividualSuffix|] == number;
    assert id[|id| - |IndividualSuffix|..] == IndividualSuffix;
  }

  /** Every id a number can be read from is that number's chat id, so chat
      ids are exactly the strings ending in the individual suffix. */
  lemma ChatIdOnlyFrom(id: string, number: string)
    requires NumberOfChatId(id) == Some(number)
    ensures ChatId(number) == id
  {
    assert id == id[..|id| - |IndividualSuffix|] + id[|id| - |IndividualSuffix|..];
  }
}
