/**
 * `procesarMensaje` exactly as bot.js writes its exact-match step:
 * `respuestas[texto]` is a JavaScript property access, which also finds
 * the properties every object inherits from `Object.prototype`.
 */
module PrototypeLookup {
  import opened Wrappers
  import opened Text
  import opened Responder
  import opened Bot

  /** The values the property access can produce. */
  datatype JsValue =
    | Undefined
    | Str(s: string)
    | Inherited(name: string)   // a method or object from Object.prototype

  /** The properties of `Object.prototype` whose names have no upper-case
      letter, so that a lower-cased message can name them; all the others
      (`toString`, `valueOf`, `hasOwnProperty`, ...) are written in camel
      case. */
  const LowerCaseInheritedNames: set<string> := {"constructor", "__proto__"}

  /** `table[key]` with the prototype chain, for the lower-case keys
      `procesarMensaje` looks up: own keys first, then the inherited ones. */
  function PropertyGet(t: Table, key: string): (v: JsValue)
    requires Lower(key) == key
    ensures v.Str? <==> Lookup(t, key).Some?
    ensures v.Str? ==> Lookup(t, key) == Some(v.s)
    ensures v.Inherited? <==> Lookup(t, key).None? && key in LowerCaseInheritedNames
  {
    match Lookup(t, key)
    case Some(reply) => Str(reply)
    case None => if key in LowerCaseInheritedNames then Inherited(key) else Undefined
  }

  /** JavaScript truthiness: `undefined` and the empty string are falsy,
      functions and objects are truthy. */
  predicate JsTruthy(v: JsValue) {
    match v
    case Undefined => false
    case Str(s) => s != ""
    case Inherited(_) => true
  }

  /** `procesarMensaje` as written. */
  function ProcessMessageAsWritten(message: string): (r: JsValue)
    ensures r.Str? || r.Inherited?
  {
    var text := Normalize(message);
    var exact := PropertyGet(Replies, text);
    if JsTruthy(exact) then exact
    else Str(ScanReply(Replies, Fallback, text))
  }

  /** No keyword of the table is an inherited name. */
  lemma KeywordsNotInherited()
    ensures forall i :: 0 <= i < |Replies| ==> Replies[i].keyword !in LowerCaseInheritedNames
  {
    forall i | 0 <= i < |Replies| ensures Replies[i].keyword !in LowerCaseInheritedNames {
      var keyword := Replies[i].keyword;
      if i == 0 {
        assert keyword == "hola";
      } else if i == 1 {
        assert keyword == "horarios";
      } else if i == 2 {
        assert keyword == "servicios";
      } else if i == 3 {
        assert keyword == "contacto";
      } else if i == 4 {
        assert keyword == "precio";
      } else {
        assert keyword == "ayuda";
      }
    }
  }

  /** The source and the own-keys model agree on every message that does
      not normalise to an inherited name; on those, the source returns the
      inherited value instead of a string. */
  lemma AsWrittenAgreesOffPrototype(message: string)
    ensures Normalize(message) !in LowerCaseInheritedNames
            ==> ProcessMessageAsWritten(message) == Str(ProcessMessage(message))
    ensures Normalize(message) in LowerCaseInheritedNames
            ==> ProcessMessageAsWritten(message) == Inherited(Normalize(message))
  {
    var text := Normalize(message);
    if text in LowerCaseInheritedNames {
      KeywordsNotInherited();
      assert Lookup(Replies, text).None?;
    }
  }

  lemma ConstructorKeywords()
    ensures !Includes("constructor", "hola") && !Includes("constructor", "horarios")
    ensures !Includes("constructor", "servicios") && !Includes("constructor", "contacto")
    ensures !Includes("constructor", "precio") && !Includes("constructor", "ayuda")
  {
    IncludedCharsOccur("constructor", "hola", 0);
    IncludedCharsOccur("constructor", "horarios", 0);
    IncludedCharsOccur("constructor", "servicios", 3);
    IncludedCharsOccur("constructor", "contacto", 4);
    IncludedCharsOccur("constructor", "precio", 0);
    IncludedCharsOccur("constructor", "ayuda", 0);
  }

  /** The message "Constructor" makes the source hand the `Object`
      constructor function to the reply call, where the own-keys model
      answers with the fallback text. */
  lemma ConstructorLeaksPrototype()
    ensures ProcessMessageAsWritten("Constructor") == Inherited("constructor")
    ensures ProcessMessage("Constructor") == Fallback
  {
    assert Lower("Constructor") == [] + "constructor" + [];
    TrimUnique([], "constructor", []);
    AsWrittenAgreesOffPrototype("Constructor");
    ConstructorKeywords();
    KeywordsAbsentBefore("constructor", 6);
    RespondNoKeyword(Replies, Fallback, "Constructor");
  }
}
