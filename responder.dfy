/**
 * The keyword responder of `procesarMensaje`, over any ordered keyword
 * table: normalise the message, answer an exact keyword match, otherwise
 * the first keyword (in table order) the text contains, otherwise a fixed
 * fallback reply.
 */
module Responder {
  import opened Wrappers
  import opened Text

  /** One property of the reply object: a keyword and its canned reply. */
  datatype Entry = Entry(keyword: string, reply: string)

  /** The reply object's own properties, in their enumeration order. */
  type Table = seq<Entry>

  predicate UniqueKeywords(t: Table) {
    forall i, j :: 0 <= i < j < |t| ==> t[i].keyword != t[j].keyword
  }

  /** A JavaScript string value is truthy exactly when it is not empty. */
  predicate Truthy(v: string) {
    v != ""
  }

  /** Property access `table[key]` on the table's own keys; `None` stands
      for `undefined`. */
  function Lookup(t: Table, key: string): (r: Option<string>)
    ensures r.None? <==> forall i :: 0 <= i < |t| ==> t[i].keyword != key
    ensures r.Some? ==> exists i :: 0 <= i < |t| && t[i].keyword == key && t[i].reply == r.value
  {
    if |t| == 0 then None
    else if t[0].keyword == key then Some(t[0].reply)
    else
      var r := Lookup(t[1..], key);
      assert forall i :: 1 <= i < |t| ==> t[i] == t[1..][i - 1];
      r
  }

  /** With unique keywords, looking a keyword up gives its own reply. */
  lemma {:induction false} LookupFinds(t: Table, i: nat)
    requires UniqueKeywords(t) && i < |t|
    ensures Lookup(t, t[i].keyword) == Some(t[i].reply)
  {
    if i > 0 {
      assert t[0].keyword != t[i].keyword;
      assert t[1..][i - 1] == t[i];
      LookupFinds(t[1..], i - 1);
    }
  }

  /** The `for...in` scan: the position of the first keyword, in table
      order, that the text contains. */
  function FirstIncluded(t: Table, text: string): (r: Option<nat>)
    ensures r.Some? ==> r.value < |t| && Includes(text, t[r.value].keyword)
    ensures r.Some? ==> forall j :: 0 <= j < r.value ==> !Includes(text, t[j].keyword)
    ensures r.None? <==> forall j :: 0 <= j < |t| ==> !Includes(text, t[j].keyword)
  {
    if |t| == 0 then None
    else if Includes(text, t[0].keyword) then Some(0)
    else
      match FirstIncluded(t[1..], text)
      case None => None
      case Some(k) => Some(k + 1)
  }

  /** The scan's answer is pinned down by its contract: if keyword `i` is
      contained and no earlier one is, the scan stops at `i`. */
  lemma {:induction false} FirstIncludedAt(t: Table, text: string, i: nat)
    requires i < |t| && Includes(text, t[i].keyword)
    requires forall j :: 0 <= j < i ==> !Includes(text, t[j].keyword)
    ensures FirstIncluded(t, text) == Some(i)
  {
    if i > 0 {
      assert !Includes(text, t[0].keyword);
      assert t[1..][i - 1] == t[i];
      assert forall j :: 0 <= j < i - 1 ==> t[1..][j] == t[j + 1];
      FirstIncludedAt(t[1..], text, i - 1);
    }
  }

  /** What the scan answers: the first contained keyword's reply, or the
      fallback when no keyword is contained. */
  function ScanReply(t: Table, fallback: string, text: string): (r: string)
    ensures r == fallback || exists i :: 0 <= i < |t| && r == t[i].reply
  {
    match FirstIncluded(t, text)
    case Some(i) => t[i].reply
    case None => fallback
  }

  /** `procesarMensaje` over table `t` with fallback reply `fallback`. The
      reply is always one of the table's replies or the fallback. */
  function Respond(t: Table, fallback: string, message: string): (r: string)
    ensures r == fallback || exists i :: 0 <= i < |t| && r == t[i].reply
  {
    var text := Normalize(message);
    var exact := Lookup(t, text);
    if exact.Some? && Truthy(exact.value) then exact.value
    else ScanReply(t, fallback, text)
  }

  /** An exact keyword match is answered with that keyword's reply, before
      and regardless of the substring scan. */
  lemma RespondExact(t: Table, fallback: string, message: string, i: nat)
    requires UniqueKeywords(t) && i < |t|
    requires Normalize(message) == t[i].keyword && Truthy(t[i].reply)
    ensures Respond(t, fallback, message) == t[i].reply
  {
    LookupFinds(t, i);
  }

  /** Without an exact match, the reply is that of the first keyword in
      table order the normalised text contains. */
  lemma RespondFirstIncluded(t: Table, fallback: string, message: string, i: nat)
    requires i < |t|
    requires forall j :: 0 <= j < |t| && t[j].keyword == Normalize(message) ==> !Truthy(t[j].reply)
    requires Includes(Normalize(message), t[i].keyword)
    requires forall j :: 0 <= j < i ==> !Includes(Normalize(message), t[j].keyword)
    ensures Respond(t, fallback, message) == t[i].reply
  {
    FirstIncludedAt(t, Normalize(message), i);
  }

  /** A text that contains no keyword gets the fallback reply: it cannot
      match a keyword exactly either, since every text contains itself. */
  lemma RespondNoKeyword(t: Table, fallback: string, message: string)
    requires forall j :: 0 <= j < |t| ==> !Includes(Normalize(message), t[j].keyword)
    ensures Respond(t, fallback, message) == fallback
  {
    IncludesSelf(Normalize(message));
  }

  /** When no reply equals the fallback, the fallback is given exactly
      when the text contains no keyword. */
  lemma RespondFallbackIff(t: Table, fallback: string, message: string)
    requires forall j :: 0 <= j < |t| ==> t[j].reply != fallback
    ensures Respond(t, fallback, message) == fallback
            <==> forall j :: 0 <= j < |t| ==> !Includes(Normalize(message), t[j].keyword)
  {
    if forall j :: 0 <= j < |t| ==> !Includes(Normalize(message), t[j].keyword) {
      RespondNoKeyword(t, fallback, message);
    }
  }

  /** The reply depends on the message only through its normal form. */
  lemma RespondNormalized(t: Table, fallback: string, message: string)
    ensures Respond(t, fallback, Normalize(message)) == Respond(t, fallback, message)
  {
    NormalizeIdempotent(message);
  }

  /** Whitespace around the message does not change the reply. */
  lemma RespondIgnoresPadding(t: Table, fallback: string, p: string, message: string, q: string)
    requires AllSpace(p) && AllSpace(q)
    ensures Respond(t, fallback, p + message + q) == Respond(t, fallback, message)
  {
    NormalizeIgnoresPadding(p, message, q);
  }

  /** Letter case does not change the reply. */
  lemma RespondIgnoresCase(t: Table, fallback: string, message: string)
    ensures Respond(t, fallback, Lower(message)) == Respond(t, fallback, message)
  {
    NormalizeIgnoresCase(message);
  }

  /** No keyword occurs inside a later keyword. */
  predicate NoEarlierKeywordInside(t: Table) {
    forall i, j :: 0 <= j < i < |t| ==> !Includes(t[i].keyword, t[j].keyword)
  }

  /** When no keyword occurs inside a later one, the exact-match step never
      changes the answer: the scan alone would reach the same keyword. */
  lemma ExactStepAgreesWithScan(t: Table, fallback: string, message: string)
    requires UniqueKeywords(t) && NoEarlierKeywordInside(t)
    ensures Respond(t, fallback, message) == ScanReply(t, fallback, Normalize(message))
  {
    var text := Normalize(message);
    var exact := Lookup(t, text);
    if exact.Some? && Truthy(exact.value) {
      var i :| 0 <= i < |t| && t[i].keyword == text && t[i].reply == exact.value;
      IncludesSelf(text);
      FirstIncludedAt(t, text, i);
    }
  }
}
