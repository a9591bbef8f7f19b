/**
 * The string operations `procesarMensaje` relies on: `toLowerCase`, `trim`
 * and `includes` of JavaScript strings, over `seq<char>`.
 */
module Text {

  // ---------------------------------------------------------------------
  // Whitespace and trim
  // ---------------------------------------------------------------------

  /** The characters `String.prototype.trim` removes: the ECMAScript
      WhiteSpace set (tab, vertical tab, form feed, space, no-break space,
      byte order mark and the Unicode space separators) and the
      LineTerminator set (line feed, carriage return, line and paragraph
      separators). */
  predicate IsSpace(c: char)
    ensures IsSpace(c) <==> c in WhiteSpace || c in LineTerminators
  {
    || c == '\t' || c == '\n' || c == '\U{B}' || c == '\U{C}' || c == '\r'
    || c == ' ' || c == '\U{A0}' || c == '\U{1680}'
    || ('\U{2000}' <= c <= '\U{200A}')
    || c == '\U{2028}' || c == '\U{2029}' || c == '\U{202F}' || c == '\U{205F}'
    || c == '\U{3000}' || c == '\U{FEFF}'
  }

  /** ECMAScript WhiteSpace: tab, vertical tab, form feed, byte order
      mark, and the space separators (general category Zs) listed one by
      one. */
  const WhiteSpace: set<char> := {
    '\t', '\U{B}', '\U{C}', '\U{FEFF}',
    ' ', '\U{A0}', '\U{1680}',
    '\U{2000}', '\U{2001}', '\U{2002}', '\U{2003}', '\U{2004}', '\U{2005}',
    '\U{2006}', '\U{2007}', '\U{2008}', '\U{2009}', '\U{200A}',
    '\U{202F}', '\U{205F}', '\U{3000}'
  }

  /** ECMAScript LineTerminator: line feed, carriage return, line separator
      and paragraph separator. */
  const LineTerminators: set<char> := {'\n', '\r', '\U{2028}', '\U{2029}'}

  predicate AllSpace(s: string) {
    forall i :: 0 <= i < |s| ==> IsSpace(s[i])
  }

  /** Neither end of `s` is whitespace. */
  predicate IsTrimmed(s: string) {
    |s| == 0 || (!IsSpace(s[0]) && !IsSpace(s[|s| - 1]))
  }

  /** Length of the whitespace run at the start of `s`. */
  function LeadingSpaces(s: string): (n: nat)
    ensures n <= |s|
    ensures forall i :: 0 <= i < n ==> IsSpace(s[i])
    ensures n < |s| ==> !IsSpace(s[n])
  {
    if |s| > 0 && IsSpace(s[0]) then 1 + LeadingSpaces(s[1..]) else 0
  }

  /** Length of the whitespace run at the end of `s`. */
  function TrailingSpaces(s: string): (n: nat)
    ensures n <= |s|
    ensures forall i :: |s| - n <= i < |s| ==> IsSpace(s[i])
    ensures n < |s| ==> !IsSpace(s[|s| - 1 - n])
  {
    if |s| > 0 && IsSpace(s[|s| - 1]) then 1 + TrailingSpaces(s[..|s| - 1]) else 0
  }

  /** `s.trim()`: the result is the part of `s` left between a whitespace
      prefix and a whitespace suffix, and neither of its ends is whitespace. */
  function Trim(s: string): (r: string)
    ensures IsTrimmed(r)
    ensures exists a, b :: 0 <= a <= b <= |s| && r == s[a..b] && AllSpace(s[..a]) && AllSpace(s[b..])
  {
    var a := LeadingSpaces(s);
    var t := s[a..];
    var n := TrailingSpaces(t);
    var b := a + |t| - n;
    assert t[..|t| - n] == s[a..b];
    assert AllSpace(s[..a]) by {
      forall i | 0 <= i < a ensures IsSpace(s[..a][i]) {
        assert s[..a][i] == s[i];
      }
    }
    assert AllSpace(s[b..]) by {
      forall i | 0 <= i < |s| - b ensures IsSpace(s[b..][i]) {
        assert s[b..][i] == t[|t| - n + i];
      }
    }
    s[a..b]
  }

  /** Trim is determined by its specification: whatever whitespace pads a
      trimmed string, trimming recovers exactly that string. */
  lemma TrimUnique(p: string, r: string, q: string)
    requires AllSpace(p) && AllSpace(q) && IsTrimmed(r)
    ensures Trim(p + r + q) == r
  {
    var s := p + r + q;
    var a := LeadingSpaces(s);
    if r == [] {
      assert AllSpace(s) by {
        forall i | 0 <= i < |s| ensures IsSpace(s[i]) {
          if i < |p| { assert s[i] == p[i]; } else { assert s[i] == q[i - |p|]; }
        }
      }
      assert a == |s|;
    } else {
      assert s[|p|] == r[0];
      assert forall i :: 0 <= i < |p| ==> s[i] == p[i];
      assert a == |p|;
      var t := s[a..];
      assert t == r + q;
      var n := TrailingSpaces(t);
      assert t[|r| - 1] == r[|r| - 1];
      assert forall i :: |r| <= i < |t| ==> t[i] == q[i - |r|];
      assert n == |q|;
      assert t[..|t| - n] == r;
    }
  }

  lemma TrimIdempotent(s: string)
    ensures Trim(Trim(s)) == Trim(s)
  {
    TrimUnique([], Trim(s), []);
    assert [] + Trim(s) + [] == Trim(s);
  }

  lemma AllSpaceConcat(a: string, b: string)
    requires AllSpace(a) && AllSpace(b)
    ensures AllSpace(a + b)
  {
    forall i | 0 <= i < |a + b| ensures IsSpace((a + b)[i]) {
      if i < |a| { assert (a + b)[i] == a[i]; } else { assert (a + b)[i] == b[i - |a|]; }
    }
  }

  /** The whitespace `Trim` removes from either end of `s`. */
  lemma TrimParts(s: string) returns (pre: string, post: string)
    ensures AllSpace(pre) && AllSpace(post) && s == pre + Trim(s) + post
  {
    var a, b :| 0 <= a <= b <= |s| && Trim(s) == s[a..b] && AllSpace(s[..a]) && AllSpace(s[b..]);
    pre, post := s[..a], s[b..];
    assert s == s[..a] + s[a..b] + s[b..];
  }

  /** Surrounding a string with more whitespace does not change its trim. */
  lemma TrimIgnoresPadding(p: string, s: string, q: string)
    requires AllSpace(p) && AllSpace(q)
    ensures Trim(p + s + q) == Trim(s)
  {
    var pre, post := TrimParts(s);
    var r := Trim(s);
    AllSpaceConcat(p, pre);
    AllSpaceConcat(post, q);
    Regroup(p, pre, r, post, q);
    TrimUnique(p + pre, r, post + q);
  }

  lemma Regroup(a: string, b: string, c: string, d: string, e: string)
    ensures a + (b + c + d) + e == (a + b) + c + (d + e)
  {
  }

  // ---------------------------------------------------------------------
  // Case folding
  // ---------------------------------------------------------------------

  /** Lower case of one character: the basic Latin capitals A-Z and the
      Latin-1 capitals U+00C0-U+00DE (other than the multiplication sign
      U+00D7) move 0x20 down the table; every other character is kept. */
  function LowerChar(c: char): (d: char)
    ensures IsCapital(c) ==> d as int == c as int + 0x20 && !IsCapital(d)
    ensures !IsCapital(c) ==> d == c
  {
    if IsCapital(c) then (c as int + 0x20) as char else c
  }

  /** The capitals `LowerChar` folds. */
  predicate IsCapital(c: char) {
    'A' <= c <= 'Z' || ('\U{C0}' <= c <= '\U{DE}' && c != '\U{D7}')
  }

  /** `s.toLowerCase()`, character by character. */
  function Lower(s: string): (r: string)
    ensures |r| == |s|
  {
    seq(|s|, i requires 0 <= i < |s| => LowerChar(s[i]))
  }

  /** What lower-casing does to a string: no capital is left, and exactly
      the capitals change, each to the character 0x20 further on. */
  lemma LowerSpec(s: string)
    ensures forall i :: 0 <= i < |s| ==> !IsCapital(Lower(s)[i])
    ensures forall i :: 0 <= i < |s| ==> (Lower(s)[i] == s[i] <==> !IsCapital(s[i]))
    ensures forall i :: 0 <= i < |s| && IsCapital(s[i]) ==> Lower(s)[i] as int == s[i] as int + 0x20
  {
  }

  lemma LowerIdempotent(s: string)
    ensures Lower(Lower(s)) == Lower(s)
  {
  }

  /** Case folding neither creates nor removes whitespace, and keeps
      whitespace as it is. */
  lemma LowerCharSpace(c: char)
    ensures IsSpace(LowerChar(c)) <==> IsSpace(c)
    ensures IsSpace(c) ==> LowerChar(c) == c
  {
  }

  lemma LowerConcat(a: string, b: string)
    ensures Lower(a + b) == Lower(a) + Lower(b)
  {
  }

  lemma LowerKeepsSpaces(s: string)
    requires AllSpace(s)
    ensures Lower(s) == s
  {
    forall i | 0 <= i < |s| ensures Lower(s)[i] == s[i] {
      LowerCharSpace(s[i]);
    }
  }

  lemma LowerKeepsTrimmed(s: string)
    requires IsTrimmed(s)
    ensures IsTrimmed(Lower(s))
  {
    if |s| > 0 {
      LowerCharSpace(s[0]);
      LowerCharSpace(s[|s| - 1]);
    }
  }

  // ---------------------------------------------------------------------
  // Normalisation: `mensaje.toLowerCase().trim()`
  // ---------------------------------------------------------------------

  /** Already lower case and trimmed. */
  predicate IsNormal(s: string) {
    Lower(s) == s && IsTrimmed(s)
  }

  /** Lower-cases first, then trims, as the responder does. */
  function Normalize(message: string): (text: string)
    ensures IsNormal(text)
  {
    var lowered := Lower(message);
    var text := Trim(lowered);
    ghost var a, b :| 0 <= a <= b <= |lowered| && text == lowered[a..b];
    LowerIdempotent(message);
    LowerSlice(lowered, a, b);
    text
  }

  /** Every slice of a lower-case text is lower case. */
  lemma LowerSlice(s: string, a: nat, b: nat)
    requires Lower(s) == s && a <= b <= |s|
    ensures Lower(s[a..b]) == s[a..b]
  {
    forall i | 0 <= i < b - a ensures Lower(s[a..b])[i] == s[a..b][i] {
      assert Lower(s)[a + i] == s[a + i];
    }
  }

  /** Trimming first and lower-casing second gives the same text. */
  lemma {:induction false} TrimLowerCommute(s: string)
    ensures Normalize(s) == Lower(Trim(s))
  {
    var pre, post := TrimParts(s);
    LowerConcat(pre + Trim(s), post);
    LowerConcat(pre, Trim(s));
    LowerKeepsSpaces(pre);
    LowerKeepsSpaces(post);
    LowerKeepsTrimmed(Trim(s));
    assert Lower(s) == pre + Lower(Trim(s)) + post;
    TrimUnique(pre, Lower(Trim(s)), post);
  }

  /** A text that is already normal is its own normal form. */
  lemma NormalFixed(s: string)
    requires IsNormal(s)
    ensures Normalize(s) == s
  {
    TrimUnique([], s, []);
    assert [] + s + [] == s;
  }

  /** A message whose lower-case form is already trimmed normalises to
      that form. */
  lemma NormalizeOfTrimmedLower(message: string, text: string)
    requires Lower(message) == text && IsTrimmed(text)
    ensures Normalize(message) == text
  {
    TrimUnique([], text, []);
    assert [] + text + [] == text;
  }

  lemma NormalizeIdempotent(s: string)
    ensures Normalize(Normalize(s)) == Normalize(s)
  {
    NormalFixed(Normalize(s));
  }

  /** Leading and trailing whitespace around a message is ignored. */
  lemma NormalizeIgnoresPadding(p: string, s: string, q: string)
    requires AllSpace(p) && AllSpace(q)
    ensures Normalize(p + s + q) == Normalize(s)
  {
    LowerConcat(p + s, q);
    LowerConcat(p, s);
    LowerKeepsSpaces(p);
    LowerKeepsSpaces(q);
    TrimIgnoresPadding(p, Lower(s), q);
  }

  /** Messages that differ only in letter case normalise alike. */
  lemma NormalizeIgnoresCase(s: string)
    ensures Normalize(Lower(s)) == Normalize(s)
  {
    LowerIdempotent(s);
  }

  // ---------------------------------------------------------------------
  // Substring search: `text.includes(word)`
  // ---------------------------------------------------------------------

  /** `w` occurs in `s` starting at position `p`. */
  predicate OccursAt(s: string, w: string, p: int) {
    0 <= p && p + |w| <= |s| && s[p..p + |w|] == w
  }

  /** `s.includes(w)`: `w` occurs somewhere in `s`. */
  predicate Includes(s: string, w: string)
    ensures Includes(s, w) ==> |w| <= |s|
    ensures w == [] ==> Includes(s, w)
    ensures IsPrefix(w, s) ==> Includes(s, w)
  {
    assert w == [] ==> IsPrefix(w, s);
    assert IsPrefix(w, s) ==> OccursAt(s, w, 0);
    exists p :: 0 <= p <= |s| - |w| && OccursAt(s, w, p)
  }

  predicate IsPrefix(w: string, s: string) {
    |w| <= |s| && s[..|w|] == w
  }

  /** The search position by position: `w` is found when it starts the
      text or is found in the rest of the text. */
  lemma IncludesStep(s: string, w: string)
    ensures Includes(s, w) <==> IsPrefix(w, s) || (|s| > 0 && Includes(s[1..], w))
  {
    if IsPrefix(w, s) {
      assert OccursAt(s, w, 0);
    } else if |s| > 0 {
      if Includes(s[1..], w) {
        var p :| 0 <= p <= |s| - 1 - |w| && OccursAt(s[1..], w, p);
        assert s[1..][p..p + |w|] == s[p + 1..p + 1 + |w|];
        assert OccursAt(s, w, p + 1);
      }
      if Includes(s, w) {
        var p :| 0 <= p <= |s| - |w| && OccursAt(s, w, p);
        assert p != 0;
        assert s[1..][p - 1..p - 1 + |w|] == s[p..p + |w|];
        assert OccursAt(s[1..], w, p - 1);
      }
    }
  }

  lemma IncludesSelf(s: string)
    ensures Includes(s, s)
  {
    assert OccursAt(s, s, 0);
  }

  /** A word is found wherever it stands in a text. */
  lemma IncludesInfix(a: string, w: string, b: string)
    ensures Includes(a + w + b, w)
  {
    var s := a + w + b;
    assert s[|a|..|a| + |w|] == w;
    assert OccursAt(s, w, |a|);
  }

  /** Every character of a word that is found also occurs in the text, so
      a word with a character the text lacks is not in the text. */
  lemma IncludedCharsOccur(s: string, w: string, k: nat)
    requires k < |w|
    ensures Includes(s, w) ==> w[k] in s
  {
    if Includes(s, w) {
      var p :| 0 <= p <= |s| - |w| && OccursAt(s, w, p);
      assert s[p..p + |w|][k] == s[p + k];
    }
  }

  /** Skipping a stretch of text that lacks the word's first character does
      not change whether the word is found. */
  lemma {:induction false} SkipWithoutFirstChar(a: string, s: string, w: string)
    requires |w| > 0 && w[0] !in a
    ensures Includes(a + s, w) <==> Includes(s, w)
  {
    if a != [] {
      assert (a + s)[0] == a[0];
      assert !IsPrefix(w, a + s);
      assert (a + s)[1..] == a[1..] + s;
      IncludesStep(a + s, w);
      SkipWithoutFirstChar(a[1..], s, w);
    } else {
      assert a + s == s;
    }
  }
}
